/**
  The App and its Option objects, updated in place.
 */
module CliApp {
  import opened CliOptions
  import opened CliRegistry

  class Option {
    const snames: seq<string>
    const lnames: seq<string>
    var flags: Flags

    constructor (snames: seq<string>, lnames: seq<string>)
      requires Named(snames) && Named(lnames)
      ensures View() == Opt(snames, lnames, EXACT)
    {
      this.snames, this.lnames, this.flags := snames, lnames, EXACT;
    }

    function View(): (o: Opt)
      reads this
    {
      Opt(snames, lnames, flags)
    }
  }

  /** matching_name finds a name. */
  method SharesName(a: Opt, b: Opt) returns (shared: bool)
    requires WellNamed(a) && WellNamed(b)
    ensures shared <==> Match(a, b)
  {
    MatchingNameIff(a, b);
    shared := MatchingName(a, b) != "";
  }

  class App {
    var options: seq<Option>
    var defaults: Flags

    ghost function Views(): (r: seq<Opt>)
      reads this, options
      ensures |r| == |options| && forall i | 0 <= i < |r| :: r[i] == options[i].View()
    {
      seq(|options|, i requires 0 <= i < |options| reads this, options => options[i].View())
    }

    /** All options are different objects with names, and no two share one. */
    ghost predicate Valid()
      reads this, options
    {
      && (forall i, j | 0 <= i < j < |options| :: options[i] != options[j])
      && (forall i | 0 <= i < |options| :: WellNamed(options[i].View()))
      && Clean(Views())
    }

    /** Whether another option shares a name with o. */
    method Conflicts(o: Option, ghost k: nat) returns (conflict: bool)
      requires k < |options| && options[k] == o && WellNamed(o.View())
      requires forall i | 0 <= i < |options| && i != k :: options[i] != o
      requires forall i | 0 <= i < |options| :: WellNamed(options[i].View())
      ensures conflict <==> Clash(Without(Views(), k), o.View())
    {
      ghost var r := Views();
      for i := 0 to |options|
        invariant NoneBefore(r, i, k, o.View())
      {
        if options[i] == o { continue; }
        var shared := SharesName(options[i].View(), o.View());
        if shared {
          OneClashes(r, i, k, o.View());
          return true;
        }
      }
      NoneClash(r, k, o.View());
      return false;
    }

    /**
      Give an option other flags; if it then ignores more and shares a name with another one, give
      the old ones back.
     */
    method SetFlags(o: Option, f: Flags, ghost k: nat) returns (ok: bool)
      requires Valid() && k < |options| && options[k] == o
      modifies o
      ensures Valid() && options == old(options)
      ensures (Views(), ok) == WithFlags(old(Views()), k, f)
    {
      ghost var r := Views();
      var was := o.flags;
      Assign(o, f, k);
      ok := true;
      if !f.Within(was) {
        WithoutUpdate(r, k, r[k].(flags := f));
        var conflict := Conflicts(o, k);
        if conflict {
          Assign(o, was, k);
          assert Views() == r;
          ok := false;
        }
      }
      WithFlagsClean(r, k, f);
    }

    /** Write an option's flags. */
    method Assign(o: Option, f: Flags, ghost k: nat)
      requires k < |options| && options[k] == o && forall i | 0 <= i < |options| && i != k :: options[i] != o
      modifies o
      ensures Views() == old(Views())[k := old(Views())[k].(flags := f)]
    {
      o.flags := f;
    }

    method IgnoreCase(o: Option, value: bool, ghost k: nat) returns (ok: bool)
      requires Valid() && k < |options| && options[k] == o
      modifies o
      ensures Valid() && options == old(options)
      ensures (Views(), ok) == IgnoreCaseIn(old(Views()), k, value)
    {
      ok := SetFlags(o, o.flags.(ignoreCase := value), k);
    }

    method IgnoreUnderscore(o: Option, value: bool, ghost k: nat) returns (ok: bool)
      requires Valid() && k < |options| && options[k] == o
      modifies o
      ensures Valid() && options == old(options)
      ensures (Views(), ok) == IgnoreUnderscoreIn(old(Views()), k, value)
    {
      ok := SetFlags(o, o.flags.(ignoreUnderscore := value), k);
    }

    /** Whether a registered option shares a name with a new one. */
    method Registered(o: Option) returns (found: bool)
      requires Valid() && WellNamed(o.View())
      ensures found <==> Clash(Views(), o.View())
    {
      for i := 0 to |options|
        invariant forall j | 0 <= j < i :: !Match(options[j].View(), o.View())
      {
        MatchingNameIff(options[i].View(), o.View());
        if MatchingName(options[i].View(), o.View()) != "" {
          assert Match(Views()[i], o.View());
          return true;
        }
      }
      return false;
    }

    /** Register a new option, and hand the defaults on to it. */
    method AddOption(snames: seq<string>, lnames: seq<string>) returns (ok: bool)
      requires Valid() && Named(snames) && Named(lnames)
      modifies this
      ensures Valid() && (options == old(options) || (old(options) < options && fresh(options[|old(options)|..])))
      ensures (Views(), ok) == AddTo(old(Views()), snames, lnames, old(defaults)) && defaults == old(defaults)
    {
      ghost var r := Views();
      var o := new Option(snames, lnames);
      var found := Registered(o);
      if found { return false; }
      options := options + [o];
      assert Views() == r + [o.View()];
      AppendClean(r, o.View());
      ok := IgnoreCase(o, defaults.ignoreCase, |r|);
      if ok { ok := IgnoreUnderscore(o, defaults.ignoreUnderscore, |r|); }
    }

    /** Take out the option at k. */
    method Erase(k: nat)
      requires Valid() && k < |options|
      modifies this`options
      ensures Valid() && options == old(options)[..k] + old(options)[k + 1..] && Views() == Without(old(Views()), k)
    {
      ghost var r, before := Views(), options;
      options := options[..k] + options[k + 1..];
      assert forall i | 0 <= i < |options| :: options[i] == before[if i < k then i else i + 1];
      assert Views() == Without(r, k);
      ApplyClean(r, Op.RemoveOption(k));
    }

    /** Take an option out, if it is there. */
    method RemoveOption(o: Option) returns (found: bool)
      requires Valid()
      modifies this`options
      ensures Valid()
      ensures found <==> o in old(options)
      ensures found ==> exists k ::
                0 <= k < |old(options)| && old(options)[k] == o && Views() == Without(old(Views()), k)
      ensures !found ==> options == old(options)
    {
      var k := 0;
      while k < |options| && options[k] != o
        invariant k <= |options| && o !in options[..k]
      {
        k := k + 1;
      }
      found := k < |options|;
      if found { Erase(k); }
    }
  }

  lemma WithoutUpdate(r: seq<Opt>, k: nat, o: Opt)
    requires k < |r|
    ensures Without(r[k := o], k) == Without(r, k)
  {
  }
}
