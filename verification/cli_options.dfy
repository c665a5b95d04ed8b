/**
  The option names registered with an App: which names count as the same, which sets of
  options may be registered together, and which option a name on the command line selects.
 */
module CliOptions {
  import opened CliText

  /** What of a name an option ignores. */
  datatype Flags = Flags(ignoreCase: bool, ignoreUnderscore: bool) {
    function Union(other: Flags): Flags {
      Flags(ignoreCase || other.ignoreCase, ignoreUnderscore || other.ignoreUnderscore)
    }

    predicate Within(other: Flags) {
      (ignoreCase ==> other.ignoreCase) && (ignoreUnderscore ==> other.ignoreUnderscore)
    }
    /** Short names are compared without regard to underscores. */
    function Short(): Flags { Flags(ignoreCase, false) }
  }

  const EXACT := Flags(false, false)

  function Norm(f: Flags, name: string): (r: string) {
    var n := if f.ignoreUnderscore then RemoveUnderscore(name) else name;
    if f.ignoreCase then ToLower(n) else n
  }

  // ---------------------------------------------------------------- normal forms of names

  lemma {:induction false} LowerKeepsUnderscores(s: string)
    ensures RemoveUnderscore(ToLower(s)) == ToLower(RemoveUnderscore(s))
  {
    if s != "" {
      LowerKeepsUnderscores(s[1..]);
      LowerFirst(s[0], s[1..]);
      LowerFirst(s[0], RemoveUnderscore(s[1..]));
      assert s == [s[0]] + s[1..];
      assert LowerChar(s[0]) == '_' <==> s[0] == '_';
    }
  }

  lemma LowerFirst(c: char, s: string)
    ensures ToLower([c] + s) == [LowerChar(c)] + ToLower(s)
  {
  }

  /** Ignoring more makes more names equal. */
  lemma NormCoarser(f: Flags, g: Flags, x: string, y: string)
    requires f.Within(g) && Norm(f, x) == Norm(f, y)
    ensures Norm(g, x) == Norm(g, y)
  {
    LowerKeepsUnderscores(x);
    LowerKeepsUnderscores(y);
  }

  // ---------------------------------------------------------------- options as values

  datatype Opt = Opt(snames: seq<string>, lnames: seq<string>, flags: Flags)

  /** The index of the first name that counts as the same, or -1. */
  function FindMember(name: string, names: seq<string>, f: Flags): (i: int)
    ensures -1 <= i < |names|
    ensures i >= 0 ==> Norm(f, names[i]) == Norm(f, name)
    ensures i == -1 ==> forall j | 0 <= j < |names| :: Norm(f, names[j]) != Norm(f, name)
    decreases |names|
  {
    if names == [] then -1
    else if Norm(f, names[0]) == Norm(f, name) then 0
    else
      var i := FindMember(name, names[1..], f);
      assert forall j | 1 <= j < |names| :: names[j] == names[1..][j - 1];
      if i < 0 then -1 else i + 1
  }

  predicate CheckSname(o: Opt, name: string) { FindMember(name, o.snames, o.flags.Short()) >= 0 }

  /** A short name selects an option with that short name, in either case if the option ignores case. */
  lemma ShortSelectsIff(o: Opt, name: string)
    ensures CheckSname(o, name) <==>
              exists i | 0 <= i < |o.snames| ::
                o.snames[i] == name || (o.flags.ignoreCase && ToLower(o.snames[i]) == ToLower(name))
  {
    var i := FindMember(name, o.snames, o.flags.Short());
    assert i >= 0 ==> Norm(o.flags.Short(), o.snames[i]) == Norm(o.flags.Short(), name);
  }

  predicate CheckLname(o: Opt, name: string) { FindMember(name, o.lnames, o.flags) >= 0 }

  ghost predicate Named(names: seq<string>) { forall i | 0 <= i < |names| :: names[i] != "" }

  ghost predicate WellNamed(o: Opt) { Named(o.snames) && Named(o.lnames) }

  /** The first of the names that counts as a known one, or the empty string. */
  function FirstKnown(names: seq<string>, known: seq<string>, f: Flags): (r: string)
    requires Named(names)
    ensures r != "" <==> Share(names, known, f)
    ensures r != "" ==> r in names
    decreases |names|
  {
    if names == [] then ""
    else if FindMember(names[0], known, f) >= 0 then
      assert Shared(names, known, f, 0, FindMember(names[0], known, f));
      names[0]
    else
      assert forall i, j | 0 < i && Shared(names, known, f, i, j) :: Shared(names[1..], known, f, i - 1, j);
      assert forall i, j | Shared(names[1..], known, f, i, j) :: Shared(names, known, f, i + 1, j);
      FirstKnown(names[1..], known, f)
  }

  ghost predicate Shared(xs: seq<string>, ys: seq<string>, f: Flags, i: int, j: int) {
    0 <= i < |xs| && 0 <= j < |ys| && Norm(f, xs[i]) == Norm(f, ys[j])
  }

  /** Some name of one list counts as some name of the other. */
  ghost predicate Share(xs: seq<string>, ys: seq<string>, f: Flags) { exists i, j :: Shared(xs, ys, f, i, j) }

  /** The name of a that is also a name of b, in the eyes of either of them, or the empty string. */
  function MatchingName(a: Opt, b: Opt): (r: string)
    requires WellNamed(a) && WellNamed(b)
  {
    var s := FirstKnown(a.snames, b.snames, b.flags.Short());
    if s != "" then s
    else
      var l := FirstKnown(a.lnames, b.lnames, b.flags);
      if l != "" then l
      else if a.flags == EXACT then ""
      else
        var t := FirstKnown(b.snames, a.snames, a.flags.Short());
        if t != "" then t else FirstKnown(b.lnames, a.lnames, a.flags)
  }

  ghost predicate MatchBy(a: Opt, b: Opt, f: Flags) {
    Share(a.snames, b.snames, f.Short()) || Share(a.lnames, b.lnames, f)
  }

  ghost predicate Match(a: Opt, b: Opt) { MatchBy(a, b, a.flags) || MatchBy(a, b, b.flags) }

  lemma ShareCoarser(xs: seq<string>, ys: seq<string>, f: Flags, g: Flags)
    requires f.Within(g) && Share(xs, ys, f)
    ensures Share(xs, ys, g) && Share(ys, xs, g)
  {
    var i, j :| Shared(xs, ys, f, i, j);
    NormCoarser(f, g, xs[i], ys[j]);
    assert Shared(xs, ys, g, i, j) && Shared(ys, xs, g, j, i);
  }

  lemma MatchByCoarser(a: Opt, b: Opt, f: Flags, g: Flags)
    requires f.Within(g) && MatchBy(a, b, f)
    ensures MatchBy(a, b, g) && MatchBy(b, a, g)
  {
    if Share(a.snames, b.snames, f.Short()) {
      ShareCoarser(a.snames, b.snames, f.Short(), g.Short());
    } else {
      ShareCoarser(a.lnames, b.lnames, f, g);
    }
  }

  lemma MatchSymmetric(a: Opt, b: Opt)
    ensures Match(a, b) == Match(b, a)
  {
    forall f, x, y | MatchBy(x, y, f) ensures MatchBy(y, x, f) { MatchByCoarser(x, y, f, f); }
  }

  /** matching_name finds a name exactly when the options share one in the eyes of either. */
  lemma MatchingNameIff(a: Opt, b: Opt)
    requires WellNamed(a) && WellNamed(b)
    ensures MatchingName(a, b) != "" <==> Match(a, b)
  {
    forall f, x, y | MatchBy(x, y, f) ensures MatchBy(y, x, f) { MatchByCoarser(x, y, f, f); }
    if a.flags == EXACT && MatchBy(a, b, a.flags) { MatchByCoarser(a, b, EXACT, b.flags); }
  }
}
