/**
  The options of an App: adding and removing them and changing what they ignore, with the
  conflicts that are refused and rolled back.
 */
module CliRegistry {
  import opened CliText
  import opened CliOptions

  // ---------------------------------------------------------------- the registry as a value

  /** No two options share a name. */
  ghost predicate Clean(r: seq<Opt>) { forall i, j | 0 <= i < j < |r| :: !Match(r[i], r[j]) }

  ghost predicate Clash(r: seq<Opt>, o: Opt) { exists i | 0 <= i < |r| :: Match(r[i], o) }

  function Without(r: seq<Opt>, k: nat): (s: seq<Opt>)
    requires k < |r|
  {
    r[..k] + r[k + 1..]
  }

  /** None of the first n options, but for option k, shares a name with o. */
  ghost predicate NoneBefore(r: seq<Opt>, n: nat, k: nat, o: Opt)
    requires n <= |r|
  {
    forall j | 0 <= j < n && j != k :: !Match(r[j], o)
  }

  lemma OneClashes(r: seq<Opt>, i: nat, k: nat, o: Opt)
    requires i < |r| && k < |r| && i != k && Match(r[i], o)
    ensures Clash(Without(r, k), o)
  {
    assert Without(r, k)[if i < k then i else i - 1] == r[i];
  }

  lemma NoneClash(r: seq<Opt>, k: nat, o: Opt)
    requires k < |r| && NoneBefore(r, |r|, k, o)
    ensures !Clash(Without(r, k), o)
  {
    forall j | 0 <= j < |r| - 1 ensures !Match(Without(r, k)[j], o) {
      assert Without(r, k)[j] == r[if j < k then j else j + 1];
    }
  }

  /** Give option k other flags.  Ignoring more is refused if the option then shares a name with another one. */
  ghost function WithFlags(r: seq<Opt>, k: nat, f: Flags): (res: (seq<Opt>, bool))
    requires k < |r|
    ensures |res.0| == |r|
  {
    var o := r[k].(flags := f);
    if !f.Within(r[k].flags) && Clash(Without(r, k), o) then (r, false) else (r[k := o], true)
  }

  ghost function IgnoreCaseIn(r: seq<Opt>, k: nat, value: bool): (res: (seq<Opt>, bool))
    requires k < |r|
    ensures |res.0| == |r|
  {
    WithFlags(r, k, r[k].flags.(ignoreCase := value))
  }

  ghost function IgnoreUnderscoreIn(r: seq<Opt>, k: nat, value: bool): (res: (seq<Opt>, bool))
    requires k < |r|
    ensures |res.0| == |r|
  {
    WithFlags(r, k, r[k].flags.(ignoreUnderscore := value))
  }

  /** A new option takes over the defaults one by one.  A default that is refused is an error, but the option stays. */
  ghost function AddTo(r: seq<Opt>, snames: seq<string>, lnames: seq<string>, defaults: Flags): (seq<Opt>, bool) {
    var o := Opt(snames, lnames, EXACT);
    if Clash(r, o) then (r, false)
    else
      var (s, ok) := IgnoreCaseIn(r + [o], |r|, defaults.ignoreCase);
      if ok then IgnoreUnderscoreIn(s, |r|, defaults.ignoreUnderscore) else (s, false)
  }

  datatype Op =
    | AddOption(snames: seq<string>, lnames: seq<string>, defaults: Flags)
    | IgnoreCase(k: nat, value: bool)
    | IgnoreUnderscore(k: nat, value: bool)
    | RemoveOption(k: nat)

  /** One operation, whether it succeeds or throws. */
  ghost function Apply(r: seq<Opt>, op: Op): (seq<Opt>, bool) {
    match op
    case AddOption(snames, lnames, defaults) => AddTo(r, snames, lnames, defaults)
    case IgnoreCase(k, value) => if k < |r| then IgnoreCaseIn(r, k, value) else (r, false)
    case IgnoreUnderscore(k, value) => if k < |r| then IgnoreUnderscoreIn(r, k, value) else (r, false)
    case RemoveOption(k) => if k < |r| then (Without(r, k), true) else (r, false)
  }

  ghost function RunOps(ops: seq<Op>): seq<Opt> {
    if ops == [] then [] else Apply(RunOps(ops[..|ops| - 1]), ops[|ops| - 1]).0
  }

  // ---------------------------------------------------------------- every operation keeps the names apart

  lemma MatchFewer(a: Opt, b: Opt, f: Flags)
    requires f.Within(b.flags) && Match(a, b.(flags := f))
    ensures Match(a, b)
  {
    var c := b.(flags := f);
    if MatchBy(a, c, f) {
      assert MatchBy(a, b, f);
      MatchByCoarser(a, b, f, b.flags);
    } else {
      assert MatchBy(a, b, a.flags);
    }
  }

  lemma WithFlagsClean(r: seq<Opt>, k: nat, f: Flags)
    requires k < |r| && Clean(r)
    ensures Clean(WithFlags(r, k, f).0)
  {
    var o := r[k].(flags := f);
    if WithFlags(r, k, f).1 {
      var s := r[k := o];
      forall i | 0 <= i < |r| && i != k ensures !Match(r[i], o) && !Match(o, r[i]) {
        MatchSymmetric(r[i], o);
        MatchSymmetric(r[i], r[k]);
        if f.Within(r[k].flags) {
          if Match(r[i], o) { MatchFewer(r[i], r[k], f); }
        } else {
          assert r[i] == Without(r, k)[if i < k then i else i - 1];
        }
      }
      assert Clean(s);
    }
  }

  lemma AppendClean(r: seq<Opt>, o: Opt)
    requires Clean(r) && !Clash(r, o)
    ensures Clean(r + [o])
  {
  }

  lemma ApplyClean(r: seq<Opt>, op: Op)
    requires Clean(r)
    ensures Clean(Apply(r, op).0)
  {
    match op
    case AddOption(snames, lnames, defaults) =>
      var o := Opt(snames, lnames, EXACT);
      if !Clash(r, o) {
        AppendClean(r, o);
        var s := r + [o];
        WithFlagsClean(s, |r|, s[|r|].flags.(ignoreCase := defaults.ignoreCase));
        var t := IgnoreCaseIn(s, |r|, defaults.ignoreCase).0;
        WithFlagsClean(t, |r|, t[|r|].flags.(ignoreUnderscore := defaults.ignoreUnderscore));
      }
    case IgnoreCase(k, value) =>
      if k < |r| { WithFlagsClean(r, k, r[k].flags.(ignoreCase := value)); }
    case IgnoreUnderscore(k, value) =>
      if k < |r| { WithFlagsClean(r, k, r[k].flags.(ignoreUnderscore := value)); }
    case RemoveOption(k) =>
  }

  /** After every sequence of operations, including those that throw, no two options share a name. */
  lemma {:induction false} AlwaysClean(ops: seq<Op>)
    ensures Clean(RunOps(ops))
  {
    if ops != [] {
      AlwaysClean(ops[..|ops| - 1]);
      ApplyClean(RunOps(ops[..|ops| - 1]), ops[|ops| - 1]);
    }
  }

  // ---------------------------------------------------------------- which option a name selects

  /** A name that has its underscores where x has them and otherwise the characters of letters. */
  function Blend(x: string, letters: string): (t: string)
    requires |RemoveUnderscore(x)| == |letters|
  {
    if x == "" then ""
    else if x[0] == '_' then "_" + Blend(x[1..], letters)
    else [letters[0]] + Blend(x[1..], letters[1..])
  }

  lemma LowerAt(c: char, s: string)
    ensures ToLower([c] + s) == [LowerChar(c)] + ToLower(s)
  {
  }

  lemma RemoveAt(c: char, s: string)
    ensures RemoveUnderscore([c] + s) == (if c == '_' then "" else [c]) + RemoveUnderscore(s)
  {
    assert ([c] + s)[1..] == s;
  }

  /** One more character in front of a name x, in front of the letters, and in front of their blend t. */
  lemma BlendStep(c: char, x: string, d: char, letters: string, t: string)
    requires RemoveUnderscore(t) == letters && ToLower(t) == ToLower(x) && LowerChar(c) == LowerChar(d)
    ensures ToLower([d] + t) == ToLower([c] + x)
    ensures RemoveUnderscore([d] + t) == (if d == '_' then "" else [d]) + letters
  {
    LowerAt(c, x);
    LowerAt(d, t);
    RemoveAt(d, t);
  }

  lemma BlendLetters(c: char, rest: string, letters: string)
    requires letters != "" && ToLower([c] + rest) == ToLower(letters)
    ensures LowerChar(c) == LowerChar(letters[0]) && ToLower(rest) == ToLower(letters[1..])
  {
    LowerAt(c, rest);
    assert letters == [letters[0]] + letters[1..];
    LowerAt(letters[0], letters[1..]);
    assert ToLower(rest) == ToLower([c] + rest)[1..] && ToLower(letters[1..]) == ToLower(letters)[1..];
  }

  lemma {:induction false} BlendWorks(x: string, letters: string)
    requires '_' !in letters && ToLower(RemoveUnderscore(x)) == ToLower(letters)
    ensures |RemoveUnderscore(x)| == |letters|
    ensures RemoveUnderscore(Blend(x, letters)) == letters && ToLower(Blend(x, letters)) == ToLower(x)
  {
    assert |RemoveUnderscore(x)| == |ToLower(letters)|;
    if x != "" {
      var rest := x[1..];
      assert x == [x[0]] + rest;
      if x[0] == '_' {
        BlendWorks(rest, letters);
        BlendStep('_', rest, '_', letters, Blend(rest, letters));
      } else {
        BlendLetters(x[0], RemoveUnderscore(rest), letters);
        BlendWorks(rest, letters[1..]);
        BlendStep(x[0], rest, letters[0], letters[1..], Blend(rest, letters[1..]));
      }
    }
  }

  lemma {:induction false} NoUnderscoreLeft(s: string)
    ensures '_' !in RemoveUnderscore(s)
  {
    if s != "" { NoUnderscoreLeft(s[1..]); }
  }

  /** A name that is x to the one and y to the other. */
  lemma Between(f: Flags, x: string, g: Flags, y: string) returns (t: string)
    requires Norm(f.Union(g), x) == Norm(f.Union(g), y)
    ensures Norm(f, t) == Norm(f, x) && Norm(g, t) == Norm(g, y)
  {
    if f.Within(g) {
      t := x;
    } else if g.Within(f) {
      t := y;
    } else if f.ignoreCase {
      NoUnderscoreLeft(y);
      BlendWorks(x, RemoveUnderscore(y));
      t := Blend(x, RemoveUnderscore(y));
    } else {
      NoUnderscoreLeft(x);
      BlendWorks(y, RemoveUnderscore(x));
      t := Blend(y, RemoveUnderscore(x));
    }
  }

  /**
    Some long name selects both options exactly when they have long names that are the same
    once everything is ignored that either of them ignores.
   */
  lemma AmbiguousIff(a: Opt, b: Opt)
    ensures (exists t :: CheckLname(a, t) && CheckLname(b, t)) <==> Share(a.lnames, b.lnames, a.flags.Union(b.flags))
  {
    var u := a.flags.Union(b.flags);
    forall t | CheckLname(a, t) && CheckLname(b, t) ensures Share(a.lnames, b.lnames, u) {
      var i, j := FindMember(t, a.lnames, a.flags), FindMember(t, b.lnames, b.flags);
      NormCoarser(a.flags, u, a.lnames[i], t);
      NormCoarser(b.flags, u, b.lnames[j], t);
      assert Shared(a.lnames, b.lnames, u, i, j);
    }
    if Share(a.lnames, b.lnames, u) {
      var i, j :| Shared(a.lnames, b.lnames, u, i, j);
      var t := Between(a.flags, a.lnames[i], b.flags, b.lnames[j]);
      assert CheckLname(a, t) && CheckLname(b, t);
    }
  }

  /**
    After every sequence of operations a long name selects at most one of two options, if one of
    them ignores all that the other ignores.
   */
  lemma LongNameUnique(ops: seq<Op>, i: nat, j: nat, t: string)
    requires var r := RunOps(ops); i < |r| && j < |r| && CheckLname(r[i], t) && CheckLname(r[j], t)
    requires var r := RunOps(ops); r[i].flags.Within(r[j].flags) || r[j].flags.Within(r[i].flags)
    ensures i == j
  {
    var r := RunOps(ops);
    AlwaysClean(ops);
    AmbiguousIff(r[i], r[j]);
    assert Match(r[i], r[j]);
    MatchSymmetric(r[i], r[j]);
  }

  /** A short name selects at most one option, whatever the options ignore. */
  lemma ShortNameUnique(ops: seq<Op>, i: nat, j: nat, t: string)
    requires var r := RunOps(ops); i < |r| && j < |r| && CheckSname(r[i], t) && CheckSname(r[j], t)
    ensures i == j
  {
    var r := RunOps(ops);
    AlwaysClean(ops);
    var a, b := r[i], r[j];
    var f := if a.flags.ignoreCase then a.flags.Short() else b.flags.Short();
    var x, y := FindMember(t, a.snames, a.flags.Short()), FindMember(t, b.snames, b.flags.Short());
    NormCoarser(a.flags.Short(), f, a.snames[x], t);
    NormCoarser(b.flags.Short(), f, b.snames[y], t);
    assert Shared(a.snames, b.snames, f, x, y);
    assert Match(a, b);
    MatchSymmetric(a, b);
  }

  function Long(name: string, f: Flags): (o: Opt) { Opt([], [name], f) }

  lemma LongMatch(x: string, f: Flags, y: string, g: Flags)
    ensures Match(Long(x, f), Long(y, g)) <==> Norm(f, x) == Norm(f, y) || Norm(g, x) == Norm(g, y)
  {
    forall h ensures Share([x], [y], h) <==> Norm(h, x) == Norm(h, y) {
      assert Shared([x], [y], h, 0, 0) <==> Norm(h, x) == Norm(h, y);
    }
  }

  /** Adding an option with a single long name beside another one. */
  lemma AddLong(r: seq<Opt>, y: string, g: Flags)
    requires |r| <= 1 && forall i | 0 <= i < |r| :: !Match(r[i], Long(y, EXACT)) && !Match(r[i], Long(y, g))
    requires g.ignoreCase ==> !g.ignoreUnderscore
    ensures AddTo(r, [], [y], g) == (r + [Long(y, g)], true)
  {
    var o, n := Long(y, EXACT), |r|;
    var s := r + [o];
    assert Without(s, n) == r;
    var c := Long(y, EXACT.(ignoreCase := g.ignoreCase));
    assert s[n := c] == r + [c] && (r + [c])[n := Long(y, g)] == r + [Long(y, g)];
    assert Without(r + [c], n) == r;
  }

  /** Otherwise a name may select two registered options. */
  lemma TwoSelected()
    ensures
      var r := RunOps([AddOption([], ["a_b"], Flags(true, false)), AddOption([], ["AB"], Flags(false, true))]);
      |r| == 2 && CheckLname(r[0], "A_B") && CheckLname(r[1], "A_B")
  {
    var f, g := Flags(true, false), Flags(false, true);
    var one, two := AddOption([], ["a_b"], f), AddOption([], ["AB"], g);
    assert RemoveUnderscore("a_b") == "ab" && RemoveUnderscore("AB") == "AB" && RemoveUnderscore("A_B") == "AB";
    assert ToLower("A_B") == ToLower("a_b") && |ToLower("AB")| == 2;
    LongMatch("a_b", f, "AB", g);
    LongMatch("a_b", f, "AB", EXACT);
    AddLong([], "a_b", f);
    AddLong([Long("a_b", f)], "AB", g);
    assert [one, two][..1] == [one] && [one][..0] == [] && RunOps([]) == [];
    assert RunOps([one]) == [Long("a_b", f)];
    assert RunOps([one, two]) == [Long("a_b", f), Long("AB", g)];
  }
}
