/**
  What the argument loop does with the usual forms of a command line: laws on whole lines, for
  every name and every value.
 */
module CliLaws {
  import opened Arithmetic
  import opened CliText
  import opened CliOptions
  import opened Common
  import opened CliArgs
  import opened CliParser

  // ---------------------------------------------------------------- cutting an argument

  /** The text is name, delimiter and value; without the delimiter it is the name. */
  ghost predicate CutAt(text: string, c: char, p: Parts) {
    && c !in p.name && p.rest == ""
    && if c in text then text == p.name + [c] + p.value else text == p.name && p.value == ""
  }

  lemma SplitAtCuts(text: string, c: char)
    ensures CutAt(text, c, SplitAt(text, c))
  {
    var i := Find(text, c);
    if i < |text| {
      assert text == text[..i] + [text[i]] + text[i + 1..];
    }
  }

  /** There is only one way to cut a text. */
  lemma CutOnce(text: string, c: char, p: Parts, q: Parts)
    requires CutAt(text, c, p) && CutAt(text, c, q)
    ensures p == q
  {
    if c in text {
      NotLater(text, c, p, q);
      NotLater(text, c, q, p);
      assert p.name == text[..|p.name|] && q.name == text[..|q.name|];
      assert p.value == text[|p.name| + 1..] && q.value == text[|q.name| + 1..];
    }
  }

  lemma NotLater(text: string, c: char, p: Parts, q: Parts)
    requires c in text && CutAt(text, c, p) && CutAt(text, c, q)
    ensures |p.name| <= |q.name|
  {
    assert text[|q.name|] == c;
    assert forall j | 0 <= j < |p.name| :: text[j] == p.name[j];
  }

  /** The parts of an argument, put together, are the argument. */
  ghost predicate Makes(kind: Classifier, arg: string, p: Parts)
    requires |arg| >= 2
  {
    match kind
    case LongName =>
      arg == "--" + p.name + (if '=' in arg[2..] then "=" + p.value else "") && CutAt(arg[2..], '=', p)
    case WindowsStyle =>
      arg == "/" + p.name + (if ':' in arg[1..] then ":" + p.value else "") && CutAt(arg[1..], ':', p)
    case _ =>
      arg == "-" + p.name + p.rest && |p.name| == 1 && p.value == ""
  }

  lemma PartsMakeArg(specs: seq<Spec>, cfg: Settings, arg: string)
    requires NamesOption(Recognize(specs, cfg, arg))
    ensures var kind := Recognize(specs, cfg, arg); Makes(kind, arg, SplitArg(kind, arg))
  {
    var kind := Recognize(specs, cfg, arg);
    if kind == LongName {
      LongMakes(arg);
    } else if kind == WindowsStyle {
      WindowsMakes(arg);
    } else {
      assert arg == "-" + [arg[1]] + arg[2..];
    }
  }

  lemma LongMakes(arg: string)
    requires IsLong(arg)
    ensures Makes(LongName, arg, SplitArg(LongName, arg))
  {
    SplitAtCuts(arg[2..], '=');
    var p := SplitAt(arg[2..], '=');
    PutTogether("--", arg, arg[2..], p, "=");
  }

  lemma WindowsMakes(arg: string)
    requires IsWindows(arg)
    ensures Makes(WindowsStyle, arg, SplitArg(WindowsStyle, arg))
  {
    SplitAtCuts(arg[1..], ':');
    var p := SplitAt(arg[1..], ':');
    PutTogether("/", arg, arg[1..], p, ":");
  }

  lemma PutTogether(dashes: string, arg: string, text: string, p: Parts, c: string)
    requires dashes <= arg && text == arg[|dashes|..] && |c| == 1 && CutAt(text, c[0], p)
    ensures arg == dashes + p.name + if c[0] in text then c + p.value else ""
  {
    assert arg == dashes + text && c == [c[0]];
  }

  /** A long option with a value is cut at the first equals sign. */
  lemma LongArg(n: string, v: string)
    requires n != "" && ValidFirstChar(n[0]) && '=' !in n
    ensures IsLong("--" + n + "=" + v) && SplitArg(LongName, "--" + n + "=" + v) == Parts(n, v, "")
  {
    var arg := "--" + n + "=" + v;
    var text := n + "=" + v;
    assert arg[2..] == text && arg[..2] == "--" && arg[2] == n[0];
    SplitAtCuts(text, '=');
    assert text[|n|] == '=';
    CutOnce(text, '=', SplitAt(text, '='), Parts(n, v, ""));
  }

  lemma BareLongArg(n: string)
    requires n != "" && ValidFirstChar(n[0]) && '=' !in n
    ensures IsLong("--" + n) && SplitArg(LongName, "--" + n) == Parts(n, "", "")
  {
    var arg := "--" + n;
    assert arg[2..] == n && arg[..2] == "--" && arg[2] == n[0];
    SplitAtCuts(n, '=');
  }

  lemma ShortArg(c: char, v: string)
    requires ValidFirstChar(c)
    ensures IsShort("-" + [c] + v) && SplitArg(ShortName, "-" + [c] + v) == Parts([c], "", v)
  {
    var arg := "-" + [c] + v;
    assert arg[0] == '-' && arg[1] == c && arg[2..] == v;
  }

  /** The arguments that are no options: those that start otherwise, with a sign no name has, or a negative number. */
  lemma TextIff(specs: seq<Spec>, cfg: Settings, arg: string)
    ensures Recognize(specs, cfg, arg) == Unclassified <==>
              || |arg| < 2
              || (arg[0] == '/' && (!cfg.windows || arg[1] in "-! \n"))
              || arg[0] !in "-/"
              || (arg[0] == '-' && arg[1] in "! \n")
              || (arg[..2] == "--" && |arg| > 2 && arg[2] in "-! \n")
              || (arg[0] == '-' && arg[1] in "0123456789" && !HasShort(specs, [arg[1]]))
  {
  }

  ghost predicate HasShort(specs: seq<Spec>, name: string) {
    exists k | 0 <= k < |specs| :: CheckSname(specs[k].names, name)
  }

  /** Behind a slash a name may be a long or a short one. */
  lemma SlashSelects(o: Opt, name: string)
    ensures Selects(WindowsStyle, o, name) <==> Selects(LongName, o, name) || Selects(ShortName, o, name)
  {
  }

  // ---------------------------------------------------------------- counts and results

  /** How many values an option needs: those of one item of its type, or none if no item is expected. */
  lemma MinNumIs(s: Spec)
    ensures MinNum(s) == if s.expectedMin == 0 then 0 else s.typeMin
  {
    if s.expectedMin > 0 { MulMono(s.typeMin, 1, s.expectedMin); }
  }

  /** How many it can have, where that is no vector without end. */
  lemma MaxNumIs(s: Spec)
    requires s.typeMax * s.expectedMax < EXPECTED_MAX_VECTOR_SIZE / 16
    ensures MaxNum(s) == s.typeMax * s.expectedMax
  {
  }

  /** No arguments are held back exactly when every required positional has its values. */
  lemma {:induction false} NoneRemainIff(specs: seq<Spec>, results: seq<seq<string>>)
    requires |specs| == |results|
    ensures RemainingRequired(specs, results) == 0 <==>
              forall k | 0 <= k < |specs| && specs[k].positional && specs[k].required ::
                specs[k].typeMin * specs[k].expectedMin <= |results[k]|
  {
    if specs != [] {
      NoneRemainIff(specs[1..], results[1..]);
      assert forall k | 1 <= k < |specs| :: specs[k] == specs[1..][k - 1] && results[k] == results[1..][k - 1];
    }
  }

  /** A text of several values is taken apart at the option's delimiter. */
  lemma {:induction false} DelimitedResults(s: Spec, parts: seq<string>)
    requires s.delimiter != '\0' && !s.allowExtra && parts != []
    requires forall i | 0 <= i < |parts| :: parts[i] != "" && s.delimiter !in parts[i]
    ensures ResultsOf(s, JoinWith(parts, s.delimiter)) == parts
  {
    JoinThenSplit(parts, s.delimiter);
    AllKept(parts);
    if |parts| == 1 {
      assert parts == [parts[0]];
    } else {
      HoldsDelimiter(parts, s.delimiter);
    }
  }

  lemma HoldsDelimiter(parts: seq<string>, c: char)
    requires |parts| > 1
    ensures c in JoinWith(parts, c)
  {
    assert JoinWith(parts, c)[|parts[0]|] == c;
  }

  lemma {:induction false} AllKept(parts: seq<string>)
    requires forall i | 0 <= i < |parts| :: parts[i] != ""
    ensures NonEmpty(parts) == parts
  {
    if parts != [] {
      AllKept(parts[1..]);
      assert parts == [parts[0]] + parts[1..];
    }
  }

  /** A bracketed list is its members. */
  lemma {:induction false} BracketedResults(s: Spec, parts: seq<string>)
    requires s.allowExtra && s.delimiter == '\0' && parts != []
    requires forall i | 0 <= i < |parts| :: parts[i] != "" && ',' !in parts[i] && parts[i][0] != '['
    ensures ResultsOf(s, "[" + JoinWith(parts, ',') + "]") == parts
  {
    var inner := JoinWith(parts, ',');
    var text := "[" + inner + "]";
    JoinThenSplit(parts, ',');
    assert text[1..|text| - 1] == inner;
    SingleResults(s, parts, |text|);
  }

  lemma {:induction false} SingleResults(s: Spec, parts: seq<string>, bound: nat)
    requires s.delimiter == '\0' && forall i | 0 <= i < |parts| :: |parts[i]| < bound
    requires forall i | 0 <= i < |parts| :: parts[i] != "" && parts[i][0] != '['
    ensures ResultsOfAll(s, parts, bound) == parts
  {
    if parts != [] {
      SingleResults(s, parts[1..], bound);
      assert ResultsOf(s, parts[0]) == [parts[0]];
      assert parts == [parts[0]] + parts[1..];
    }
  }

  /** Nothing but the empty text gives an empty result. */
  lemma {:induction false} EmptyResultIff(s: Spec, text: string)
    ensures "" in ResultsOf(s, text) <==> text == ""
    decreases |text|, 1, 0
  {
    if s.allowExtra && |text| >= 2 && text[0] == '[' && text[|text| - 1] == ']' {
      NoEmptyResults(s, Split(text[1..|text| - 1], ','), |text|);
    } else if s.delimiter != '\0' && s.delimiter in text {
      NoneEmpty(Split(text, s.delimiter));
    }
  }

  lemma {:induction false} NoEmptyResults(s: Spec, parts: seq<string>, bound: nat)
    requires forall i | 0 <= i < |parts| :: |parts[i]| < bound
    ensures "" !in ResultsOfAll(s, parts, bound)
    decreases bound, 0, |parts|
  {
    if parts != [] {
      EmptyResultIff(s, parts[0]);
      NoEmptyResults(s, parts[1..], bound);
    }
  }

  lemma {:induction false} NoneEmpty(parts: seq<string>)
    ensures "" !in NonEmpty(parts)
  {
    if parts != [] { NoneEmpty(parts[1..]); }
  }

  // ---------------------------------------------------------------- who takes a text

  /** A positional that can take a text: it has fewer values than it must, or takes any number. */
  ghost predicate CanTake(app: AppSpec, st: State, k: nat)
    requires Proper(app, st) && st.line != []
  {
    && k < |app.specs| && app.specs[k].positional
    && (|st.results[k]| < app.specs[k].typeMin * app.specs[k].expectedMin || app.specs[k].allowExtra)
    && (app.cfg.validatePositionals ==> app.valid(k, st.line[0]))
  }

  /** Some positional takes a text if and only if one can; it is the first one unless required ones go first. */
  lemma SomeTakesIff(app: AppSpec, st: State)
    requires Proper(app, st) && st.line != []
    ensures SomeTakes(app, st) <==> exists k: nat :: CanTake(app, st, k)
  {
    forall k: nat ensures CanTake(app, st, k) <==> k < |app.specs| && IsOpen(app, st.results, k, st.line[0]) {}
    if SomeTakes(app, st) {
      var k: nat :| Takes(app, st, k);
      TakerCan(app, st, k);
    }
    if k: nat :| CanTake(app, st, k) { FindsTaker(app, st, k); }
  }

  lemma FindsTaker(app: AppSpec, st: State, k: nat)
    requires Proper(app, st) && st.line != [] && k < |app.specs| && IsOpen(app, st.results, k, st.line[0])
    ensures SomeTakes(app, st)
  {
    if Pressed(app, st) {
      var i: nat :| i < |app.specs| && Lacks(app, st.results, i, st.line[0]);
      var j := FindLacking(app, st, i);
      assert Takes(app, st, j);
    } else {
      var j := FindOpen(app, st, k);
      assert Takes(app, st, j);
    }
  }

  lemma {:induction false} FindLacking(app: AppSpec, st: State, k: nat) returns (j: nat)
    requires Proper(app, st) && st.line != [] && k < |app.specs| && Lacks(app, st.results, k, st.line[0])
    ensures FirstLacking(app, st.results, st.line[0], j)
  {
    j := k;
    if i: nat :| i < k && Lacks(app, st.results, i, st.line[0]) { j := FindLacking(app, st, i); }
  }

  lemma {:induction false} FindOpen(app: AppSpec, st: State, k: nat) returns (j: nat)
    requires Proper(app, st) && st.line != [] && k < |app.specs| && IsOpen(app, st.results, k, st.line[0])
    ensures FirstOpen(app, st.results, st.line[0], j)
  {
    j := k;
    if i: nat :| i < k && IsOpen(app, st.results, i, st.line[0]) { j := FindOpen(app, st, i); }
  }

  lemma TakerCan(app: AppSpec, st: State, k: nat)
    requires Proper(app, st) && st.line != [] && Takes(app, st, k)
    ensures CanTake(app, st, k)
    ensures if Pressed(app, st) then app.specs[k].required else forall j: nat | j < k :: !CanTake(app, st, j)
  {
    if !Pressed(app, st) {
      forall j: nat | j < k ensures !CanTake(app, st, j) { assert !IsOpen(app, st.results, j, st.line[0]); }
    }
  }

  /** A text that an option may take beyond its minimum: no option, and acceptable if that is to be checked. */
  ghost predicate IsExtra(app: AppSpec, k: nat, text: string) {
    Recognize(app.specs, app.cfg, text) == Unclassified && (app.cfg.validateOptional ==> app.valid(k, text))
  }

  /** The values beyond the minimum are such texts, and where more could be taken the next argument is none. */
  lemma ExtraValues(app: AppSpec, job: Job, m: nat, n: nat, ended: bool)
    requires Fits(app, job) && Gathers(app, job, m, n, ended)
    ensures forall j | m <= j < n :: IsExtra(app, job.k, job.line[j])
    ensures Count(app, job, n) < MaxNum(app.specs[job.k]) || app.specs[job.k].allowExtra ==>
              Reserved(app, job, m) < |job.line| - n ==> !IsExtra(app, job.k, job.line[n])
  {
    forall j | m <= j < n ensures IsExtra(app, job.k, job.line[j]) { assert Wants(app, job, m, j); }
  }

  // ---------------------------------------------------------------- separators

  /** Where separators are asked for, an empty result stands between what an option had and what it gets. */
  lemma SeparatedUses(app: AppSpec, st: State, u: Use)
    requires Proper(app, st) && Legit(app, st, u) && u.Positional? && app.specs[u.k].inject
    requires st.results[u.k] != [] && st.results[u.k][|st.results[u.k]| - 1] != ""
    ensures ResultsAfter(app, st, u)[u.k] == st.results[u.k] + [""] + ResultsOf(app.specs[u.k], u.text)
  {
  }

  /** An empty result closes an item that lacks values; a complete item is closed by nothing. */
  lemma ItemsClosed(app: AppSpec, k: nat, name: string, collected: nat)
    requires k < |app.specs| && MinNum(app.specs[k]) > 0 && app.specs[k].typeMax > 0
    ensures Closing(app, k, name, collected) == if collected % app.specs[k].typeMax == 0 then [] else [""]
  {
  }

  // ---------------------------------------------------------------- lines with one option

  /** The parser before the first argument. */
  ghost function Begin(app: AppSpec, line: seq<string>): (st: State)
    ensures Proper(app, st)
  {
    State(line, NoResults(app), [], false)
  }

  ghost function NoResults(app: AppSpec): (r: seq<seq<string>>)
    ensures |r| == |app.specs|
  {
    seq(|app.specs|, _ => [])
  }

  /** An option that takes exactly one value and does not split it. */
  predicate OneValue(s: Spec) {
    s.typeMin == s.typeMax == 1 && s.expectedMin == s.expectedMax == 1 && !s.allowExtra && s.delimiter == '\0'
  }

  /** Option k is the first one that the name selects. */
  ghost predicate FirstNamed(app: AppSpec, kind: Classifier, name: string, k: nat) {
    && k < |app.specs| && Selects(kind, app.specs[k].names, name)
    && forall j | 0 <= j < k :: !Selects(kind, app.specs[j].names, name)
  }

  lemma OneValueCounts(s: Spec, text: string)
    requires OneValue(s)
    ensures MinNum(s) == MaxNum(s) == 1 && ResultsOf(s, text) == [text]
  {
  }

  /** The whole line is used by one use. */
  lemma OneUseCompletes(app: AppSpec, line: seq<string>, u: Use)
    requires Legit(app, Begin(app, line), u) && Advance(app, Begin(app, line), u).line == []
    ensures Complete(app, Begin(app, line), [u])
    ensures After(app, Begin(app, line), [u]) == Advance(app, Begin(app, line), u)
  {
    assert [u] == [] + [u];
    OneMoreUse(app, Begin(app, line), [], u);
  }

  lemma NoArguments(app: AppSpec, job: Job)
    requires Fits(app, job)
    ensures Count(app, job, 0) == job.have && ResultsWith(app, job, 0) == job.results
  {
    NoneFollow(app, job);
  }

  lemma FromNothing(r: seq<string>)
    ensures [] + [] + r == r && [] + r == r && r + [] == r
  {
  }

  /** A value that comes with the name is the only one. */
  lemma GivenValue(app: AppSpec, line: seq<string>, p: Parts, k: nat, v: string)
    requires line != [] && k < |app.specs| && OneValue(app.specs[k]) && v != ""
    requires (p.value == v && p.rest == "") || (p.value == "" && p.rest == v)
    ensures LegitNamed(app, Begin(app, line), p, k, [], false)
    ensures NamedResults(app, JobOf(app, Begin(app, line), k, p), p.name, 0) == NoResults(app)[k := [v]]
  {
    var st, s := Begin(app, line), app.specs[k];
    var job := JobOf(app, st, k, p);
    OneValueCounts(s, v);
    NoArguments(app, job);
    FromNothing([v]);
    assert job.results == NoResults(app)[k := [v]] && job.have == 1;
    assert Gathers(app, job, 0, 0, false);
    assert [] == job.line[..0];
  }

  /** Without one the next argument is the value, whatever it looks like. */
  lemma FollowingValue(app: AppSpec, line: seq<string>, p: Parts, k: nat)
    requires |line| >= 2 && k < |app.specs| && OneValue(app.specs[k]) && p.value == p.rest == ""
    ensures LegitNamed(app, Begin(app, line), p, k, [line[1]], false)
    ensures NamedResults(app, JobOf(app, Begin(app, line), k, p), p.name, 1) == NoResults(app)[k := [line[1]]]
  {
    var st, s := Begin(app, line), app.specs[k];
    var job := JobOf(app, st, k, p);
    OneValueCounts(s, line[1]);
    NoArguments(app, job);
    OneMoreValue(app, job, 0);
    FromNothing([]);
    FromNothing([line[1]]);
    assert job.results == NoResults(app) && job.have == 0;
    assert job.line[0] == line[1];
    assert Gathers(app, job, 1, 1, false);
    assert [line[1]] == job.line[..1];
  }

  lemma OptionLegit(app: AppSpec, line: seq<string>, k: nat, kind: Classifier, p: Parts, values: seq<string>)
    requires line != [] && kind == Recognize(app.specs, app.cfg, line[0]) && NamesOption(kind)
    requires p == SplitArg(kind, line[0]) && FirstNamed(app, kind, p.name, k)
    requires LegitNamed(app, Begin(app, line), p, k, values, false) && RestText(app.specs[k], p) == ""
    requires |values| + 1 == |line|
    ensures
      var u := Named(k, values, false);
      && Legit(app, Begin(app, line), u)
      && Advance(app, Begin(app, line), u) ==
           State([], NamedResults(app, JobOf(app, Begin(app, line), k, p), p.name, |values|), [], false)
  {
    var st, u := Begin(app, line), Named(k, values, false);
    assert Chosen(app, kind, line[0], k);
    assert Legit(app, st, u);
    AdvanceLine(app, st, u);
    TokensLength(st, u);
    assert Back(app, st, u) + line[|line|..] == [];
  }

  /** --name=value */
  lemma LongWithValue(app: AppSpec, n: string, v: string, k: nat)
    requires n != "" && ValidFirstChar(n[0]) && '=' !in n && v != ""
    requires FirstNamed(app, LongName, n, k) && OneValue(app.specs[k])
    ensures
      var st, log := Begin(app, ["--" + n + "=" + v]), [Named(k, [], false)];
      Complete(app, st, log) && After(app, st, log) == State([], NoResults(app)[k := [v]], [], false)
  {
    var line, p := ["--" + n + "=" + v], Parts(n, v, "");
    LongArg(n, v);
    GivenValue(app, line, p, k, v);
    OptionLegit(app, line, k, LongName, p, []);
    OneUseCompletes(app, line, Named(k, [], false));
  }

  /** --name value */
  lemma LongThenValue(app: AppSpec, n: string, v: string, k: nat)
    requires n != "" && ValidFirstChar(n[0]) && '=' !in n
    requires FirstNamed(app, LongName, n, k) && OneValue(app.specs[k])
    ensures
      var st, log := Begin(app, ["--" + n, v]), [Named(k, [v], false)];
      Complete(app, st, log) && After(app, st, log) == State([], NoResults(app)[k := [v]], [], false)
  {
    var line, p := ["--" + n, v], Parts(n, "", "");
    BareLongArg(n);
    FollowingValue(app, line, p, k);
    OptionLegit(app, line, k, LongName, p, [v]);
    OneUseCompletes(app, line, Named(k, [v], false));
  }

  /** -cvalue */
  lemma ShortWithValue(app: AppSpec, c: char, v: string, k: nat)
    requires ValidFirstChar(c) && v != "" && FirstNamed(app, ShortName, [c], k) && OneValue(app.specs[k])
    ensures
      var st, log := Begin(app, ["-" + [c] + v]), [Named(k, [], false)];
      Complete(app, st, log) && After(app, st, log) == State([], NoResults(app)[k := [v]], [], false)
  {
    var line, p := ["-" + [c] + v], Parts([c], "", v);
    ShortArg(c, v);
    GivenValue(app, line, p, k, v);
    ShortRecognized(app, c, v, k);
    OptionLegit(app, line, k, ShortName, p, []);
    OneUseCompletes(app, line, Named(k, [], false));
  }

  lemma ShortRecognized(app: AppSpec, c: char, v: string, k: nat)
    requires ValidFirstChar(c) && FirstNamed(app, ShortName, [c], k)
    ensures Recognize(app.specs, app.cfg, "-" + [c] + v) == ShortName
  {
    var arg := "-" + [c] + v;
    assert arg[0] == '-' && arg[1] == c && c != '-';
    assert CheckSname(app.specs[k].names, [arg[1]]);
  }

  // ---------------------------------------------------------------- clusters of flags

  /** An option without values. */
  predicate IsFlag(s: Spec) { MinNum(s) == MaxNum(s) == 0 && !s.allowExtra && s.delimiter == '\0' }

  /** A flag in front of a cluster gets its value, and the rest of the cluster comes next, in every state. */
  lemma ClusterStep(app: AppSpec, st: State, c: char, rest: string, k: nat, t: string)
    requires Proper(app, st) && !st.positionalOnly && st.line != [] && st.line[0] == "-" + [c] + rest && rest != ""
    requires ValidFirstChar(c) && FirstNamed(app, ShortName, [c], k) && IsFlag(app.specs[k])
    requires app.flagValue(k, [c], "") == Some(t)
    ensures
      var u, had := Named(k, [], false), st.results[k];
      && Legit(app, st, u)
      && Advance(app, st, u) ==
           st.(line := ["-" + rest] + st.line[1..],
               results := st.results[k := had + Separator(app.specs[k], had) + [t]])
  {
    var p, u := Parts([c], "", rest), Named(k, [], false);
    ShortArg(c, rest);
    ShortRecognized(app, c, rest, k);
    FlagLegit(app, st, p, k, t);
    assert Chosen(app, ShortName, st.line[0], k);
    assert Legit(app, st, u);
    AdvanceLine(app, st, u);
    TokensLength(st, u);
  }

  lemma FlagLegit(app: AppSpec, st: State, p: Parts, k: nat, t: string)
    requires Proper(app, st) && st.line != [] && k < |app.specs| && IsFlag(app.specs[k]) && p.value == ""
    requires app.flagValue(k, p.name, "") == Some(t)
    ensures LegitNamed(app, st, p, k, [], false)
    ensures
      var had := st.results[k];
      NamedResults(app, JobOf(app, st, k, p), p.name, 0) ==
        st.results[k := had + Separator(app.specs[k], had) + [t]]
  {
    var job := JobOf(app, st, k, p);
    NoArguments(app, job);
    assert ResultsOf(app.specs[k], t) == [t];
    assert Gathers(app, job, 0, 0, false);
    assert [] == job.line[..0];
    FromNothing(job.results[k]);
  }

  // ---------------------------------------------------------------- positionals

  /** A positional that takes any number of values as they are. */
  predicate TakesAll(s: Spec) { s.positional && s.allowExtra && !s.inject && s.delimiter == '\0' }

  predicate NotBracketed(text: string) { !(|text| >= 2 && text[0] == '[' && text[|text| - 1] == ']') }

  /** Option k is the only positional. */
  ghost predicate OnlyPositional(app: AppSpec, k: nat) {
    && k < |app.specs| && TakesAll(app.specs[k]) && !app.cfg.validatePositionals && !app.cfg.positionalsAtEnd
    && forall j | 0 <= j < |app.specs| && j != k :: !app.specs[j].positional
  }

  lemma PositionalStep(app: AppSpec, st: State, k: nat)
    requires Proper(app, st) && st.line != [] && OnlyPositional(app, k) && NotBracketed(st.line[0])
    requires KindOf(app, st) == Unclassified
    ensures
      var u := Positional(k, st.line[0]);
      && Legit(app, st, u)
      && Advance(app, st, u) == st.(line := st.line[1..], results := st.results[k := st.results[k] + [st.line[0]]])
  {
    var u := Positional(k, st.line[0]);
    assert FirstOpen(app, st.results, st.line[0], k);
    assert Takes(app, st, k);
    assert Legit(app, st, u);
    AdvanceLine(app, st, u);
    assert st.results[k] + [] == st.results[k];
  }

  /** The state when the first n of the texts have gone to option k. */
  ghost function Filled(st: State, k: nat, n: nat): State
    requires k < |st.results| && n <= |st.line|
  {
    st.(line := st.line[n..], results := st.results[k := st.results[k] + st.line[..n]])
  }

  /** Behind a mark, or where no text looks like an option, all texts go to the positional, in order. */
  lemma {:induction false} PositionalsFill(app: AppSpec, st: State, k: nat, n: nat) returns (log: seq<Use>)
    requires Proper(app, st) && OnlyPositional(app, k) && n <= |st.line|
    requires AllTexts(app, st)
    ensures Accounts(app, st, log) && After(app, st, log) == Filled(st, k, n)
  {
    if n == 0 {
      log := [];
      NothingFilled(app, st, k);
    } else {
      var front := PositionalsFill(app, st, k, n - 1);
      var u := FilledStep(app, st, k, n - 1);
      log := FilledMore(app, st, k, n - 1, front, u);
    }
  }

  /** A text that is a positional in this state, and stored as it is. */
  predicate IsText(app: AppSpec, st: State, text: string) {
    NotBracketed(text) && (st.positionalOnly || Recognize(app.specs, app.cfg, text) == Unclassified)
  }

  ghost predicate AllTexts(app: AppSpec, st: State) { forall i | 0 <= i < |st.line| :: IsText(app, st, st.line[i]) }

  lemma NothingFilled(app: AppSpec, st: State, k: nat)
    requires Proper(app, st) && k < |app.specs|
    ensures Accounts(app, st, []) && After(app, st, []) == Filled(st, k, 0)
  {
    assert st.line[0..] == st.line && st.results[k] + st.line[..0] == st.results[k];
  }

  lemma {:induction false} FilledMore(app: AppSpec, st: State, k: nat, n: nat, front: seq<Use>, u: Use)
    returns (log: seq<Use>)
    requires Proper(app, st) && k < |app.specs| && n < |st.line|
    requires Accounts(app, st, front) && After(app, st, front) == Filled(st, k, n)
    requires Legit(app, Filled(st, k, n), u) && Advance(app, Filled(st, k, n), u) == Filled(st, k, n + 1)
    ensures Accounts(app, st, log) && After(app, st, log) == Filled(st, k, n + 1)
  {
    log := front + [u];
    OneMoreUse(app, st, front, u);
  }

  lemma FilledStep(app: AppSpec, st: State, k: nat, n: nat) returns (u: Use)
    requires Proper(app, st) && OnlyPositional(app, k) && n < |st.line| && IsText(app, st, st.line[n])
    ensures Proper(app, Filled(st, k, n)) && Legit(app, Filled(st, k, n), u)
    ensures Advance(app, Filled(st, k, n), u) == Filled(st, k, n + 1)
  {
    var t := Filled(st, k, n);
    assert t.line[0] == st.line[n] && t.line[1..] == st.line[n + 1..];
    PositionalStep(app, t, k);
    u := Positional(k, t.line[0]);
    assert st.results[k] + st.line[..n] + [st.line[n]] == st.results[k] + st.line[..n + 1];
  }

  /** -- texts: whatever the texts look like, they go to the positional. */
  lemma MarkThenTexts(app: AppSpec, texts: seq<string>, k: nat) returns (log: seq<Use>)
    requires OnlyPositional(app, k) && forall i | 0 <= i < |texts| :: NotBracketed(texts[i])
    ensures
      var st := Begin(app, ["--"] + texts);
      Complete(app, st, log) && After(app, st, log) == State([], NoResults(app)[k := texts], ["--"], true)
  {
    var st := Begin(app, ["--"] + texts);
    var t := State(texts, NoResults(app), ["--"], true);
    assert Legit(app, st, Mark) && Advance(app, st, Mark) == t by {
      AdvanceLine(app, st, Mark);
      assert [] + st.line[1..] == texts;
    }
    var rest := PositionalsFill(app, t, k, |texts|);
    log := [Mark] + rest;
    UsesAfter(app, st, Mark, rest);
    FromNothing(texts);
    assert t.line[|texts|..] == [] && t.line[..|texts|] == texts;
  }

  /** A use and then the uses of the state that it leads to. */
  lemma {:induction false} UsesAfter(app: AppSpec, st: State, u: Use, log: seq<Use>)
    requires Proper(app, st) && Legit(app, st, u) && Accounts(app, Advance(app, st, u), log)
    ensures Accounts(app, st, [u] + log) && After(app, st, [u] + log) == After(app, Advance(app, st, u), log)
    decreases |log|
  {
    if log == [] {
      assert [u] + log == [] + [u];
      OneMoreUse(app, st, [], u);
    } else {
      var front, last := log[..|log| - 1], log[|log| - 1];
      LastUse(app, Advance(app, st, u), log);
      UsesAfter(app, st, u, front);
      OneMoreUse(app, st, [u] + front, last);
      FrontAndLast(u, log);
    }
  }

  lemma {:induction false} LastUse(app: AppSpec, st: State, log: seq<Use>)
    requires Proper(app, st) && Accounts(app, st, log) && log != []
    ensures
      var front, last := log[..|log| - 1], log[|log| - 1];
      && Accounts(app, st, front) && Legit(app, After(app, st, front), last)
      && After(app, st, log) == Advance(app, After(app, st, front), last)
  {
  }

  lemma FrontAndLast(u: Use, log: seq<Use>)
    requires log != []
    ensures [u] + log == [u] + log[..|log| - 1] + [log[|log| - 1]]
  {
  }

  // ---------------------------------------------------------------- the loop on such lines

  /** A log that uses up the whole line is what the loop does. */
  lemma LoopDoes(app: AppSpec, st: State, ok: bool, log: seq<Use>, known: seq<Use>)
    requires Proper(app, st) && (ok <==> exists log' :: Complete(app, st, log')) && Complete(app, st, known)
    requires ok ==> Complete(app, st, log)
    ensures ok && log == known
  {
    CompleteOnce(app, st, log, known);
  }

  /** Running the loop on --name=value leaves exactly that value. */
  method RunLong(app: AppSpec, n: string, v: string, k: nat)
    returns (ok: bool, results: seq<seq<string>>, missing: seq<string>)
    requires Sized(app) && n != "" && ValidFirstChar(n[0]) && '=' !in n && v != ""
    requires FirstNamed(app, LongName, n, k) && OneValue(app.specs[k])
    ensures ok && missing == [] && |results| == |app.specs| && results[k] == [v]
    ensures forall j | 0 <= j < |app.specs| && j != k :: results[j] == []
  {
    var arg := "--" + n + "=" + v;
    var parser := new Parser(app, [arg]);
    assert parser.Line() == [arg];
    ghost var log;
    ok, log := parser.Parse();
    LongWithValue(app, n, v, k);
    LoopDoes(app, Begin(app, [arg]), ok, log, [Named(k, [], false)]);
    results, missing := parser.results, parser.missing;
  }
}
