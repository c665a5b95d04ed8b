/**
  The loop that consumes the command line, for an App without subcommands.
 */
module CliArgs {
  import opened CliText
  import opened CliOptions
  import opened CliOverflow
  import opened Common

  /** What the parser knows of an option. */
  datatype Spec = Spec(names: Opt, positional: bool, required: bool, typeMin: nat, typeMax: nat,
                       expectedMin: nat, expectedMax: nat, allowExtra: bool, inject: bool, delimiter: char)

  datatype Settings = Settings(windows: bool, prefixCommand: bool, positionalsAtEnd: bool,
                               validatePositionals: bool, validateOptional: bool)

  const EXPECTED_MAX_VECTOR_SIZE := 0x2000_0000
  const INT := Signed(0x8000_0000)

  function ItemsMin(s: Spec): (r: int) { s.typeMin * s.expectedMin }

  /** A product of counts, or the largest vector size if it does not fit. */
  function Items(a: int, b: int): (r: int) { if INT.Fits(a * b) then a * b else EXPECTED_MAX_VECTOR_SIZE }

  /** How many values an option takes at least. */
  function MinNum(s: Spec): (r: int)
    ensures r <= s.typeMin
  {
    if s.typeMin < ItemsMin(s) then s.typeMin else ItemsMin(s)
  }

  /** How many values an option takes at most. */
  function MaxNum(s: Spec): (r: int) {
    var most := Items(s.typeMax, s.expectedMax);
    if most >= EXPECTED_MAX_VECTOR_SIZE / 16 && !s.allowExtra then Items(s.typeMax, s.expectedMin) else most
  }

  // ---------------------------------------------------------------- classifying an argument

  datatype Classifier = Unclassified | PositionalMark | LongName | ShortName | WindowsStyle

  predicate NamesOption(c: Classifier) { c == LongName || c == ShortName || c == WindowsStyle }

  predicate ValidFirstChar(c: char) { c != '-' && c != '!' && c != ' ' && c != '\n' }

  predicate IsLong(arg: string) { |arg| > 2 && arg[..2] == "--" && ValidFirstChar(arg[2]) }

  predicate IsShort(arg: string) { |arg| > 1 && arg[0] == '-' && ValidFirstChar(arg[1]) }

  predicate IsWindows(arg: string) { |arg| > 1 && arg[0] == '/' && ValidFirstChar(arg[1]) }

  /** A digit is a short name only if there is an option of that name. */
  function Recognize(specs: seq<Spec>, cfg: Settings, arg: string): (c: Classifier)
    ensures NamesOption(c) ==> |arg| >= 2
  {
    if arg == "--" then PositionalMark
    else if IsLong(arg) then LongName
    else if IsShort(arg) then
      if '0' <= arg[1] <= '9' && !exists k | 0 <= k < |specs| :: CheckSname(specs[k].names, [arg[1]]) then Unclassified
      else ShortName
    else if cfg.windows && IsWindows(arg) then WindowsStyle
    else Unclassified
  }

  /** An option's name, the value given with it, and what is left of a cluster of short names. */
  datatype Parts = Parts(name: string, value: string, rest: string)

  function SplitAt(text: string, c: char): (p: Parts) {
    var i := Find(text, c);
    if i < |text| then Parts(text[..i], text[i + 1..], "") else Parts(text, "", "")
  }

  function SplitArg(c: Classifier, arg: string): (p: Parts)
    requires |arg| >= 2
    ensures p.rest != "" ==> c == ShortName && p.rest == arg[2..]
  {
    match c
    case LongName => SplitAt(arg[2..], '=')
    case ShortName => Parts([arg[1]], "", arg[2..])
    case _ => SplitAt(arg[1..], ':')
  }

  predicate Selects(c: Classifier, o: Opt, name: string) {
    match c
    case LongName => CheckLname(o, name)
    case ShortName => CheckSname(o, name)
    case _ => CheckLname(o, name) || CheckSname(o, name)
  }

  // ---------------------------------------------------------------- results

  function NonEmpty(parts: seq<string>): (r: seq<string>) {
    if parts == [] then [] else (if parts[0] == "" then [] else [parts[0]]) + NonEmpty(parts[1..])
  }

  /** The results that one text adds: a bracketed list its members, a delimited text its parts. */
  function ResultsOf(s: Spec, text: string): (r: seq<string>)
    decreases |text|, 1, 0
  {
    if s.allowExtra && |text| >= 2 && text[0] == '[' && text[|text| - 1] == ']' then
      ResultsOfAll(s, Split(text[1..|text| - 1], ','), |text|)
    else if s.delimiter != '\0' && s.delimiter in text then NonEmpty(Split(text, s.delimiter))
    else [text]
  }

  function ResultsOfAll(s: Spec, parts: seq<string>, bound: nat): (r: seq<string>)
    requires forall i | 0 <= i < |parts| :: |parts[i]| < bound
    decreases bound, 0, |parts|
  {
    if parts == [] then []
    else (if parts[0] == "" then [] else ResultsOf(s, parts[0])) + ResultsOfAll(s, parts[1..], bound)
  }

  function Missing(s: Spec, count: nat): (r: nat) {
    if s.positional && s.required && ItemsMin(s) > count then ItemsMin(s) - count else 0
  }

  /** The number of values that required positionals still need. */
  function RemainingRequired(specs: seq<Spec>, results: seq<seq<string>>): (r: nat)
    requires |specs| == |results|
  {
    if specs == [] then 0 else Missing(specs[0], |results[0]|) + RemainingRequired(specs[1..], results[1..])
  }

  /** An App without subcommands. */
  datatype AppSpec = AppSpec(
    specs: seq<Spec>,
    cfg: Settings,
    // whether an option's validators accept a text
    valid: (nat, string) -> bool,
    // the value of a flag for its name and the value given with it, unless that is refused
    flagValue: (nat, string, string) -> Option<string>)

  ghost predicate Sized(app: AppSpec) {
    forall k | 0 <= k < |app.specs| :: app.specs[k].typeMin <= app.specs[k].typeMax
  }

  /** What separates new results from those that an option has already. */
  function Separator(s: Spec, have: seq<string>): (r: seq<string>) {
    if s.inject && have != [] && have[|have| - 1] != "" then ResultsOf(s, "") else []
  }

  function FlagResults(app: AppSpec, k: nat, name: string, value: string): (r: seq<string>)
    requires k < |app.specs|
  {
    match app.flagValue(k, name, value)
    case None => []
    case Some(text) => ResultsOf(app.specs[k], text)
  }

  /** The results that come with the name of option k. */
  function GivenResults(app: AppSpec, k: nat, p: Parts): (r: seq<string>)
    requires k < |app.specs|
  {
    var s := app.specs[k];
    if MaxNum(s) == 0 then FlagResults(app, k, p.name, p.value)
    else if p.value != "" then ResultsOf(s, p.value)
    else if p.rest != "" then ResultsOf(s, p.rest)
    else []
  }

  /** How many of them are values. */
  function GivenCount(app: AppSpec, k: nat, p: Parts): (n: nat)
    requires k < |app.specs|
  {
    if MaxNum(app.specs[k]) == 0 then 0 else |GivenResults(app, k, p)|
  }

  /** What is left of a cluster when its first name is a flag; otherwise the rest is a value. */
  function RestText(s: Spec, p: Parts): (r: string) { if MaxNum(s) == 0 || p.value != "" then p.rest else "" }

  function AllResults(s: Spec, values: seq<string>): (r: seq<string>) {
    if values == [] then [] else AllResults(s, values[..|values| - 1]) + ResultsOf(s, values[|values| - 1])
  }

  lemma AllResultsMore(s: Spec, values: seq<string>, v: string)
    ensures AllResults(s, values + [v]) == AllResults(s, values) + ResultsOf(s, v)
  {
    assert (values + [v])[..|values|] == values;
  }

  /** What is added at the end: the value of a flag that got none, or an empty result for a type that is incomplete. */
  function Closing(app: AppSpec, k: nat, name: string, collected: nat): (r: seq<string>)
    requires k < |app.specs|
  {
    var s := app.specs[k];
    if MinNum(s) == 0 && MaxNum(s) > 0 && collected == 0 then FlagResults(app, k, name, "")
    else if MinNum(s) > 0 && s.typeMax > 0 && collected % s.typeMax != 0 then ResultsOf(s, "")
    else []
  }

  // ---------------------------------------------------------------- positionals

  /** The parser between two arguments: those to come, in order, and what options and the App have got. */
  datatype State = State(line: seq<string>, results: seq<seq<string>>, missing: seq<string>, positionalOnly: bool)

  ghost predicate Proper(app: AppSpec, st: State) { |st.results| == |app.specs| }

  predicate Accepts(app: AppSpec, k: nat, text: string) { !app.cfg.validatePositionals || app.valid(k, text) }

  /** Option k is a required positional that lacks values and accepts the text. */
  predicate Lacks(app: AppSpec, results: seq<seq<string>>, k: nat, text: string)
    requires k < |app.specs| == |results|
  {
    var s := app.specs[k];
    s.positional && s.required && |results[k]| < ItemsMin(s) && Accepts(app, k, text)
  }

  /** Option k is a positional that can have more values and accepts the text. */
  predicate IsOpen(app: AppSpec, results: seq<seq<string>>, k: nat, text: string)
    requires k < |app.specs| == |results|
  {
    var s := app.specs[k];
    s.positional && (|results[k]| < ItemsMin(s) || s.allowExtra) && Accepts(app, k, text)
  }

  ghost predicate FirstLacking(app: AppSpec, results: seq<seq<string>>, text: string, k: nat)
    requires |app.specs| == |results|
  {
    k < |app.specs| && Lacks(app, results, k, text) && forall j | 0 <= j < k :: !Lacks(app, results, j, text)
  }

  ghost predicate FirstOpen(app: AppSpec, results: seq<seq<string>>, text: string, k: nat)
    requires |app.specs| == |results|
  {
    k < |app.specs| && IsOpen(app, results, k, text) && forall j | 0 <= j < k :: !IsOpen(app, results, j, text)
  }

  /** Positionals come at the end, required ones need all that is left, and one of them accepts the next argument. */
  ghost predicate Pressed(app: AppSpec, st: State)
    requires Proper(app, st) && st.line != []
  {
    && app.cfg.positionalsAtEnd && |st.line| <= RemainingRequired(app.specs, st.results)
    && exists k | 0 <= k < |app.specs| :: Lacks(app, st.results, k, st.line[0])
  }

  /** Option k takes the next argument by its position. */
  ghost predicate Takes(app: AppSpec, st: State, k: nat)
    requires Proper(app, st) && st.line != []
  {
    if Pressed(app, st) then FirstLacking(app, st.results, st.line[0], k)
    else FirstOpen(app, st.results, st.line[0], k)
  }

  ghost predicate SomeTakes(app: AppSpec, st: State)
    requires Proper(app, st) && st.line != []
  {
    exists k: nat :: Takes(app, st, k)
  }

  // ---------------------------------------------------------------- options

  /** Option k is the first one that the argument's name selects. */
  ghost predicate Chosen(app: AppSpec, kind: Classifier, arg: string, k: nat)
    requires |arg| >= 2
  {
    var name := SplitArg(kind, arg).name;
    k < |app.specs| && Selects(kind, app.specs[k].names, name) &&
      forall j | 0 <= j < k :: !Selects(kind, app.specs[j].names, name)
  }

  ghost predicate SomeChosen(app: AppSpec, kind: Classifier, arg: string)
    requires |arg| >= 2
  {
    exists k: nat :: Chosen(app, kind, arg, k)
  }

  /** Option k when its name has been read: how many values came with it, all results so far, and what follows. */
  datatype Job = Job(k: nat, have: nat, results: seq<seq<string>>, line: seq<string>)

  ghost predicate Fits(app: AppSpec, job: Job) { job.k < |app.specs| == |job.results| }

  ghost function JobOf(app: AppSpec, st: State, k: nat, p: Parts): (job: Job)
    requires Proper(app, st) && st.line != [] && k < |app.specs|
    ensures Fits(app, job)
  {
    var had := st.results[k];
    Job(k, GivenCount(app, k, p), st.results[k := had + Separator(app.specs[k], had) + GivenResults(app, k, p)],
        st.line[1..])
  }

  /** How many values the option has with the first n of the arguments that follow. */
  ghost function Count(app: AppSpec, job: Job, n: nat): nat
    requires Fits(app, job) && n <= |job.line|
  {
    job.have + |AllResults(app.specs[job.k], job.line[..n])|
  }

  /** All results with them. */
  ghost function ResultsWith(app: AppSpec, job: Job, n: nat): (r: seq<seq<string>>)
    requires Fits(app, job) && n <= |job.line|
    ensures |r| == |app.specs|
  {
    job.results[job.k := job.results[job.k] + AllResults(app.specs[job.k], job.line[..n])]
  }

  /** m is the smallest number of arguments that gives the option as many values as it needs. */
  ghost predicate Least(app: AppSpec, job: Job, m: nat)
    requires Fits(app, job)
  {
    && m <= |job.line| && Count(app, job, m) >= MinNum(app.specs[job.k])
    && forall j | 0 <= j < m :: Count(app, job, j) < MinNum(app.specs[job.k])
  }

  ghost predicate TooFew(app: AppSpec, job: Job)
    requires Fits(app, job)
  {
    forall j | 0 <= j <= |job.line| :: Count(app, job, j) < MinNum(app.specs[job.k])
  }

  /** A text that is no option, and valid for option k. */
  predicate IsValue(app: AppSpec, k: nat, text: string) {
    Recognize(app.specs, app.cfg, text) == Unclassified && (!app.cfg.validateOptional || app.valid(k, text))
  }

  /** How many arguments the required positionals need once the option has its minimum. */
  ghost function Reserved(app: AppSpec, job: Job, m: nat): nat
    requires Fits(app, job) && m <= |job.line|
  {
    RemainingRequired(app.specs, ResultsWith(app, job, m))
  }

  /**
    With m arguments for the minimum, the option wants argument j as well: it can have more values, the argument
    is one, and the required positionals have enough without it.
   */
  ghost predicate Wants(app: AppSpec, job: Job, m: nat, j: nat)
    requires Fits(app, job) && m <= |job.line|
  {
    && j < |job.line|
    && (Count(app, job, j) < MaxNum(app.specs[job.k]) || app.specs[job.k].allowExtra)
    && Reserved(app, job, m) < |job.line| - j
    && IsValue(app, job.k, job.line[j])
  }

  ghost predicate WantsAll(app: AppSpec, job: Job, m: nat, n: nat)
    requires Fits(app, job)
  {
    m <= n <= |job.line| && forall j | m <= j < n :: Wants(app, job, m, j)
  }

  /**
    The option takes n of the arguments that follow: the m for its minimum and the longest run of wanted ones
    behind them.  If it could have more values, a mark behind them is taken as their end.
   */
  ghost predicate Gathers(app: AppSpec, job: Job, m: nat, n: nat, ended: bool)
    requires Fits(app, job)
  {
    && Least(app, job, m) && m <= n <= |job.line|
    && if Count(app, job, m) < MaxNum(app.specs[job.k]) || app.specs[job.k].allowExtra then
         && WantsAll(app, job, m, n) && !Wants(app, job, m, n)
         && (ended <==> n < |job.line| && job.line[n] == "--")
       else
         n == m && !ended
  }

  /** The value given to a flag is refused. */
  predicate FlagRefused(app: AppSpec, k: nat, p: Parts)
    requires k < |app.specs|
  {
    MaxNum(app.specs[k]) == 0 && app.flagValue(k, p.name, p.value).None?
  }

  /** The values cannot be closed: a flag without a value is refused, or a type of fixed size is incomplete. */
  predicate CloseRefused(app: AppSpec, k: nat, name: string, collected: nat)
    requires k < |app.specs|
  {
    var s := app.specs[k];
    || (MinNum(s) == 0 && MaxNum(s) > 0 && collected == 0 && app.flagValue(k, name, "").None?)
    || (MinNum(s) > 0 && s.typeMax > 0 && collected % s.typeMax != 0 && s.typeMax == s.typeMin)
  }

  ghost predicate NamedRefused(app: AppSpec, job: Job, p: Parts)
    requires Fits(app, job)
  {
    || FlagRefused(app, job.k, p)
    || TooFew(app, job)
    || exists m: nat, n: nat, ended: bool ::
         Gathers(app, job, m, n, ended) && CloseRefused(app, job.k, p.name, Count(app, job, n))
  }

  // ---------------------------------------------------------------- uses of arguments

  /** What the next arguments are used for. */
  datatype Use =
    | Missed(texts: seq<string>)
    | Mark
    | Positional(k: nat, text: string)
    | Named(k: nat, values: seq<string>, ended: bool)

  /** How the next argument is read. */
  function KindOf(app: AppSpec, st: State): (c: Classifier)
    requires st.line != []
    ensures NamesOption(c) ==> |st.line[0]| >= 2
  {
    if st.positionalOnly then Unclassified else Recognize(app.specs, app.cfg, st.line[0])
  }

  ghost predicate LegitNamed(app: AppSpec, st: State, p: Parts, k: nat, values: seq<string>, ended: bool)
    requires Proper(app, st) && st.line != [] && k < |app.specs|
  {
    var job, n := JobOf(app, st, k, p), |values|;
    && !FlagRefused(app, k, p)
    && n <= |job.line| && values == job.line[..n]
    && (exists m: nat :: Gathers(app, job, m, n, ended))
    && !CloseRefused(app, k, p.name, Count(app, job, n))
  }

  /** The use that the parser makes of the next arguments. */
  ghost predicate Legit(app: AppSpec, st: State, u: Use)
    requires Proper(app, st)
  {
    st.line != [] &&
    match KindOf(app, st)
    case PositionalMark => u == Mark
    case Unclassified =>
      if SomeTakes(app, st) then u.Positional? && u.text == st.line[0] && Takes(app, st, u.k)
      else !app.cfg.positionalsAtEnd && u == Missed(if app.cfg.prefixCommand then st.line else [st.line[0]])
    case kind =>
      if SomeChosen(app, kind, st.line[0]) then
        && u.Named? && Chosen(app, kind, st.line[0], u.k)
        && LegitNamed(app, st, SplitArg(kind, st.line[0]), u.k, u.values, u.ended)
      else
        u == Missed([st.line[0]])
  }

  /** The parser throws: no positional can have an argument that must be one, or an option cannot be used. */
  ghost predicate Refuses(app: AppSpec, st: State)
    requires Proper(app, st)
  {
    st.line != [] &&
    match KindOf(app, st)
    case PositionalMark => false
    case Unclassified => app.cfg.positionalsAtEnd && !SomeTakes(app, st)
    case kind =>
      exists k: nat :: Chosen(app, kind, st.line[0], k) &&
        var p := SplitArg(kind, st.line[0]); NamedRefused(app, JobOf(app, st, k, p), p)
  }

  /** The arguments that are used up, in their order. */
  ghost function Tokens(st: State, u: Use): seq<string>
    requires st.line != []
  {
    match u
    case Missed(texts) => texts
    case Mark => ["--"]
    case Positional(_, text) => [text]
    case Named(_, values, ended) => [st.line[0]] + values + if ended then ["--"] else []
  }

  /** What is put back: the rest of a cluster whose first name is a flag. */
  ghost function Back(app: AppSpec, st: State, u: Use): seq<string>
    requires Proper(app, st) && Legit(app, st, u)
  {
    if !u.Named? then []
    else
      var rest := RestText(app.specs[u.k], SplitArg(KindOf(app, st), st.line[0]));
      if rest == "" then [] else ["-" + rest]
  }

  /** The results of option k once n of the arguments that follow its name are its values. */
  ghost function NamedResults(app: AppSpec, job: Job, name: string, n: nat): (r: seq<seq<string>>)
    requires Fits(app, job) && n <= |job.line|
    ensures |r| == |app.specs|
  {
    var r := ResultsWith(app, job, n);
    r[job.k := r[job.k] + Closing(app, job.k, name, Count(app, job, n))]
  }

  ghost function ResultsAfter(app: AppSpec, st: State, u: Use): (r: seq<seq<string>>)
    requires Proper(app, st) && Legit(app, st, u)
    ensures |r| == |app.specs|
  {
    match u
    case Missed(_) => st.results
    case Mark => st.results
    case Positional(k, text) =>
      var had := st.results[k];
      st.results[k := had + Separator(app.specs[k], had) + ResultsOf(app.specs[k], text)]
    case Named(k, values, _) =>
      var p := SplitArg(KindOf(app, st), st.line[0]);
      NamedResults(app, JobOf(app, st, k, p), p.name, |values|)
  }

  ghost function MissingAfter(st: State, u: Use): seq<string> {
    match u
    case Missed(texts) => st.missing + texts
    case Mark => st.missing + ["--"]
    case _ => st.missing
  }

  /** The arguments that the use takes are the next ones. */
  lemma TakesNext(app: AppSpec, st: State, u: Use)
    requires Proper(app, st) && Legit(app, st, u)
    ensures Tokens(st, u) != [] && Tokens(st, u) <= st.line
  {
    if u.Named? {
      var m := GatheredBy(app, st, u);
      NamedTokens(st.line, |u.values|, u.ended);
    }
  }

  lemma GatheredBy(app: AppSpec, st: State, u: Use) returns (m: nat)
    requires Proper(app, st) && Legit(app, st, u) && u.Named?
    ensures
      var job := JobOf(app, st, u.k, SplitArg(KindOf(app, st), st.line[0]));
      |u.values| <= |job.line| && u.values == job.line[..|u.values|] && Gathers(app, job, m, |u.values|, u.ended)
  {
    var job := JobOf(app, st, u.k, SplitArg(KindOf(app, st), st.line[0]));
    m :| Gathers(app, job, m, |u.values|, u.ended);
  }

  lemma NamedTokens(line: seq<string>, n: nat, ended: bool)
    requires line != [] && n < |line| && (ended ==> n + 1 < |line| && line[n + 1] == "--")
    ensures [line[0]] + line[1..][..n] + (if ended then ["--"] else []) <= line
  {
    assert [line[0]] + line[1..][..n] == line[..n + 1];
    if ended { assert line[..n + 1] + ["--"] == line[..n + 2]; }
  }

  /** The parser after the use. */
  ghost function Advance(app: AppSpec, st: State, u: Use): (r: State)
    requires Proper(app, st) && Legit(app, st, u)
    ensures Proper(app, r)
  {
    TakesNext(app, st, u);
    State(Back(app, st, u) + st.line[|Tokens(st, u)|..], ResultsAfter(app, st, u), MissingAfter(st, u),
          st.positionalOnly || u.Mark? || (u.Positional? && app.cfg.positionalsAtEnd))
  }

  // ---------------------------------------------------------------- the measure

  /** The number of arguments and of their characters. */
  function Size(line: seq<string>): (n: nat) {
    if line == [] then 0 else |line[0]| + 1 + Size(line[1..])
  }

  lemma {:induction false} SizeDrop(line: seq<string>, n: nat)
    requires n <= |line|
    ensures Size(line[n..]) <= Size(line)
    decreases |line|
  {
    if n > 0 {
      SizeDrop(line[1..], n - 1);
      assert line[1..][n - 1..] == line[n..];
    }
  }

  /** Every use leaves less, also when the rest of a cluster is put back. */
  lemma TakesShrinks(app: AppSpec, st: State, u: Use)
    requires Proper(app, st) && Legit(app, st, u)
    ensures Size(Advance(app, st, u).line) < Size(st.line)
  {
    TakesNext(app, st, u);
    var n, back := |Tokens(st, u)|, Back(app, st, u);
    SizeDrop(st.line[1..], n - 1);
    assert st.line[1..][n - 1..] == st.line[n..];
    if back == [] {
      assert back + st.line[n..] == st.line[n..];
    } else {
      assert (back + st.line[n..])[1..] == st.line[n..];
    }
  }

  // ---------------------------------------------------------------- one use or a refusal

  /** The number of arguments that an option takes is determined. */
  lemma GathersOnce(app: AppSpec, job: Job, m: nat, n: nat, ended: bool, m': nat, n': nat, ended': bool)
    requires Fits(app, job) && Gathers(app, job, m, n, ended) && Gathers(app, job, m', n', ended')
    ensures m == m' && n == n' && ended == ended'
  {
    LeastNotAbove(app, job, m, m');
    LeastNotAbove(app, job, m', m);
    NoLongerRun(app, job, m, n, ended, n', ended');
    NoLongerRun(app, job, m, n', ended', n, ended);
  }

  lemma LeastNotAbove(app: AppSpec, job: Job, m: nat, m': nat)
    requires Fits(app, job) && Least(app, job, m) && Least(app, job, m')
    ensures m <= m'
  {
  }

  lemma NoLongerRun(app: AppSpec, job: Job, m: nat, n: nat, ended: bool, n': nat, ended': bool)
    requires Fits(app, job) && Gathers(app, job, m, n, ended) && Gathers(app, job, m, n', ended')
    ensures n' <= n
  {
  }

  lemma TakesOnce(app: AppSpec, st: State, k: nat, k': nat)
    requires Proper(app, st) && st.line != [] && Takes(app, st, k) && Takes(app, st, k')
    ensures k == k'
  {
  }

  lemma ChosenOnce(app: AppSpec, kind: Classifier, arg: string, k: nat, k': nat)
    requires |arg| >= 2 && Chosen(app, kind, arg, k) && Chosen(app, kind, arg, k')
    ensures k == k'
  {
  }

  lemma NamedOnce(app: AppSpec, st: State, p: Parts, k: nat, values: seq<string>, ended: bool,
                  values': seq<string>, ended': bool)
    requires Proper(app, st) && st.line != [] && k < |app.specs|
    requires LegitNamed(app, st, p, k, values, ended) && LegitNamed(app, st, p, k, values', ended')
    ensures values == values' && ended == ended'
  {
    var job := JobOf(app, st, k, p);
    var m: nat :| Gathers(app, job, m, |values|, ended);
    var m': nat :| Gathers(app, job, m', |values'|, ended');
    GathersOnce(app, job, m, |values|, ended, m', |values'|, ended');
  }

  /** In no state can the parser make two different uses. */
  lemma OneUse(app: AppSpec, st: State, u: Use, u': Use)
    requires Proper(app, st) && Legit(app, st, u) && Legit(app, st, u')
    ensures u == u'
  {
    var kind := KindOf(app, st);
    if kind == Unclassified {
      if SomeTakes(app, st) { TakesOnce(app, st, u.k, u'.k); }
    } else if NamesOption(kind) && SomeChosen(app, kind, st.line[0]) {
      ChosenOnce(app, kind, st.line[0], u.k, u'.k);
      NamedOnce(app, st, SplitArg(kind, st.line[0]), u.k, u.values, u.ended, u'.values, u'.ended);
    }
  }

  /** An option that has enough values takes some number of arguments. */
  lemma SomeGathers(app: AppSpec, job: Job) returns (m: nat, n: nat, ended: bool)
    requires Fits(app, job) && !TooFew(app, job)
    ensures Gathers(app, job, m, n, ended)
  {
    m := FindLeast(app, job);
    n, ended := m, false;
    if Count(app, job, m) < MaxNum(app.specs[job.k]) || app.specs[job.k].allowExtra {
      while Wants(app, job, m, n)
        invariant WantsAll(app, job, m, n)
        decreases |job.line| - n
      {
        n := n + 1;
      }
      ended := n < |job.line| && job.line[n] == "--";
    }
  }

  lemma FindLeast(app: AppSpec, job: Job) returns (m: nat)
    requires Fits(app, job) && !TooFew(app, job)
    ensures Least(app, job, m)
  {
    var enough := (j: nat) => j <= |job.line| && Count(app, job, j) >= MinNum(app.specs[job.k]);
    var top :| 0 <= top <= |job.line| && Count(app, job, top) >= MinNum(app.specs[job.k]);
    m := FirstTrue(enough, top);
    forall j | 0 <= j < m ensures j <= |job.line| && Count(app, job, j) < MinNum(app.specs[job.k]) {
      assert !enough(j);
    }
  }

  lemma FirstTrue(f: nat -> bool, top: nat) returns (m: nat)
    requires f(top)
    ensures f(m) && forall j: nat | j < m :: !f(j)
  {
    m := 0;
    while !f(m)
      invariant m <= top && forall j: nat | j < m :: !f(j)
      decreases top - m
    {
      m := m + 1;
    }
  }

  /** Option k cannot be used exactly when it is refused. */
  lemma NamedRefusedIff(app: AppSpec, st: State, p: Parts, k: nat)
    requires Proper(app, st) && st.line != [] && k < |app.specs|
    ensures NamedRefused(app, JobOf(app, st, k, p), p) <==>
              !exists values: seq<string>, ended: bool :: LegitNamed(app, st, p, k, values, ended)
  {
    var job := JobOf(app, st, k, p);
    if NamedRefused(app, job, p) {
      forall values: seq<string>, ended: bool | LegitNamed(app, st, p, k, values, ended) ensures false {
        RefusedNotLegit(app, st, p, k, values, ended);
      }
    } else {
      var m, n, ended := SomeGathers(app, job);
      assert |job.line[..n]| == n;
      assert LegitNamed(app, st, p, k, job.line[..n], ended);
    }
  }

  lemma RefusedNotLegit(app: AppSpec, st: State, p: Parts, k: nat, values: seq<string>, ended: bool)
    requires Proper(app, st) && st.line != [] && k < |app.specs| && NamedRefused(app, JobOf(app, st, k, p), p)
    ensures !LegitNamed(app, st, p, k, values, ended)
  {
    var job := JobOf(app, st, k, p);
    if LegitNamed(app, st, p, k, values, ended) {
      var m: nat :| Gathers(app, job, m, |values|, ended);
      assert Count(app, job, m) >= MinNum(app.specs[k]);
      var m': nat, n': nat, ended': bool :|
        Gathers(app, job, m', n', ended') && CloseRefused(app, k, p.name, Count(app, job, n'));
      GathersOnce(app, job, m, |values|, ended, m', n', ended');
    }
  }

  /** Unless the line is empty the parser throws exactly when it has no use for the next argument. */
  lemma RefusesIff(app: AppSpec, st: State)
    requires Proper(app, st) && st.line != []
    ensures Refuses(app, st) <==> !exists u :: Legit(app, st, u)
  {
    var kind := KindOf(app, st);
    match kind
    case PositionalMark => assert Legit(app, st, Mark);
    case Unclassified => PositionalRefusedIff(app, st);
    case _ => OptionRefusedIff(app, st);
  }

  lemma PositionalRefusedIff(app: AppSpec, st: State)
    requires Proper(app, st) && st.line != [] && KindOf(app, st) == Unclassified
    ensures Refuses(app, st) <==> !exists u :: Legit(app, st, u)
  {
    if SomeTakes(app, st) {
      var k: nat :| Takes(app, st, k);
      assert Legit(app, st, Positional(k, st.line[0]));
    } else if !app.cfg.positionalsAtEnd {
      assert Legit(app, st, Missed(if app.cfg.prefixCommand then st.line else [st.line[0]]));
    }
  }

  lemma OptionRefusedIff(app: AppSpec, st: State)
    requires Proper(app, st) && st.line != [] && NamesOption(KindOf(app, st))
    ensures Refuses(app, st) <==> !exists u :: Legit(app, st, u)
  {
    var kind, arg := KindOf(app, st), st.line[0];
    var p := SplitArg(kind, arg);
    if SomeChosen(app, kind, arg) {
      var k: nat :| Chosen(app, kind, arg, k);
      RefusesChosen(app, st, k);
      NamedRefusedIff(app, st, p, k);
      if NamedRefused(app, JobOf(app, st, k, p), p) {
        forall u | Legit(app, st, u) ensures false { ChosenOnce(app, kind, arg, k, u.k); }
      } else {
        var values: seq<string>, ended: bool :| LegitNamed(app, st, p, k, values, ended);
        assert Legit(app, st, Named(k, values, ended));
      }
    } else {
      assert Legit(app, st, Missed([arg]));
    }
  }

  lemma RefusesChosen(app: AppSpec, st: State, k: nat)
    requires Proper(app, st) && st.line != [] && NamesOption(KindOf(app, st))
    requires Chosen(app, KindOf(app, st), st.line[0], k)
    ensures var p := SplitArg(KindOf(app, st), st.line[0]);
            Refuses(app, st) <==> NamedRefused(app, JobOf(app, st, k, p), p)
  {
    var kind := KindOf(app, st);
    forall k': nat | Chosen(app, kind, st.line[0], k') ensures k' == k { ChosenOnce(app, kind, st.line[0], k, k'); }
  }

  // ---------------------------------------------------------------- runs of the parser

  /** The uses of a log are those that the parser makes one after the other. */
  ghost predicate Accounts(app: AppSpec, st: State, log: seq<Use>)
    requires Proper(app, st)
    decreases |log|, 0
  {
    log == [] ||
    (Accounts(app, st, log[..|log| - 1]) && Legit(app, After(app, st, log[..|log| - 1]), log[|log| - 1]))
  }

  /** The parser after them. */
  ghost function After(app: AppSpec, st: State, log: seq<Use>): (r: State)
    requires Proper(app, st) && Accounts(app, st, log)
    ensures Proper(app, r)
    decreases |log|, 1
  {
    if log == [] then st else Advance(app, After(app, st, log[..|log| - 1]), log[|log| - 1])
  }

  /** They use up the whole line. */
  ghost predicate Complete(app: AppSpec, st: State, log: seq<Use>)
    requires Proper(app, st)
  {
    Accounts(app, st, log) && After(app, st, log).line == []
  }

  lemma {:induction false} OneMoreUse(app: AppSpec, st: State, log: seq<Use>, u: Use)
    requires Proper(app, st) && Accounts(app, st, log) && Legit(app, After(app, st, log), u)
    ensures Accounts(app, st, log + [u])
    ensures After(app, st, log + [u]) == Advance(app, After(app, st, log), u)
  {
    assert (log + [u])[..|log|] == log;
  }

  lemma {:induction false} PrefixAccounts(app: AppSpec, st: State, log: seq<Use>, n: nat)
    requires Proper(app, st) && Accounts(app, st, log) && n <= |log|
    ensures Accounts(app, st, log[..n]) && (n < |log| ==> Legit(app, After(app, st, log[..n]), log[n]))
    decreases |log|
  {
    if n == |log| {
      assert log[..n] == log;
    } else if n < |log| - 1 {
      var front := log[..|log| - 1];
      PrefixAccounts(app, st, front, n);
      assert front[..n] == log[..n] && front[n] == log[n];
    }
  }

  /** There is only one way to run through the first n uses. */
  lemma {:induction false} SameRun(app: AppSpec, st: State, log: seq<Use>, log': seq<Use>)
    requires Proper(app, st) && Accounts(app, st, log) && Accounts(app, st, log') && |log| == |log'|
    ensures log == log'
    decreases |log|
  {
    if log != [] {
      var n := |log| - 1;
      PrefixAccounts(app, st, log, n);
      PrefixAccounts(app, st, log', n);
      SameRun(app, st, log[..n], log'[..n]);
      OneUse(app, After(app, st, log[..n]), log[n], log'[n]);
      LastApart(log, log');
    }
  }

  lemma LastApart(log: seq<Use>, log': seq<Use>)
    requires |log| == |log'| > 0
    requires var n := |log| - 1; log[..n] == log'[..n] && log[n] == log'[n]
    ensures log == log'
  {
    var n := |log| - 1;
    assert log == log[..n] + [log[n]] && log' == log'[..n] + [log'[n]];
  }

  /** A run that has come to its end is no part of a longer one. */
  lemma {:induction false} EndsRun(app: AppSpec, st: State, log: seq<Use>, log': seq<Use>)
    requires Proper(app, st) && Accounts(app, st, log) && Accounts(app, st, log')
    requires forall u :: !Legit(app, After(app, st, log), u)
    ensures |log'| <= |log| && log' == log[..|log'|]
  {
    if |log'| > |log| {
      PrefixAccounts(app, st, log', |log|);
      SameRun(app, st, log, log'[..|log|]);
    } else {
      PrefixAccounts(app, st, log, |log'|);
      SameRun(app, st, log[..|log'|], log');
    }
  }

  /** At most one log uses up the whole line, so results and missing arguments are determined. */
  lemma {:induction false} CompleteOnce(app: AppSpec, st: State, log: seq<Use>, log': seq<Use>)
    requires Proper(app, st) && Complete(app, st, log) && Complete(app, st, log')
    ensures log == log'
  {
    EndsRun(app, st, log, log');
    EndsRun(app, st, log', log);
    assert log[..|log|] == log;
  }

  lemma {:induction false} NotComplete(app: AppSpec, st: State, log: seq<Use>, log': seq<Use>)
    requires Proper(app, st) && Accounts(app, st, log) && After(app, st, log).line != []
    requires forall u :: !Legit(app, After(app, st, log), u)
    ensures !Complete(app, st, log')
  {
    if Accounts(app, st, log') {
      EndsRun(app, st, log, log');
      PrefixAccounts(app, st, log, |log'|);
      assert log[..|log|] == log;
    }
  }

  /** A run that is refused is part of no complete one. */
  lemma {:induction false} RefusedNeverCompletes(app: AppSpec, st: State, log: seq<Use>)
    requires Proper(app, st) && Accounts(app, st, log) && Refuses(app, After(app, st, log))
    ensures !exists log' :: Complete(app, st, log')
  {
    RefusesIff(app, After(app, st, log));
    forall log' | Complete(app, st, log') ensures false {
      NotComplete(app, st, log, log');
    }
  }
}
