/**
  The argument loop in place: the parser pops arguments from the end of its list and adds to the
  results of the options.
 */
module CliParser {
  import opened CliArgs

  function Reversed(s: seq<string>): (r: seq<string>)
    ensures |r| == |s|
  {
    if s == [] then [] else [s[|s| - 1]] + Reversed(s[..|s| - 1])
  }

  lemma ReversedMore(s: seq<string>, x: string)
    ensures Reversed(s + [x]) == [x] + Reversed(s)
  {
    assert (s + [x])[..|s|] == s;
  }

  class Parser {
    const app: AppSpec

    /** The arguments to come, the next one last. */
    var args: seq<string>
    var results: seq<seq<string>>
    var missing: seq<string>
    var positionalOnly: bool

    constructor (app: AppSpec, args: seq<string>)
      ensures this.app == app && Now() == State(Reversed(args), seq(|app.specs|, _ => []), [], false)
    {
      this.app := app;
      this.args, results, missing, positionalOnly := args, seq(|app.specs|, _ => []), [], false;
    }

    /** The arguments to come, in their order. */
    ghost function Line(): seq<string>
      reads this`args
    {
      Reversed(args)
    }

    ghost function Now(): State
      reads this
    {
      State(Line(), results, missing, positionalOnly)
    }

    function Peek(): (arg: string)
      requires args != []
      reads this`args
      ensures Line() != [] && arg == Line()[0]
    {
      args[|args| - 1]
    }

    /** Use the next argument. */
    method Pop() returns (arg: string)
      requires args != []
      modifies this`args
      ensures old(Line()) == [arg] + Line() && arg == old(Peek()) && Line() == old(Line())[1..]
    {
      arg := args[|args| - 1];
      args := args[..|args| - 1];
    }

    /** Store what a text adds to the results of option k. */
    method AddResult(k: nat, text: string) returns (count: nat)
      requires k < |app.specs| == |results|
      modifies this`results
      ensures results == old(results)[k := old(results)[k] + ResultsOf(app.specs[k], text)]
      ensures count == |ResultsOf(app.specs[k], text)|
    {
      var more := ResultsOf(app.specs[k], text);
      results := results[k := results[k] + more];
      count := |more|;
    }

    /** Separate what comes from what an option has already. */
    method Separate(k: nat)
      requires k < |app.specs| == |results|
      modifies this`results
      ensures results == old(results)[k := old(results)[k] + Separator(app.specs[k], old(results)[k])]
    {
      NothingAdded(results, k);
      if app.specs[k].inject && results[k] != [] && results[k][|results[k]| - 1] != "" {
        var _ := AddResult(k, "");
      }
    }

    // -------------------------------------------------------------- positionals

    /** The first required positional that lacks values and takes the text. */
    method LackingPositional(text: string) returns (k: nat)
      requires |results| == |app.specs|
      ensures k <= |app.specs| && (k < |app.specs| ==> FirstLacking(app, results, text, k))
      ensures k == |app.specs| ==> forall j | 0 <= j < |app.specs| :: !Lacks(app, results, j, text)
    {
      k := 0;
      while k < |app.specs| && !Lacks(app, results, k, text)
        invariant k <= |app.specs| && forall j | 0 <= j < k :: !Lacks(app, results, j, text)
      {
        k := k + 1;
      }
    }

    /** The first positional that takes the text. */
    method OpenPositional(text: string) returns (k: nat)
      requires |results| == |app.specs|
      ensures k <= |app.specs| && (k < |app.specs| ==> FirstOpen(app, results, text, k))
      ensures k == |app.specs| ==> forall j | 0 <= j < |app.specs| :: !IsOpen(app, results, j, text)
    {
      k := 0;
      while k < |app.specs| && !IsOpen(app, results, k, text)
        invariant k <= |app.specs| && forall j | 0 <= j < k :: !IsOpen(app, results, j, text)
      {
        k := k + 1;
      }
    }

    /** The positional that takes the next argument, if there is one. */
    method FindPositional() returns (k: nat)
      requires args != [] && |results| == |app.specs|
      ensures k <= |app.specs| && (k < |app.specs| ==> Takes(app, Now(), k))
      ensures k == |app.specs| ==> !SomeTakes(app, Now())
    {
      var text := Peek();
      if app.cfg.positionalsAtEnd && |args| <= RemainingRequired(app.specs, results) {
        k := LackingPositional(text);
        if k < |app.specs| { return; }
      }
      k := OpenPositional(text);
    }

    /** Option k takes the next argument by its position. */
    method TakePositional(k: nat)
      requires args != [] && k < |app.specs| == |results|
      modifies this`args, this`results
      ensures Line() == old(Line())[1..]
      ensures
        var s, had := app.specs[k], old(results)[k];
        results == old(results)[k := had + Separator(s, had) + ResultsOf(s, old(Line())[0])]
    {
      var text := Peek();
      Separate(k);
      var _ := AddResult(k, text);
      var _ := Pop();
    }

    /** The next argument is missing. */
    method MissOne()
      requires args != []
      modifies this`args, this`missing
      ensures Line() == old(Line())[1..] && missing == old(missing) + [old(Line())[0]]
    {
      var text := Pop();
      missing := missing + [text];
    }

    /** All that is left is missing. */
    method MissAll()
      modifies this`args, this`missing
      ensures args == [] && missing == old(missing) + old(Line())
    {
      while args != []
        invariant missing + Line() == old(missing) + old(Line())
        decreases |args|
      {
        ghost var before, line := missing, Line();
        MissOne();
        assert before + line == (before + [line[0]]) + line[1..];
      }
    }

    /** The next argument is not an option. */
    method ParsePositional() returns (ok: bool, ghost u: Use)
      requires args != [] && Proper(app, Now()) && KindOf(app, Now()) == Unclassified
      modifies this`args, this`results, this`missing
      ensures Proper(app, Now()) && (ok <==> !Refuses(app, old(Now())))
      ensures ok ==> Legit(app, old(Now()), u)
      ensures ok ==> Now() == Advance(app, old(Now()), u).(positionalOnly := old(positionalOnly))
      ensures !ok ==> Now() == old(Now())
    {
      ghost var st := Now();
      var k := FindPositional();
      ok, u := true, Mark;
      if k < |app.specs| {
        u := Positional(k, st.line[0]);
        TakePositional(k);
      } else if app.cfg.positionalsAtEnd {
        ok := false;
      } else {
        u := Missed(if app.cfg.prefixCommand then st.line else [st.line[0]]);
        if app.cfg.prefixCommand { MissAll(); } else { MissOne(); }
      }
    }

    // -------------------------------------------------------------- options

    /** The option that a name selects. */
    method FindOption(kind: Classifier, name: string) returns (k: nat)
      ensures k <= |app.specs|
      ensures k < |app.specs| ==> Selects(kind, app.specs[k].names, name)
      ensures forall j | 0 <= j < k :: !Selects(kind, app.specs[j].names, name)
    {
      k := 0;
      while k < |app.specs| && !Selects(kind, app.specs[k].names, name)
        invariant k <= |app.specs| && forall j | 0 <= j < k :: !Selects(kind, app.specs[j].names, name)
      {
        k := k + 1;
      }
    }

    /** The first n of the arguments that follow have become values. */
    ghost predicate At(job: Job, n: nat)
      reads this`args, this`results
    {
      Fits(app, job) && n <= |job.line| && Line() == job.line[n..] && results == ResultsWith(app, job, n)
    }

    /** Take the next argument as a value of option k. */
    method TakeValue(k: nat, ghost job: Job, ghost n: nat) returns (added: nat)
      requires At(job, n) && args != [] && k == job.k
      modifies this`args, this`results
      ensures At(job, n + 1) && Count(app, job, n + 1) == Count(app, job, n) + added && |args| < |old(args)|
    {
      OneMoreValue(app, job, n);
      var arg := Pop();
      added := AddResult(k, arg);
    }

    /** Take arguments as values until there are enough. */
    method GatherMinimum(k: nat, have: nat, ghost job: Job) returns (collected: nat, ghost m: nat)
      requires At(job, 0) && k == job.k && have == job.have
      modifies this`args, this`results
      ensures At(job, m) && collected == Count(app, job, m)
      ensures forall j | 0 <= j < m :: Count(app, job, j) < MinNum(app.specs[k])
      ensures collected < MinNum(app.specs[k]) ==> m == |job.line|
    {
      collected, m := have, 0;
      while MinNum(app.specs[k]) > collected && args != []
        invariant At(job, m) && collected == Count(app, job, m)
        invariant forall j | 0 <= j < m :: Count(app, job, j) < MinNum(app.specs[k])
        decreases |args|
      {
        var n := TakeValue(k, job, m);
        collected, m := collected + n, m + 1;
      }
    }

    /** Whether option k takes the next argument as one more value. */
    method TakesMore(k: nat, collected: nat, reserved: nat, ghost job: Job, ghost m: nat, ghost n: nat)
      returns (more: bool)
      requires At(job, n) && k == job.k && collected == Count(app, job, n) && m <= |job.line|
      requires reserved == Reserved(app, job, m)
      ensures (more <==> Wants(app, job, m, n)) && (more ==> args != [])
    {
      more :=
        && args != [] && (collected < MaxNum(app.specs[k]) || app.specs[k].allowExtra)
        && reserved < |args| && IsValue(app, k, Peek());
    }

    /** Take more arguments as values as long as they are no options and required positionals get theirs. */
    method GatherOptional(k: nat, have: nat, ghost job: Job, ghost m: nat) returns (collected: nat, ghost n: nat)
      requires At(job, m) && k == job.k && have == Count(app, job, m)
      modifies this`args, this`results
      ensures At(job, n) && collected == Count(app, job, n) && WantsAll(app, job, m, n) && !Wants(app, job, m, n)
    {
      collected, n := GatherWanted(k, have, RemainingRequired(app.specs, results), job, m);
    }

    /** The first n of the arguments that follow have been taken, those from m on because they are wanted. */
    ghost predicate Gathering(job: Job, m: nat, n: nat, collected: nat)
      reads this`args, this`results
    {
      At(job, n) && collected == Count(app, job, n) && WantsAll(app, job, m, n)
    }

    /** The loop, with so many arguments reserved. */
    method GatherWanted(k: nat, have: nat, reserved: nat, ghost job: Job, ghost m: nat)
      returns (collected: nat, ghost n: nat)
      requires At(job, m) && k == job.k && have == Count(app, job, m) && reserved == Reserved(app, job, m)
      modifies this`args, this`results
      ensures At(job, n) && collected == Count(app, job, n) && WantsAll(app, job, m, n) && !Wants(app, job, m, n)
    {
      collected, n := have, m;
      var more := TakesMore(k, collected, reserved, job, m, n);
      while more
        invariant Gathering(job, m, n, collected) && (more <==> Wants(app, job, m, n)) && (more ==> args != [])
        decreases |args|, more
      {
        collected, more := TakeWanted(k, collected, reserved, job, m, n);
        n := n + 1;
      }
    }

    /** Take a wanted argument, and look at the next one. */
    method TakeWanted(k: nat, have: nat, reserved: nat, ghost job: Job, ghost m: nat, ghost n: nat)
      returns (collected: nat, more: bool)
      requires Gathering(job, m, n, have) && args != [] && k == job.k
      requires Wants(app, job, m, n) && reserved == Reserved(app, job, m)
      modifies this`args, this`results
      ensures Gathering(job, m, n + 1, collected)
      ensures (more <==> Wants(app, job, m, n + 1)) && (more ==> args != []) && |args| < |old(args)|
    {
      WantsOneMore(app, job, m, n);
      var added := TakeValue(k, job, n);
      collected := have + added;
      more := TakesMore(k, collected, reserved, job, m, n + 1);
    }

    /** A mark ends the values. */
    method EatMark() returns (ended: bool)
      modifies this`args
      ensures ended <==> old(Line()) != [] && old(Line())[0] == "--"
      ensures Line() == if ended then old(Line())[1..] else old(Line())
    {
      ended := args != [] && Peek() == "--";
      if ended { var _ := Pop(); }
    }

    /** The values of option k among the arguments that follow; enough tells whether there are as many as it needs. */
    method GatherValues(k: nat, have: nat, ghost job: Job)
      returns (enough: bool, collected: nat, ghost m: nat, ghost n: nat, ghost ended: bool)
      requires At(job, 0) && k == job.k && have == job.have
      modifies this`args, this`results
      ensures |results| == |app.specs| && (enough <==> !TooFew(app, job))
      ensures enough ==> Gathers(app, job, m, n, ended) && collected == Count(app, job, n)
      ensures enough ==> results == ResultsWith(app, job, n) && Line() == LineAfter(job.line, n, ended)
    {
      collected, m := GatherMinimum(k, have, job);
      enough, n, ended := MinNum(app.specs[k]) <= collected, m, false;
      EnoughIff(app, job, m);
      if enough { collected, n, ended := GatherMore(k, collected, job, m); }
    }

    /** What follows the minimum. */
    method GatherMore(k: nat, have: nat, ghost job: Job, ghost m: nat)
      returns (collected: nat, ghost n: nat, ghost ended: bool)
      requires At(job, m) && k == job.k && have == Count(app, job, m) && Least(app, job, m)
      modifies this`args, this`results
      ensures Gathers(app, job, m, n, ended) && collected == Count(app, job, n)
      ensures results == ResultsWith(app, job, n) && Line() == LineAfter(job.line, n, ended)
    {
      collected, n, ended := have, m, false;
      if MaxNum(app.specs[k]) > collected || app.specs[k].allowExtra {
        collected, n := GatherOptional(k, collected, job, m);
        MarkBehind(job.line, n);
        ended := EatMark();
      }
    }

    /** A flag's value. */
    method AddFlag(k: nat, name: string, value: string) returns (ok: bool)
      requires k < |app.specs| == |results|
      modifies this`results
      ensures ok <==> app.flagValue(k, name, value).Some?
      ensures ok ==> results == old(results)[k := old(results)[k] + FlagResults(app, k, name, value)]
      ensures !ok ==> results == old(results)
    {
      var v := app.flagValue(k, name, value);
      if v.None? { return false; }
      var _ := AddResult(k, v.value);
      return true;
    }

    /** The values that come with the name of option k.  What is left of a cluster is not a value of a flag. */
    method TakeGiven(k: nat, p: Parts) returns (ok: bool, rest: string, collected: nat)
      requires k < |app.specs| == |results|
      modifies this`results
      ensures |results| == |app.specs| && (ok <==> !FlagRefused(app, k, p))
      ensures ok ==> results == old(results)[k := old(results)[k] + GivenResults(app, k, p)]
      ensures ok ==> rest == RestText(app.specs[k], p) && collected == GivenCount(app, k, p)
    {
      ok, rest, collected := true, p.rest, 0;
      NothingAdded(results, k);
      if MaxNum(app.specs[k]) == 0 {
        ok := AddFlag(k, p.name, p.value);
      } else if p.value != "" {
        collected := AddResult(k, p.value);
      } else if rest != "" {
        collected := AddResult(k, rest);
        rest := "";
      }
    }

    /** What closes the values of option k; an incomplete type of fixed size is refused. */
    method Close(k: nat, name: string, collected: nat) returns (ok: bool)
      requires k < |app.specs| == |results| && Sized(app)
      modifies this`results
      ensures |results| == |app.specs| && (ok <==> !CloseRefused(app, k, name, collected))
      ensures ok ==> results == old(results)[k := old(results)[k] + Closing(app, k, name, collected)]
    {
      var s := app.specs[k];
      ok := true;
      NothingAdded(results, k);
      if MinNum(s) == 0 && MaxNum(s) > 0 && collected == 0 {
        ok := AddFlag(k, name, "");
      } else if MinNum(s) > 0 && collected % s.typeMax != 0 {
        if s.typeMax == s.typeMin { return false; }
        var _ := AddResult(k, "");
      }
    }

    /** The values of option k among the arguments that follow, and what closes them. */
    method TakeFollowing(k: nat, have: nat, ghost job: Job, ghost p: Parts, name: string)
      returns (ok: bool, ghost m: nat, ghost n: nat, ghost ended: bool)
      requires At(job, 0) && k == job.k && have == job.have && Sized(app) && name == p.name
      requires !FlagRefused(app, k, p)
      modifies this`args, this`results
      ensures |results| == |app.specs| && (ok <==> !NamedRefused(app, job, p))
      ensures ok ==> Gathers(app, job, m, n, ended) && !CloseRefused(app, k, name, Count(app, job, n))
      ensures ok ==> results == NamedResults(app, job, name, n) && Line() == LineAfter(job.line, n, ended)
    {
      var collected;
      ok, collected, m, n, ended := GatherValues(k, have, job);
      if ok {
        ClosesAlike(app, job, p, m, n, ended);
        ok := Close(k, name, collected);
      }
    }

    /** All values of option k after its name has been taken; rest is to be put back. */
    method TakeValues(k: nat, p: Parts, ghost st: State)
      returns (ok: bool, rest: string, ghost m: nat, ghost n: nat, ghost ended: bool)
      requires Proper(app, st) && st.line != [] && k < |app.specs| && Sized(app)
      requires Line() == st.line[1..] && results == st.results
      modifies this`args, this`results
      ensures |results| == |app.specs| && (ok <==> !NamedRefused(app, JobOf(app, st, k, p), p))
      ensures
        var job := JobOf(app, st, k, p);
        ok ==>
          && Gathers(app, job, m, n, ended) && !FlagRefused(app, k, p)
          && !CloseRefused(app, k, p.name, Count(app, job, n)) && rest == RestText(app.specs[k], p)
          && results == NamedResults(app, job, p.name, n) && Line() == LineAfter(job.line, n, ended)
    {
      m, n, ended := 0, 0, false;
      Separate(k);
      var collected;
      ok, rest, collected := TakeGiven(k, p);
      if ok {
        ghost var job := JobOf(app, st, k, p);
        TwoUpdates(st.results, k, Separator(app.specs[k], st.results[k]), GivenResults(app, k, p));
        NoneFollow(app, job);
        ok, m, n, ended := TakeFollowing(k, collected, job, p, p.name);
      }
    }

    /** The next argument names option k. */
    method UseOption(k: nat, kind: Classifier) returns (ok: bool, ghost u: Use)
      requires args != [] && Proper(app, Now()) && Sized(app)
      requires kind == KindOf(app, Now()) && NamesOption(kind) && Chosen(app, kind, Peek(), k)
      modifies this`args, this`results
      ensures Proper(app, Now()) && (ok <==> !Refuses(app, old(Now())))
      ensures ok ==> u.Named? && u.k == k && Legit(app, old(Now()), u) && Now() == Advance(app, old(Now()), u)
    {
      ghost var st := Now();
      var arg := Pop();
      ok, u := FinishOption(k, SplitArg(kind, arg), st);
    }

    /** The name of option k has been taken. */
    method FinishOption(k: nat, p: Parts, ghost st: State) returns (ok: bool, ghost u: Use)
      requires Proper(app, st) && st.line != [] && NamesOption(KindOf(app, st)) && Sized(app)
      requires p == SplitArg(KindOf(app, st), st.line[0]) && Chosen(app, KindOf(app, st), st.line[0], k)
      requires Now() == st.(line := st.line[1..])
      modifies this`args, this`results
      ensures |results| == |app.specs| && (ok <==> !Refuses(app, st))
      ensures ok ==> u.Named? && u.k == k && Legit(app, st, u) && Now() == Advance(app, st, u)
    {
      var rest;
      ok, rest, u := TakeNamed(k, p, st);
      if ok { PutBack(rest); }
    }

    /** Option k, whose name has been taken, gets its values. */
    method TakeNamed(k: nat, p: Parts, ghost st: State) returns (ok: bool, rest: string, ghost u: Use)
      requires Proper(app, st) && st.line != [] && NamesOption(KindOf(app, st)) && Sized(app)
      requires p == SplitArg(KindOf(app, st), st.line[0]) && Chosen(app, KindOf(app, st), st.line[0], k)
      requires Line() == st.line[1..] && results == st.results
      modifies this`args, this`results
      ensures |results| == |app.specs| && (ok <==> !Refuses(app, st))
      ensures ok ==> u.Named? && u.k == k && Legit(app, st, u)
      ensures ok ==>
                Advance(app, st, u) ==
                  State((if rest == "" then [] else ["-" + rest]) + Line(), results, st.missing, st.positionalOnly)
    {
      RefusesChosen(app, st, k);
      ghost var m, n, ended;
      ok, rest, m, n, ended := TakeValues(k, p, st);
      u := Mark;
      if ok { u := UsableIsLegit(app, st, k, m, n, ended); }
    }

    /** What is left of a cluster comes next. */
    method PutBack(rest: string)
      modifies this`args
      ensures Line() == (if rest == "" then [] else ["-" + rest]) + old(Line())
    {
      if rest != "" {
        ReversedMore(args, "-" + rest);
        args := args + ["-" + rest];
      }
    }

    /** The next argument is an option: the option that its name selects gets values; without one it is missing. */
    method ParseArg(kind: Classifier) returns (ok: bool, ghost u: Use)
      requires args != [] && Proper(app, Now()) && Sized(app)
      requires kind == KindOf(app, Now()) && NamesOption(kind)
      modifies this`args, this`results, this`missing
      ensures Proper(app, Now()) && (ok <==> !Refuses(app, old(Now())))
      ensures ok ==> Legit(app, old(Now()), u) && Now() == Advance(app, old(Now()), u)
    {
      var arg := Peek();
      var k := FindOption(kind, SplitArg(kind, arg).name);
      if k == |app.specs| {
        u := Missed([arg]);
        ok := true;
        MissOne();
      } else {
        ok, u := UseOption(k, kind);
      }
    }

    // -------------------------------------------------------------- the loop

    /** One argument, with the arguments that it uses. */
    method ParseSingle() returns (ok: bool, ghost u: Use)
      requires args != [] && Proper(app, Now()) && Sized(app)
      modifies this`args, this`results, this`missing, this`positionalOnly
      ensures Proper(app, Now()) && (ok <==> !Refuses(app, old(Now())))
      ensures ok ==> Legit(app, old(Now()), u) && Now() == Advance(app, old(Now()), u)
    {
      var kind := if positionalOnly then Unclassified else Recognize(app.specs, app.cfg, Peek());
      match kind
      case PositionalMark =>
        var _ := Pop();
        positionalOnly := true;
        missing := missing + ["--"];
        ok, u := true, Mark;
      case Unclassified =>
        ok, u := ParsePositional();
        if ok && app.cfg.positionalsAtEnd { positionalOnly := true; }
      case _ =>
        ok, u := ParseArg(kind);
    }

    /**
      The whole command line.  The loop ends.  It succeeds exactly when the uses that the rules prescribe
      take all arguments, and then the results and the missing arguments are what these uses give;
      otherwise it stops where the rules refuse.
     */
    method Parse() returns (ok: bool, ghost log: seq<Use>)
      requires Sized(app) && results == seq(|app.specs|, _ => []) && missing == []
      modifies this`args, this`results, this`missing, this`positionalOnly
      ensures
        var st := State(old(Line()), seq(|app.specs|, _ => []), [], false);
        && (ok <==> exists log' :: Complete(app, st, log'))
        && Accounts(app, st, log)
        && (ok ==> Complete(app, st, log) && Now() == After(app, st, log))
        && (!ok ==> Refuses(app, After(app, st, log)))
    {
      positionalOnly := false;
      log := [];
      ghost var st := Now();
      while args != []
        invariant Proper(app, st) && Accounts(app, st, log) && Now() == After(app, st, log)
        decreases Size(Line())
      {
        ghost var before := Now();
        ghost var u;
        ok, u := ParseSingle();
        if !ok {
          RefusedNeverCompletes(app, st, log);
          return;
        }
        TakesShrinks(app, before, u);
        OneMoreUse(app, st, log, u);
        log := log + [u];
      }
      assert Complete(app, st, log);
      ok := true;
    }
  }

  ghost function LineAfter(line: seq<string>, n: nat, ended: bool): seq<string>
    requires n <= |line| && (ended ==> n < |line|)
  {
    if ended then line[n + 1..] else line[n..]
  }

  lemma WantsOneMore(app: AppSpec, job: Job, m: nat, n: nat)
    requires Fits(app, job) && WantsAll(app, job, m, n) && Wants(app, job, m, n)
    ensures WantsAll(app, job, m, n + 1)
  {
  }

  lemma EnoughIff(app: AppSpec, job: Job, m: nat)
    requires Fits(app, job) && m <= |job.line|
    requires forall j | 0 <= j < m :: Count(app, job, j) < MinNum(app.specs[job.k])
    requires Count(app, job, m) < MinNum(app.specs[job.k]) ==> m == |job.line|
    ensures TooFew(app, job) <==> Count(app, job, m) < MinNum(app.specs[job.k])
    ensures Least(app, job, m) <==> !TooFew(app, job)
  {
  }

  lemma MarkBehind(line: seq<string>, n: nat)
    requires n <= |line|
    ensures line[n..] != [] && line[n..][0] == "--" <==> n < |line| && line[n] == "--"
    ensures n < |line| ==> line[n..][1..] == line[n + 1..]
  {
  }

  lemma OneMoreValue(app: AppSpec, job: Job, n: nat)
    requires Fits(app, job) && n < |job.line|
    ensures
      var more := ResultsOf(app.specs[job.k], job.line[n]);
      && Count(app, job, n + 1) == Count(app, job, n) + |more|
      && ResultsWith(app, job, n + 1) == ResultsWith(app, job, n)[job.k := ResultsWith(app, job, n)[job.k] + more]
  {
    assert job.line[..n + 1] == job.line[..n] + [job.line[n]];
    AllResultsMore(app.specs[job.k], job.line[..n], job.line[n]);
    Assoc(job.results[job.k], AllResults(app.specs[job.k], job.line[..n]), ResultsOf(app.specs[job.k], job.line[n]));
  }

  lemma Assoc(a: seq<string>, b: seq<string>, c: seq<string>)
    ensures a + b + c == a + (b + c)
  {
  }

  lemma NoneFollow(app: AppSpec, job: Job)
    requires Fits(app, job)
    ensures ResultsWith(app, job, 0) == job.results && Count(app, job, 0) == job.have
  {
    assert job.results[job.k] + [] == job.results[job.k];
  }

  lemma ClosesAlike(app: AppSpec, job: Job, p: Parts, m: nat, n: nat, ended: bool)
    requires Fits(app, job) && Gathers(app, job, m, n, ended) && !FlagRefused(app, job.k, p)
    ensures NamedRefused(app, job, p) <==> CloseRefused(app, job.k, p.name, Count(app, job, n))
  {
    forall m': nat, n': nat, ended': bool | Gathers(app, job, m', n', ended') ensures n' == n {
      GathersOnce(app, job, m, n, ended, m', n', ended');
    }
  }

  /** Option k has been read, and what follows gathered, closed and not refused. */
  ghost predicate Usable(app: AppSpec, st: State, k: nat, m: nat, n: nat, ended: bool)
    requires Proper(app, st) && st.line != [] && NamesOption(KindOf(app, st)) && k < |app.specs|
  {
    var p := SplitArg(KindOf(app, st), st.line[0]);
    var job := JobOf(app, st, k, p);
    && Gathers(app, job, m, n, ended) && !FlagRefused(app, k, p)
    && !CloseRefused(app, k, p.name, Count(app, job, n))
  }

  /** Then that is the use of the next arguments, and this is what it leaves. */
  lemma UsableIsLegit(app: AppSpec, st: State, k: nat, m: nat, n: nat, ended: bool) returns (u: Use)
    requires Proper(app, st) && st.line != [] && NamesOption(KindOf(app, st))
    requires Chosen(app, KindOf(app, st), st.line[0], k) && Usable(app, st, k, m, n, ended)
    ensures u.Named? && u.k == k && Legit(app, st, u)
    ensures
      var p := SplitArg(KindOf(app, st), st.line[0]);
      var rest := RestText(app.specs[k], p);
      Advance(app, st, u) ==
        State((if rest == "" then [] else ["-" + rest]) + LineAfter(st.line[1..], n, ended),
              NamedResults(app, JobOf(app, st, k, p), p.name, n), st.missing, st.positionalOnly)
  {
    var p, values := SplitArg(KindOf(app, st), st.line[0]), st.line[1..][..n];
    assert |values| == n;
    assert LegitNamed(app, st, p, k, values, ended);
    u := Named(k, values, ended);
    NamedAdvance(app, st, u);
  }

  lemma NamedAdvance(app: AppSpec, st: State, u: Use)
    requires Proper(app, st) && Legit(app, st, u) && u.Named?
    ensures |u.values| <= |st.line[1..]| && (u.ended ==> |u.values| < |st.line[1..]|)
    ensures Advance(app, st, u).line == Back(app, st, u) + LineAfter(st.line[1..], |u.values|, u.ended)
  {
    NamedBounds(app, st, u);
    LineDrops(st.line, |u.values|, u.ended);
    TokensLength(st, u);
    AdvanceLine(app, st, u);
  }

  lemma NamedBounds(app: AppSpec, st: State, u: Use)
    requires Proper(app, st) && Legit(app, st, u) && u.Named?
    ensures |u.values| < |st.line| && (u.ended ==> |u.values| + 1 < |st.line|)
  {
    var m := GatheredBy(app, st, u);
  }

  lemma TokensLength(st: State, u: Use)
    requires st.line != [] && u.Named?
    ensures |Tokens(st, u)| == |u.values| + if u.ended then 2 else 1
  {
  }

  lemma AdvanceLine(app: AppSpec, st: State, u: Use)
    requires Proper(app, st) && Legit(app, st, u)
    ensures |Tokens(st, u)| <= |st.line|
    ensures Advance(app, st, u).line == Back(app, st, u) + st.line[|Tokens(st, u)|..]
  {
    TakesNext(app, st, u);
  }

  lemma LineDrops(line: seq<string>, n: nat, ended: bool)
    requires n < |line| && (ended ==> n + 1 < |line|)
    ensures LineAfter(line[1..], n, ended) == if ended then line[n + 2..] else line[n + 1..]
  {
  }

  lemma NothingAdded(results: seq<seq<string>>, k: nat)
    requires k < |results|
    ensures results[k := results[k] + []] == results
  {
    assert results[k] + [] == results[k];
  }

  lemma TwoUpdates(r: seq<seq<string>>, k: nat, a: seq<string>, b: seq<string>)
    requires k < |r|
    ensures
      var r1 := r[k := r[k] + a];
      r1[k := r1[k] + b] == r[k := r[k] + a + b]
  {
  }
}
