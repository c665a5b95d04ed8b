/**
  The handler of tutorial 3a: a message with a positive time to live is answered with up to
  two messages to the next node that live one step less.
 */
module RecurHandler {
  import opened Arithmetic

  datatype Msg = Msg(node: int, ttl: int)

  /** A new message lives one step less than it is told. */
  function Made(node: int, inTtl: int): (m: Msg) { Msg(node, inTtl - 1) }

  function NextNode(node: int, n: int): (r: int) { if node + 1 > n - 1 then 0 else node + 1 }

  function Copies(c: nat, m: Msg): (r: seq<Msg>)
    ensures |r| == c
  {
    if c == 0 then [] else Copies(c - 1, m) + [m]
  }

  /** The messages that handling m sends, if it sends c messages. */
  function Sends(m: Msg, c: nat, n: int): (r: seq<Msg>) {
    if m.ttl > 0 then Copies(c, Made(NextNode(m.node, n), m.ttl)) else []
  }

  /** The messages on their way, changed in place. */
  class Network {
    var inflight: seq<Msg>

    /** Message k is delivered and its handler runs; numSend is the number that it drew. */
    method Deliver(k: nat, numSend: nat, n: int)
      requires k < |inflight|
      modifies this
      ensures inflight == Handle(old(inflight), Event(k, numSend), n)
    {
      var m := inflight[k];
      inflight := inflight[..k] + inflight[k + 1..];
      if m.ttl > 0 {
        ghost var rest := inflight;
        for i := 0 to numSend
          invariant inflight == rest + Copies(i, Made(NextNode(m.node, n), m.ttl))
        {
          inflight := inflight + [Made(NextNode(m.node, n), m.ttl)];
        }
      }
    }
  }

  // ---------------------------------------------------------------- runs

  /** Which message is delivered next, and how many messages its handler draws. */
  datatype Event = Event(k: nat, c: nat)

  function Handle(ms: seq<Msg>, e: Event, n: int): (r: seq<Msg>)
    requires e.k < |ms|
  {
    ms[..e.k] + ms[e.k + 1..] + Sends(ms[e.k], e.c, n)
  }

  ghost predicate Runnable(ms: seq<Msg>, evs: seq<Event>, n: int)
    decreases |evs|
  {
    evs == [] || (evs[0].k < |ms| && evs[0].c <= 2 && Runnable(Handle(ms, evs[0], n), evs[1..], n))
  }

  ghost function Run(ms: seq<Msg>, evs: seq<Event>, n: int): seq<Msg>
    requires Runnable(ms, evs, n)
    decreases |evs|
  {
    if evs == [] then ms else Run(Handle(ms, evs[0], n), evs[1..], n)
  }

  // ---------------------------------------------------------------- the potential

  /** The handler runs that a message can cause. */
  ghost function Weight(ttl: int): nat { if ttl <= 0 then 1 else 1 + 2 * Weight(ttl - 1) }

  lemma {:induction false} WeightIs(ttl: nat)
    ensures Weight(ttl) == Pow2(ttl + 1) - 1
  {
    if ttl > 0 { WeightIs(ttl - 1); }
  }

  ghost function Potential(ms: seq<Msg>): nat {
    if ms == [] then 0 else Potential(ms[..|ms| - 1]) + Weight(ms[|ms| - 1].ttl)
  }

  lemma {:induction false} PotentialConcat(a: seq<Msg>, b: seq<Msg>)
    ensures Potential(a + b) == Potential(a) + Potential(b)
  {
    if b == [] {
      assert a + b == a;
    } else {
      PotentialConcat(a, b[..|b| - 1]);
      assert (a + b)[..|a + b| - 1] == a + b[..|b| - 1];
    }
  }

  lemma PotentialMore(ms: seq<Msg>, m: Msg)
    ensures Potential(ms + [m]) == Potential(ms) + Weight(m.ttl)
  {
    assert (ms + [m])[..|ms|] == ms;
  }

  lemma OneMore(c: nat, w: nat)
    ensures c * w == (c - 1) * w + w
  {
  }

  lemma {:induction false} PotentialCopies(c: nat, m: Msg)
    ensures Potential(Copies(c, m)) == c * Weight(m.ttl)
  {
    if c > 0 {
      PotentialCopies(c - 1, m);
      PotentialMore(Copies(c - 1, m), m);
      OneMore(c, Weight(m.ttl));
    }
  }

  /** Handling a message uses up potential; with two answers it uses up exactly one run. */
  lemma HandleUses(ms: seq<Msg>, e: Event, n: int)
    requires e.k < |ms| && e.c <= 2
    ensures Potential(Handle(ms, e, n)) < Potential(ms)
    ensures e.c == 2 ==> Potential(Handle(ms, e, n)) == Potential(ms) - 1
  {
    SplitAt(ms, e.k);
    UsesParts(ms, ms[..e.k], ms[e.k], ms[e.k + 1..], e.c, n);
  }

  lemma SplitAt(ms: seq<Msg>, k: nat)
    requires k < |ms|
    ensures ms == ms[..k] + [ms[k]] + ms[k + 1..]
  {
  }

  lemma UsesParts(ms: seq<Msg>, a: seq<Msg>, m: Msg, b: seq<Msg>, c: nat, n: int)
    requires c <= 2 && ms == a + [m] + b
    ensures var p := Potential(a + b + Sends(m, c, n)); p < Potential(ms) && (c == 2 ==> p == Potential(ms) - 1)
  {
    Taken(a, m, b);
    Left(a + b, m, c, n);
  }

  lemma Left(rest: seq<Msg>, m: Msg, c: nat, n: int)
    requires c <= 2
    ensures var p := Potential(rest + Sends(m, c, n));
              p < Potential(rest) + Weight(m.ttl) && (c == 2 ==> p == Potential(rest) + Weight(m.ttl) - 1)
  {
    PotentialConcat(rest, Sends(m, c, n));
    SendsWeigh(m, c, n);
  }

  lemma Taken(a: seq<Msg>, m: Msg, b: seq<Msg>)
    ensures Potential(a + [m] + b) == Potential(a + b) + Weight(m.ttl)
  {
    PotentialConcat(a + [m], b);
    PotentialConcat(a, [m]);
    assert [m][..0] == [];
    PotentialConcat(a, b);
  }

  lemma {:induction false} SendsWeigh(m: Msg, c: nat, n: int)
    requires c <= 2
    ensures Potential(Sends(m, c, n)) < Weight(m.ttl)
    ensures c == 2 ==> Potential(Sends(m, c, n)) == Weight(m.ttl) - 1
  {
    if m.ttl > 0 { ChildrenWeigh(c, NextNode(m.node, n), m.ttl); }
  }

  lemma {:induction false} ChildrenWeigh(c: nat, node: int, ttl: int)
    requires c <= 2 && ttl > 0
    ensures Potential(Copies(c, Made(node, ttl))) < Weight(ttl)
    ensures c == 2 ==> Potential(Copies(c, Made(node, ttl))) == Weight(ttl) - 1
  {
    CopiesWeigh(c, Made(node, ttl));
  }

  lemma CopiesWeigh(c: nat, m: Msg)
    requires c <= 2
    ensures Potential(Copies(c, m)) <= 2 * Weight(m.ttl) && (c == 2 ==> Potential(Copies(c, m)) == 2 * Weight(m.ttl))
  {
    PotentialCopies(c, m);
    Twice(c, Weight(m.ttl), Potential(Copies(c, m)));
  }

  lemma Twice(c: nat, w: nat, p: nat)
    requires c <= 2 && p == c * w
    ensures p <= 2 * w && (c == 2 ==> p == 2 * w)
  {
  }

  lemma {:induction false} RunUses(ms: seq<Msg>, evs: seq<Event>, n: int)
    requires Runnable(ms, evs, n)
    ensures |evs| + Potential(Run(ms, evs, n)) <= Potential(ms)
    decreases |evs|
  {
    if evs != [] {
      HandleUses(ms, evs[0], n);
      RunUses(Handle(ms, evs[0], n), evs[1..], n);
    }
  }

  /** A run that starts from one message that lives t steps has at most 2^(t+1) - 1 handler runs. */
  lemma RunsEnd(m: Msg, evs: seq<Event>, n: int)
    requires m.ttl >= 0 && Runnable([m], evs, n)
    ensures |evs| <= Pow2(m.ttl + 1) - 1
  {
    RunUses([m], evs, n);
    assert [m][..0] == [] && Potential([m]) == Weight(m.ttl);
    WeightIs(m.ttl);
  }

  /** The longest run: always two answers. */
  ghost function Longest(ms: seq<Msg>): seq<Event> { seq(Potential(ms), _ => Event(0, 2)) }

  lemma {:induction false} LongestRuns(ms: seq<Msg>, n: int)
    ensures Runnable(ms, Longest(ms), n) && Run(ms, Longest(ms), n) == []
    decreases Potential(ms)
  {
    if ms == [] {
      assert Longest(ms) == [];
    } else {
      var e := Event(0, 2);
      HandleUses(ms, e, n);
      LongestRuns(Handle(ms, e, n), n);
      assert Longest(ms)[0] == e && Longest(ms)[1..] == Longest(Handle(ms, e, n));
    }
  }

  /** The bound is reached. */
  lemma BoundReached(m: Msg, n: int)
    requires m.ttl >= 0
    ensures exists evs :: Runnable([m], evs, n) && Run([m], evs, n) == [] && |evs| == Pow2(m.ttl + 1) - 1
  {
    LongestRuns([m], n);
    assert [m][..0] == [] && Potential([m]) == Weight(m.ttl);
    WeightIs(m.ttl);
  }

  // ---------------------------------------------------------------- the targets

  ghost predicate InRange(ms: seq<Msg>, n: int) { forall i | 0 <= i < |ms| :: 0 <= ms[i].node < n }

  lemma {:induction false} CopiesAre(c: nat, m: Msg)
    ensures forall i | 0 <= i < c :: Copies(c, m)[i] == m
  {
    if c > 0 { CopiesAre(c - 1, m); }
  }

  lemma {:induction false} StaysInRange(ms: seq<Msg>, evs: seq<Event>, n: int)
    requires Runnable(ms, evs, n) && InRange(ms, n)
    ensures InRange(Run(ms, evs, n), n)
    decreases |evs|
  {
    if evs != [] {
      var m := ms[evs[0].k];
      CopiesAre(evs[0].c, Made(NextNode(m.node, n), m.ttl));
      StaysInRange(Handle(ms, evs[0], n), evs[1..], n);
    }
  }

  /** Node 0 sends the first message, with time 8, to node 1. */
  function First(): (ms: seq<Msg>) { [Made(1, 8)] }

  /** All targets of all runs are nodes exactly when there are two nodes or more. */
  lemma TargetsInRange(n: int)
    requires n >= 1
    ensures (forall evs | Runnable(First(), evs, n) :: InRange(Run(First(), evs, n), n)) <==> n >= 2
  {
    if n >= 2 {
      forall evs | Runnable(First(), evs, n) ensures InRange(Run(First(), evs, n), n) { StaysInRange(First(), evs, n); }
    } else {
      assert Runnable(First(), [], n) && Run(First(), [], n)[0].node == 1;
    }
  }

  /** A message that has d steps less to live than another is d nodes further round the ring of n nodes. */
  ghost predicate OnRing(ms: seq<Msg>, n: int, at: int)
    requires n >= 1
  {
    forall i | 0 <= i < |ms| :: IsAt(ms[i], n, at)
  }

  ghost predicate IsAt(m: Msg, n: int, at: int)
    requires n >= 1
  {
    m.node == (at - m.ttl) % n
  }

  lemma StepOnRing(m: Msg, n: int, at: int)
    requires n >= 1 && IsAt(m, n, at)
    ensures IsAt(Made(NextNode(m.node, n), m.ttl), n, at)
  {
    OneFurther(at - m.ttl, n);
  }

  lemma OneFurther(x: int, n: int)
    requires n >= 1
    ensures (x + 1) % n == if x % n + 1 == n then 0 else x % n + 1
  {
    var q := x / n;
    var r := if x % n + 1 == n then 0 else x % n + 1;
    var p := if x % n + 1 == n then q + 1 else q;
    assert x + 1 == p * n + r;
    SameDigits(n, (x + 1) / n, (x + 1) % n, p, r);
  }

  lemma {:induction false} StaysOnRing(ms: seq<Msg>, evs: seq<Event>, n: int, at: int)
    requires n >= 1 && Runnable(ms, evs, n) && OnRing(ms, n, at)
    ensures OnRing(Run(ms, evs, n), n, at)
    decreases |evs|
  {
    if evs != [] {
      var m := ms[evs[0].k];
      StepOnRing(m, n, at);
      CopiesAre(evs[0].c, Made(NextNode(m.node, n), m.ttl));
      StaysOnRing(Handle(ms, evs[0], n), evs[1..], n, at);
    }
  }

  /** With two nodes or more, a message of any run that lives t more steps is on its way to node (8 - t) mod n. */
  lemma TargetsOnRing(evs: seq<Event>, n: int)
    requires n >= 2 && Runnable(First(), evs, n)
    ensures forall m | m in Run(First(), evs, n) :: m.node == (8 - m.ttl) % n
  {
    StaysOnRing(First(), evs, n, 8);
  }
}
