/**
  The events with which the configuration reader opens and closes sections, and what it
  means to replay them.
 */
module CliSections {

  /** One entry handed on by the reader: a key with its inputs, or the start ("++") or end ("--") of a section. */
  datatype ConfigItem = ConfigItem(parents: seq<string>, name: string, inputs: seq<string>)

  const OPEN := "++"
  const CLOSE := "--"

  predicate IsEvent(it: ConfigItem) { it.name == OPEN || it.name == CLOSE }

  function OpenItem(path: seq<string>): (it: ConfigItem) { ConfigItem(path, OPEN, []) }

  function CloseItem(path: seq<string>): (it: ConfigItem) { ConfigItem(path, CLOSE, []) }

  // ---------------------------------------------------------------- replaying

  /** The sections that are open, outermost first. */
  type Stack = seq<seq<string>>

  datatype Replayed = Mismatch | Open(stack: Stack)

  /** "++" opens a section, "--" must close the section that was opened last. */
  ghost function ReplayItem(st: Replayed, it: ConfigItem): Replayed {
    if st.Mismatch? then Mismatch
    else if it.name == OPEN then Open(st.stack + [it.parents])
    else if it.name == CLOSE then
      if st.stack != [] && st.stack[|st.stack| - 1] == it.parents then Open(st.stack[..|st.stack| - 1]) else Mismatch
    else st
  }

  ghost function Replay(items: seq<ConfigItem>): Replayed {
    if items == [] then Open([]) else ReplayItem(Replay(items[..|items| - 1]), items[|items| - 1])
  }

  lemma ReplayAppend(items: seq<ConfigItem>, it: ConfigItem)
    ensures Replay(items + [it]) == ReplayItem(Replay(items), it)
  {
    assert (items + [it])[..|items|] == items;
  }

  /** The sections on the way to a path. */
  ghost function Prefixes(path: seq<string>): Stack {
    seq(|path|, i requires 0 <= i < |path| => path[..i + 1])
  }

  lemma PrefixesLonger(path: seq<string>, k: nat)
    requires k < |path|
    ensures Prefixes(path[..k + 1]) == Prefixes(path[..k]) + [path[..k + 1]]
  {
    var p, q := path[..k + 1], path[..k];
    forall i | 0 <= i < k ensures Prefixes(p)[i] == Prefixes(q)[i] {
      assert p[..i + 1] == q[..i + 1];
    }
    assert p[..k + 1] == p;
  }

  /** A key and what is open where it stands. */
  datatype Place = Place(item: ConfigItem, open: Replayed)

  /** All keys with their inputs, in order, each with what is open where it stands. */
  ghost function Places(items: seq<ConfigItem>): seq<Place> {
    if items == [] then []
    else
      var front, last := items[..|items| - 1], items[|items| - 1];
      Places(front) + if IsEvent(last) then [] else [Place(last, Replay(front))]
  }

  lemma PlacesAppend(items: seq<ConfigItem>, it: ConfigItem)
    ensures Places(items + [it]) == Places(items) + if IsEvent(it) then [] else [Place(it, Replay(items))]
  {
    assert (items + [it])[..|items|] == items;
  }

  /** Opening the sections of a path from depth k on. */
  lemma OpenNext(items: seq<ConfigItem>, leak: Stack, path: seq<string>, k: nat)
    requires k < |path| && Replay(items) == Open(leak + Prefixes(path[..k]))
    ensures Replay(items + [OpenItem(path[..k + 1])]) == Open(leak + Prefixes(path[..k + 1]))
    ensures Places(items + [OpenItem(path[..k + 1])]) == Places(items)
  {
    ReplayAppend(items, OpenItem(path[..k + 1]));
    PlacesAppend(items, OpenItem(path[..k + 1]));
    PrefixesLonger(path, k);
    assert leak + Prefixes(path[..k]) + [path[..k + 1]] == leak + (Prefixes(path[..k]) + [path[..k + 1]]);
  }

  /** Closing the innermost section of a path. */
  lemma CloseLast(items: seq<ConfigItem>, leak: Stack, path: seq<string>)
    requires path != [] && Replay(items) == Open(leak + Prefixes(path))
    ensures Replay(items + [CloseItem(path)]) == Open(leak + Prefixes(path[..|path| - 1]))
    ensures Places(items + [CloseItem(path)]) == Places(items)
  {
    ReplayAppend(items, CloseItem(path));
    PlacesAppend(items, CloseItem(path));
    PrefixesLonger(path, |path| - 1);
    assert path[..|path| - 1 + 1] == path;
    assert (leak + Prefixes(path))[..|leak| + |path| - 1] == leak + Prefixes(path[..|path| - 1]);
  }

  // ---------------------------------------------------------------- checkParentSegments

  /** The last entry ends the section at path, which was the innermost open one above leak. */
  ghost predicate JustClosed(items: seq<ConfigItem>, leak: Stack, path: seq<string>) {
    && items != [] && path != [] && items[|items| - 1] == CloseItem(path)
    && Replay(items[..|items| - 1]) == Open(leak + Prefixes(path))
  }

  /** Where the reader stands when it meets a section header: just out of a section, or outside all sections. */
  ghost predicate AtHeader(items: seq<ConfigItem>, leak: Stack) {
    || (exists path :: JustClosed(items, leak, path))
    || ((items == [] || items[|items| - 1].name != CLOSE) && Replay(items) == Open(leak))
  }

  /** Close one more enclosing section after the last one. */
  lemma CloseParent(items: seq<ConfigItem>, leak: Stack, path: seq<string>)
    requires JustClosed(items, leak, path) && |path| > 1
    ensures JustClosed(items + [CloseItem(path[..|path| - 1])], leak, path[..|path| - 1])
    ensures Places(items + [CloseItem(path[..|path| - 1])]) == Places(items)
  {
    var up := path[..|path| - 1];
    assert items == items[..|items| - 1] + [CloseItem(path)];
    CloseLast(items[..|items| - 1], leak, path);
    CloseLast(items, leak, up);
    assert (items + [CloseItem(up)])[..|items|] == items;
  }

  /** The section at path, and perhaps sections around it, have been closed. */
  ghost predicate ClosedOn(items: seq<ConfigItem>, out: seq<ConfigItem>, leak: Stack, path: seq<string>) {
    && out != [] && Places(out) == Places(items)
    && var last := out[|out| - 1].parents; |last| <= |path| && last == path[..|last|] && JustClosed(out, leak, last)
  }

  lemma CloseOneMore(items: seq<ConfigItem>, out: seq<ConfigItem>, leak: Stack, path: seq<string>)
    requires ClosedOn(items, out, leak, path) && |out[|out| - 1].parents| > 1
    ensures var last := out[|out| - 1].parents;
            out[|out| - 1] == CloseItem(last) && ClosedOn(items, out + [CloseItem(last[..|last| - 1])], leak, path)
  {
    var last := out[|out| - 1].parents;
    CloseParent(out, leak, last);
    assert last[..|last| - 1] == path[..|last| - 1];
  }

  lemma {:induction false} JustClosedReplay(items: seq<ConfigItem>, leak: Stack, path: seq<string>)
    requires JustClosed(items, leak, path)
    ensures Replay(items) == Open(leak + Prefixes(path[..|path| - 1]))
    ensures Places(items[..|items| - 1]) == Places(items)
  {
    LastApart(items);
    AfterClose(items, items[..|items| - 1], leak, path);
  }

  lemma LastApart(items: seq<ConfigItem>)
    requires items != []
    ensures items == items[..|items| - 1] + [items[|items| - 1]]
  {
  }

  lemma AfterClose(items: seq<ConfigItem>, front: seq<ConfigItem>, leak: Stack, path: seq<string>)
    requires items == front + [CloseItem(path)] && path != [] && Replay(front) == Open(leak + Prefixes(path))
    ensures Replay(items) == Open(leak + Prefixes(path[..|path| - 1])) && Places(items) == Places(front)
  {
    CloseLast(front, leak, path);
  }

  /** The length of the longest common prefix, up to a limit. */
  method CommonPrefix(a: seq<string>, b: seq<string>, limit: nat) returns (common: nat)
    requires limit <= |a| && limit <= |b|
    ensures common <= limit && a[..common] == b[..common]
    ensures common < limit ==> a[common] != b[common]
  {
    common := 0;
    while common < limit && a[common] == b[common]
      invariant common <= limit && a[..common] == b[..common]
    {
      common := common + 1;
    }
  }

  /** Close sections, innermost first, until the last one closed is at most depth deep. */
  method CloseDownTo(items: seq<ConfigItem>, depth: nat, ghost leak: Stack, ghost path: seq<string>)
    returns (out: seq<ConfigItem>)
    requires depth >= 1 && items != [] && items[|items| - 1].name == CLOSE
    ensures out != [] && out[|out| - 1].name == CLOSE && |out[|out| - 1].parents| <= depth
    ensures JustClosed(items, leak, path) ==> ClosedOn(items, out, leak, path) && (|path| <= depth ==> out == items)
    ensures |items[|items| - 1].parents| <= depth ==> out == items
    ensures |items[|items| - 1].parents| >= depth ==> |out[|out| - 1].parents| == depth
  {
    out := items;
    ghost var good := JustClosed(items, leak, path);
    while |out[|out| - 1].parents| > depth
      invariant out != [] && out[|out| - 1].name == CLOSE
      invariant good ==> ClosedOn(items, out, leak, path) && (|path| <= depth ==> out == items)
      invariant |items[|items| - 1].parents| <= depth ==> out == items
      invariant |items[|items| - 1].parents| >= depth ==> |out[|out| - 1].parents| >= depth
      decreases |out[|out| - 1].parents|
    {
      var last := out[|out| - 1];
      if good { CloseOneMore(items, out, leak, path); }
      var it := last.(parents := last.parents[..|last.parents| - 1]);
      out := out + [it];
    }
  }

  /** Open the sections of a path from depth k on. */
  method OpenFrom(items: seq<ConfigItem>, path: seq<string>, k: nat, ghost leak: Stack) returns (out: seq<ConfigItem>)
    requires k < |path|
    ensures Replay(items) == Open(leak + Prefixes(path[..k])) ==>
              Replay(out) == Open(leak + Prefixes(path)) && Places(out) == Places(items)
    ensures out != [] && out[|out| - 1] == OpenItem(path)
  {
    out := items;
    ghost var good := Replay(items) == Open(leak + Prefixes(path[..k]));
    for ii := k to |path| - 1
      invariant good ==>
                  Replay(out) == Open(leak + Prefixes(path[..ii])) && Places(out) == Places(items)
    {
      if good { OpenNext(out, leak, path, ii); }
      var it := OpenItem(path[..ii + 1]);
      out := out + [it];
    }
    if good {
      OpenNext(out, leak, path, |path| - 1);
      assert path[..|path| - 1 + 1] == path;
    }
    out := out + [OpenItem(path)];
  }

  /** Close what is open beside the way to parents; the first common sections of that way stay open. */
  method CloseBeside(output: seq<ConfigItem>, parents: seq<string>, ghost leak: Stack, ghost path: seq<string>)
    returns (out: seq<ConfigItem>, common: nat)
    requires parents != [] && output != [] && output[|output| - 1].name == CLOSE
    ensures common < |parents|
    ensures JustClosed(output, leak, path) ==>
              Replay(out) == Open(leak + Prefixes(parents[..common])) && Places(out) == Places(output)
  {
    common := 0;
    var msize := if |parents| > 1 then |parents| else 2;
    out := CloseDownTo(output, msize - 1, leak, path);
    var last := out[|out| - 1].parents;
    if |parents| > 1 {
      var mpair := if |last| < |parents| - 1 then |last| else |parents| - 1;
      common := CommonPrefix(last, parents, mpair);
      if common == mpair {
        assert last == parents[..common];
        if JustClosed(output, leak, path) { JustClosedReplay(out, leak, last); }
        out := out[..|out| - 1];
      } else {
        out := CloseDownTo(out, common + 1, leak, last);
        if JustClosed(output, leak, path) {
          var r := out[|out| - 1].parents;
          JustClosedReplay(out, leak, r);
          assert r[..|r| - 1] == last[..common] == parents[..common];
        }
      }
    } else if JustClosed(output, leak, path) {
      JustClosedReplay(out, leak, last);
      assert last[..|last| - 1] == parents[..common];
    }
  }

  /**
    At the header of the section at parents: close what is open beside it, open what is
    missing on the way to it, and open it.  Afterwards exactly the sections on the way to
    parents are open, above what was left open before; and no key is lost or moved.
   */
  method CheckParentSegments(output: seq<ConfigItem>, parents: seq<string>, ghost leak: Stack)
    returns (out: seq<ConfigItem>)
    requires parents != []
    ensures AtHeader(output, leak) ==> Replay(out) == Open(leak + Prefixes(parents)) && Places(out) == Places(output)
    ensures out != [] && out[|out| - 1] == OpenItem(parents)
  {
    var common := 0;
    if output != [] && output[|output| - 1].name == CLOSE {
      out, common := CloseBeside(output, parents, leak, output[|output| - 1].parents);
    } else {
      out := output;
      assert leak + Prefixes(parents[..common]) == leak;
    }
    out := OpenFrom(out, parents, common, leak);
  }
}
