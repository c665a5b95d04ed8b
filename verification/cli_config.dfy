/**
  The reader of configuration files with the TOML defaults: '#' starts a comment, '[' and ']'
  enclose arrays, ',' separates values, '=' separates a key from its value, '.' separates
  sections.
 */
module CliConfig {
  import opened CliText
  import opened CliValues
  import opened CliSections

  const DEFAULT := "default"
  const MAXIMUM_LAYERS := 255

  // ---------------------------------------------------------------- lines

  datatype Line = Skip | Header(section: string) | Key(name: string, inputs: seq<string>)

  /** The section that a header line names. */
  function HeaderOf(line: string): (s: string)
    requires |line| >= 3
    ensures s == DEFAULT || ToLower(s) != DEFAULT
  {
    var inner := line[1..|line| - 1];
    var s := if |inner| > 1 && inner[0] == '[' && inner[|inner| - 1] == ']' then inner[1..|inner| - 1] else inner;
    if ToLower(s) == DEFAULT then DEFAULT else s
  }

  /** An array goes on over the following lines until it is closed or the input ends. */
  function Continued(item: string, lines: seq<string>): (r: (string, seq<string>))
    requires item != ""
    ensures |r.1| <= |lines|
    decreases |lines|
  {
    if item[|item| - 1] == ']' || lines == [] then (item, lines) else Continued(item + Trim(lines[0]), lines[1..])
  }

  method ContinueArray(item: string, lines: seq<string>) returns (whole: string, rest: seq<string>)
    requires item != ""
    ensures (whole, rest) == Continued(item, lines)
  {
    whole, rest := item, lines;
    while whole[|whole| - 1] != ']' && rest != []
      invariant whole != "" && Continued(whole, rest) == Continued(item, lines)
      decreases |rest|
    {
      whole, rest := whole + Trim(rest[0]), rest[1..];
    }
  }

  /** A value with the lines that belong to it. */
  function WholeItem(item: string, lines: seq<string>): (r: (string, seq<string>))
    ensures |r.1| <= |lines|
  {
    if |item| > 1 && item[0] == '[' then Continued(item, lines) else (item, lines)
  }

  function CleanName(name: string): (r: string) { if '.' in name then name else RemoveQuotes(name) }

  /** A line with a key: its name and inputs, and the lines left after it. */
  function ReadKey(line: string, lines: seq<string>): (r: (Line, seq<string>))
    ensures r.0.Key? && |r.1| <= |lines|
  {
    var pos := Find(line, '=');
    if pos == |line| then (Key(CleanName(CutComment(Trim(line))), ["true"]), lines)
    else
      var item := CutComment(Trim(line[pos + 1..]));
      var r := WholeItem(item, lines);
      (Key(CleanName(Trim(line[..pos])), ReadValue(r.0)), r.1)
  }

  function ReadLine(lines: seq<string>): (r: (Line, seq<string>))
    requires lines != []
    ensures |r.1| < |lines| && (r.0.Header? ==> r.0.section == DEFAULT || ToLower(r.0.section) != DEFAULT)
  {
    var line := Trim(lines[0]);
    if |line| < 3 then (Skip, lines[1..])
    else if line[0] == '[' && line[|line| - 1] == ']' then (Header(HeaderOf(line)), lines[1..])
    else if line[0] == ';' || line[0] == '#' then (Skip, lines[1..])
    else ReadKey(line, lines[1..])
  }

  method SplitItem(item: string) returns (items: seq<string>)
    ensures items == ValuePieces(item)
  {
    if |item| > 1 && item[0] == '[' {
      items := SplitUp(item[1..|item| - 1], ',');
    } else if ',' in item {
      items := SplitUp(item, ',');
    } else if ' ' in item {
      items := SplitUp(item, '\0');
    } else {
      items := [item];
    }
  }

  /** The inputs in a value. */
  method ReadItems(item: string) returns (items: seq<string>)
    ensures items == ReadValue(item)
  {
    var pieces := SplitItem(item);
    items := pieces;
    for i := 0 to |items|
      invariant |items| == |pieces|
      invariant forall j | 0 <= j < i :: items[j] == RemoveQuotes(pieces[j])
      invariant forall j | i <= j < |items| :: items[j] == pieces[j]
    {
      items := items[i := RemoveQuotes(items[i])];
    }
    assert items == Unquoted(pieces);
  }

  lemma KeyParts(line: string, pos: nat, name: string, item: string, lines: seq<string>)
    requires Find(line, '=') == pos < |line| && CleanName(Trim(line[..pos])) == name &&
             CutComment(Trim(line[pos + 1..])) == item
    ensures var r := WholeItem(item, lines); ReadKey(line, lines) == (Key(name, ReadValue(r.0)), r.1)
  {
  }

  method TakeItem(item: string, lines: seq<string>) returns (whole: string, rest: seq<string>)
    ensures (whole, rest) == WholeItem(item, lines)
  {
    whole, rest := item, lines;
    if |item| > 1 && item[0] == '[' { whole, rest := ContinueArray(item, lines); }
  }

  method NextKey(text: string, lines: seq<string>) returns (line: Line, rest: seq<string>)
    ensures (line, rest) == ReadKey(text, lines)
  {
    rest := lines;
    var pos := Find(text, '=');
    if pos < |text| {
      var name, item := CleanName(Trim(text[..pos])), CutComment(Trim(text[pos + 1..]));
      var whole;
      whole, rest := TakeItem(item, lines);
      KeyParts(text, pos, name, item, lines);
      var items := ReadItems(whole);
      line := Key(name, items);
    } else {
      line := Key(CleanName(CutComment(Trim(text))), ["true"]);
    }
  }

  /** The next line, with the lines of its array. */
  method NextLine(lines: seq<string>) returns (line: Line, rest: seq<string>)
    requires lines != []
    ensures (line, rest) == ReadLine(lines)
  {
    var text := Trim(lines[0]);
    line, rest := Skip, lines[1..];
    if |text| < 3 { return; }
    if text[0] == '[' && text[|text| - 1] == ']' {
      line := Header(HeaderOf(text));
    } else if text[0] != ';' && text[0] != '#' {
      line, rest := NextKey(text, rest);
    }
  }

  function ReadAll(lines: seq<string>): (r: seq<Line>)
    decreases |lines|
  {
    if lines == [] then [] else var (line, rest) := ReadLine(lines); [line] + ReadAll(rest)
  }

  // ---------------------------------------------------------------- generate_parents

  function SectionParts(section: string): (r: seq<string>)
    ensures r == [] <==> ToLower(section) == DEFAULT
  {
    if ToLower(section) == DEFAULT then [] else if '.' in section then Split(section, '.') else [section]
  }

  /** The sections above a key, and the key's own name: a dotted name continues the section's path. */
  function GenerateParents(section: string, name: string): (r: (seq<string>, string)) {
    if '.' in name then
      var plist := Split(name, '.');
      (Unquoted(SectionParts(section) + plist[..|plist| - 1]), RemoveQuotes(plist[|plist| - 1]))
    else (Unquoted(SectionParts(section)), name)
  }

  /** The path of a section. */
  function Path(section: string): (r: seq<string>)
    ensures r == [] <==> ToLower(section) == DEFAULT
  {
    GenerateParents(section, "").0
  }

  // ---------------------------------------------------------------- what a file says

  /** The item of a key line in a section. */
  function ItemOf(section: string, line: Line): (it: ConfigItem)
    requires line.Key?
  {
    var (parents, name) := GenerateParents(section, line.name);
    ConfigItem(parents, name, line.inputs)
  }

  /** Keys under too many sections are dropped. */
  predicate Kept(section: string, line: Line) {
    line.Key? && |ItemOf(section, line).parents| <= MAXIMUM_LAYERS
  }

  /** The section after the first k lines. */
  ghost function Section(ls: seq<Line>, k: nat): string
    requires k <= |ls|
  {
    if k == 0 then DEFAULT else if ls[k - 1].Header? then ls[k - 1].section else Section(ls, k - 1)
  }

  /** The section that was left for [default] by the first k lines, if nothing has been read since. */
  ghost function Pending(ls: seq<Line>, k: nat): seq<string>
    requires k <= |ls|
  {
    if k == 0 then []
    else
      var section, line := Section(ls, k - 1), ls[k - 1];
      if line.Header? && line.section != DEFAULT then []
      else if line.Header? && section != DEFAULT then Path(section)
      else if Kept(section, line) then []
      else Pending(ls, k - 1)
  }

  function Above(path: seq<string>): (r: seq<string>) { if path == [] then [] else path[..|path| - 1] }

  /** The sections left open for good by the first k lines. */
  ghost function Leaked(ls: seq<Line>, k: nat): Stack
    requires k <= |ls|
  {
    if k == 0 then []
    else Leaked(ls, k - 1) + if Kept(Section(ls, k - 1), ls[k - 1]) then Prefixes(Above(Pending(ls, k - 1))) else []
  }

  ghost function LeftOpen(ls: seq<Line>): Stack {
    Leaked(ls, |ls|) + Prefixes(Above(Pending(ls, |ls|)))
  }

  /** After the first k lines, the last thing that had an effect was a kept key. */
  ghost predicate Adjacent(ls: seq<Line>, k: nat)
    requires k <= |ls|
  {
    k > 0
    && var section, line := Section(ls, k - 1), ls[k - 1];
       if line.Header? then section == DEFAULT == line.section && Adjacent(ls, k - 1)
       else Kept(section, line) || Adjacent(ls, k - 1)
  }

  /** One more key: if it is adjacent to the same key, that key gets its inputs, otherwise it has a place of its own. */
  ghost function Merged(ps: seq<Place>, adjacent: bool, pl: Place): seq<Place> {
    var n := |ps| - 1;
    if adjacent && ps != [] && ps[n].item.name == pl.item.name && ps[n].item.parents == pl.item.parents then
      ps[..n] + [ps[n].(item := ps[n].item.(inputs := ps[n].item.inputs + pl.item.inputs))]
    else ps + [pl]
  }

  /**
    The kept keys of the first k lines.  Where a key stands, exactly the sections on the way to
    its section are open, above those that were left open before.
   */
  ghost function Wanted(ls: seq<Line>, k: nat): seq<Place>
    requires k <= |ls|
  {
    if k == 0 then []
    else
      var section, line := Section(ls, k - 1), ls[k - 1];
      if Kept(section, line) then
        Merged(Wanted(ls, k - 1), Adjacent(ls, k - 1),
               Place(ItemOf(section, line), Open(Leaked(ls, k) + Prefixes(Path(section)))))
      else Wanted(ls, k - 1)
  }

  /** No key has the name of a section event. */
  ghost predicate Ordinary(ls: seq<Line>) {
    forall k | 0 <= k < |ls| && ls[k].Key? :: !IsEvent(ItemOf(Section(ls, k), ls[k]))
  }

  /**
    At line k, or at the end, the reader comes from a section inside another one, back in [default],
    and meets a key or the end.
   */
  ghost predicate Abandons(ls: seq<Line>, k: nat) {
    k <= |ls| && |Pending(ls, k)| > 1 && (k == |ls| || Kept(Section(ls, k), ls[k]))
  }

  // ---------------------------------------------------------------- the reader's state

  ghost predicate State(output: seq<ConfigItem>, section: string, pending: seq<string>, leak: Stack) {
    && (section != DEFAULT ==>
         ToLower(section) != DEFAULT && pending == [] && Replay(output) == Open(leak + Prefixes(Path(section))))
    && (section == DEFAULT && pending == [] ==>
         (output == [] || output[|output| - 1].name != CLOSE) && Replay(output) == Open(leak))
    && (section == DEFAULT && pending != [] ==> JustClosed(output, leak, pending))
  }

  /** The last entry is a key. */
  ghost predicate KeyLast(output: seq<ConfigItem>) { output != [] && !IsEvent(output[|output| - 1]) }

  /** Pushing the end of the current section. */
  lemma CloseCurrent(output: seq<ConfigItem>, section: string, leak: Stack)
    requires section != DEFAULT && State(output, section, [], leak)
    ensures JustClosed(output + [CloseItem(Path(section))], leak, Path(section))
    ensures Places(output + [CloseItem(Path(section))]) == Places(output)
  {
    var out := output + [CloseItem(Path(section))];
    assert out[..|out| - 1] == output;
    PlacesAppend(output, CloseItem(Path(section)));
  }

  ghost function PendingAfter(section: string, pending: seq<string>, s: string): seq<string> {
    if s != DEFAULT then [] else if section != DEFAULT then Path(section) else pending
  }

  /** A header: leave the current section, and enter the section s. */
  method EnterSection(output: seq<ConfigItem>, section: string, s: string, ghost pending: seq<string>,
      ghost leak: Stack)
    returns (out: seq<ConfigItem>)
    requires s == DEFAULT || ToLower(s) != DEFAULT
    ensures State(output, section, pending, leak) ==>
              State(out, s, PendingAfter(section, pending, s), leak) && Places(out) == Places(output)
    ensures KeyLast(out) <==> section == DEFAULT == s && KeyLast(output)
  {
    ghost var good := State(output, section, pending, leak);
    out := output;
    if section != DEFAULT {
      if good { CloseCurrent(output, section, leak); }
      out := out + [CloseItem(Path(section))];
    }
    if s != DEFAULT {
      if good { assert AtHeader(out, leak); }
      out := CheckParentSegments(out, Path(s), leak);
    }
  }

  lemma DefaultPath()
    ensures Path(DEFAULT) == []
  {
    assert ToLower(DEFAULT) == DEFAULT;
  }

  /** What is open where a key stands. */
  lemma OpenAtKey(output: seq<ConfigItem>, section: string, pending: seq<string>, leak: Stack)
    requires State(output, section, pending, leak)
    ensures Replay(output) == Open(leak + Prefixes(Above(pending)) + Prefixes(Path(section)))
  {
    DefaultPath();
    assert Prefixes([]) == [];
    assert leak + Prefixes(Above(pending)) + [] == leak + Prefixes(Above(pending));
    if section == DEFAULT && pending != [] {
      JustClosedReplay(output, leak, pending);
    } else {
      assert leak + [] == leak;
    }
  }

  lemma {:induction false} LastPlace(output: seq<ConfigItem>)
    requires KeyLast(output)
    ensures var n := |output| - 1;
            Places(output) == Places(output[..n]) + [Place(output[n], Replay(output[..n]))] &&
              Replay(output) == Replay(output[..n])
  {
  }

  lemma {:induction false} AppendKey(output: seq<ConfigItem>, it: ConfigItem)
    requires !IsEvent(it)
    requires !(KeyLast(output) && output[|output| - 1].name == it.name && output[|output| - 1].parents == it.parents)
    ensures Replay(output + [it]) == Replay(output)
    ensures Places(output + [it]) == Merged(Places(output), KeyLast(output), Place(it, Replay(output)))
  {
    ReplayAppend(output, it);
    PlacesAppend(output, it);
    if KeyLast(output) { LastPlace(output); }
  }

  lemma {:induction false} MergeKey(front: seq<ConfigItem>, last: ConfigItem, it: ConfigItem)
    requires !IsEvent(it) && last.name == it.name && last.parents == it.parents
    ensures
      var output, out := front + [last], front + [last.(inputs := last.inputs + it.inputs)];
      Replay(out) == Replay(output) && Places(out) == Merged(Places(output), true, Place(it, Replay(output)))
  {
    var both := last.(inputs := last.inputs + it.inputs);
    ReplayAppend(front, last);
    ReplayAppend(front, both);
    PlacesAppend(front, last);
    PlacesAppend(front, both);
  }

  /** Add the inputs to the last entry if that is the same key, otherwise append an entry. */
  method PutItem(output: seq<ConfigItem>, it: ConfigItem) returns (out: seq<ConfigItem>)
    ensures out != [] && out[|out| - 1].name == it.name
    ensures !IsEvent(it) ==>
              Replay(out) == Replay(output) &&
                Places(out) == Merged(Places(output), KeyLast(output), Place(it, Replay(output)))
  {
    if output != [] && it.name == output[|output| - 1].name && it.parents == output[|output| - 1].parents {
      var front, last := output[..|output| - 1], output[|output| - 1];
      assert output == front + [last];
      out := front + [last.(inputs := last.inputs + it.inputs)];
      if !IsEvent(it) { MergeKey(front, last, it); }
    } else {
      out := output + [it];
      if !IsEvent(it) { AppendKey(output, it); }
    }
  }

  /** A line with a key. */
  method AddKey(output: seq<ConfigItem>, section: string, line: Line, ghost pending: seq<string>, ghost leak: Stack)
    returns (out: seq<ConfigItem>)
    requires line.Key?
    ensures !Kept(section, line) ==> out == output
    ensures
      var more, it := leak + Prefixes(Above(pending)), ItemOf(section, line);
      Kept(section, line) && !IsEvent(it) && State(output, section, pending, leak) ==>
        && State(out, section, [], more) && KeyLast(out)
        && Places(out) == Merged(Places(output), KeyLast(output), Place(it, Open(more + Prefixes(Path(section)))))
  {
    var it := ItemOf(section, line);
    if |it.parents| > MAXIMUM_LAYERS { return output; }
    out := PutItem(output, it);
    if !IsEvent(it) && State(output, section, pending, leak) {
      OpenAtKey(output, section, pending, leak);
      KeyState(output, out, section, pending, leak);
    }
  }

  lemma KeyState(output: seq<ConfigItem>, out: seq<ConfigItem>, section: string, pending: seq<string>, leak: Stack)
    requires State(output, section, pending, leak) && out != [] && out[|out| - 1].name != CLOSE
    requires Replay(out) == Open(leak + Prefixes(Above(pending)) + Prefixes(Path(section)))
    ensures State(out, section, [], leak + Prefixes(Above(pending)))
  {
    DefaultPath();
    var more := leak + Prefixes(Above(pending));
    assert more + Prefixes([]) == more;
  }

  /** The end of the input: close the current section and all sections around it. */
  method CloseAll(output: seq<ConfigItem>, section: string, ghost pending: seq<string>, ghost leak: Stack)
    returns (out: seq<ConfigItem>)
    ensures State(output, section, pending, leak) ==>
              Replay(out) == Open(leak + Prefixes(Above(pending))) && Places(out) == Places(output)
  {
    ghost var good := State(output, section, pending, leak);
    out := output;
    if section != DEFAULT {
      if good { CloseCurrent(output, section, leak); }
      out := out + [CloseItem(Path(section))];
      out := CloseDownTo(out, 1, leak, Path(section));
      if good {
        var last := out[|out| - 1].parents;
        JustClosedReplay(out, leak, last);
        assert Prefixes(last[..|last| - 1]) == [];
      }
      assert leak + [] == leak && Prefixes(Above([])) == [];
    } else if good {
      OpenAtKey(output, section, pending, leak);
      DefaultPath();
      assert leak + Prefixes(Above(pending)) + Prefixes([]) == leak + Prefixes(Above(pending));
    }
  }

  // ---------------------------------------------------------------- from_config

  /** What holds after the first k lines. */
  ghost predicate Reached(ls: seq<Line>, k: nat, output: seq<ConfigItem>) {
    && k <= |ls|
    && State(output, Section(ls, k), Pending(ls, k), Leaked(ls, k))
    && Places(output) == Wanted(ls, k)
    && KeyLast(output) == Adjacent(ls, k)
  }

  lemma HeaderReached(ls: seq<Line>, k: nat, output: seq<ConfigItem>, out: seq<ConfigItem>)
    requires k < |ls| && ls[k].Header? && Reached(ls, k, output) && Places(out) == Places(output)
    requires State(out, ls[k].section, PendingAfter(Section(ls, k), Pending(ls, k), ls[k].section), Leaked(ls, k))
    requires KeyLast(out) <==> Section(ls, k) == DEFAULT == ls[k].section && KeyLast(output)
    ensures Reached(ls, k + 1, out)
  {
    AfterHeader(ls, k);
  }

  lemma AfterHeader(ls: seq<Line>, k: nat)
    requires k < |ls| && ls[k].Header?
    ensures Leaked(ls, k + 1) == Leaked(ls, k) && Wanted(ls, k + 1) == Wanted(ls, k) &&
            Section(ls, k + 1) == ls[k].section
    ensures Pending(ls, k + 1) == PendingAfter(Section(ls, k), Pending(ls, k), ls[k].section)
    ensures Adjacent(ls, k + 1) <==> Section(ls, k) == DEFAULT == ls[k].section && Adjacent(ls, k)
  {
    assert Leaked(ls, k + 1) == Leaked(ls, k) + [] == Leaked(ls, k);
  }

  lemma IdleReached(ls: seq<Line>, k: nat, output: seq<ConfigItem>)
    requires k < |ls| && !ls[k].Header? && !Kept(Section(ls, k), ls[k]) && Reached(ls, k, output)
    ensures Reached(ls, k + 1, output)
  {
    assert Leaked(ls, k + 1) == Leaked(ls, k) + [] == Leaked(ls, k);
  }

  lemma KeyReached(ls: seq<Line>, k: nat, output: seq<ConfigItem>, out: seq<ConfigItem>)
    requires k < |ls| && ls[k].Key? && Kept(Section(ls, k), ls[k]) && Reached(ls, k, output)
    requires State(out, Section(ls, k), [], Leaked(ls, k + 1)) && KeyLast(out)
    requires
      var section := Section(ls, k);
      Places(out) == Merged(Places(output), KeyLast(output),
                            Place(ItemOf(section, ls[k]), Open(Leaked(ls, k + 1) + Prefixes(Path(section)))))
    ensures Reached(ls, k + 1, out)
  {
  }

  /** One line of the file. */
  method TakeLine(output: seq<ConfigItem>, section: string, line: Line, ghost ls: seq<Line>, ghost k: nat)
    returns (out: seq<ConfigItem>, current: string)
    requires k < |ls| && ls[k] == line && section == Section(ls, k)
    requires line.Header? ==> line.section == DEFAULT || ToLower(line.section) != DEFAULT
    ensures current == Section(ls, k + 1)
    ensures Ordinary(ls) && Reached(ls, k, output) ==> Reached(ls, k + 1, out)
  {
    ghost var pending, leak := Pending(ls, k), Leaked(ls, k);
    ghost var good := Ordinary(ls) && Reached(ls, k, output);
    out, current := output, section;
    match line
    case Skip =>
      if good { IdleReached(ls, k, output); }
    case Header(s) =>
      out := EnterSection(output, section, s, pending, leak);
      current := s;
      if good { HeaderReached(ls, k, output, out); }
    case Key(_, _) =>
      out := AddKey(output, section, line, pending, leak);
      if good {
        if Kept(section, line) { KeyReached(ls, k, output, out); } else { IdleReached(ls, k, output); }
      }
  }

  lemma NothingRead(ls: seq<Line>)
    ensures Reached(ls, 0, [])
  {
    assert Replay([]) == Open([]);
  }

  /**
    Read a file.  Replaying the section events never mismatches; exactly the sections of LeftOpen
    stay open, none if and only if the file never abandons a nested section; and the keys are
    those of the file, in order, each with its inputs and standing in its section.
   */
  method FromConfig(lines: seq<string>) returns (output: seq<ConfigItem>)
    ensures
      var ls := ReadAll(lines);
      Ordinary(ls) ==>
        && Replay(output) == Open(LeftOpen(ls))
        && (Replay(output) == Open([]) <==> forall k | 0 <= k <= |ls| :: !Abandons(ls, k))
        && Places(output) == Wanted(ls, |ls|)
  {
    var section;
    ghost var ls := ReadAll(lines);
    output, section := ReadLines(lines);
    output := CloseAll(output, section, Pending(ls, |ls|), Leaked(ls, |ls|));
    NestedIff(ls);
  }

  /** The loop over the lines. */
  method ReadLines(lines: seq<string>) returns (output: seq<ConfigItem>, section: string)
    ensures
      var ls := ReadAll(lines);
      section == Section(ls, |ls|) && (Ordinary(ls) ==> Reached(ls, |ls|, output))
  {
    var rest := lines;
    output, section := [], DEFAULT;
    ghost var ls, k := ReadAll(lines), 0;
    NothingRead(ls);
    assert ls[0..] == ls;
    while rest != []
      invariant ReadSoFar(rest, ls, k, section, output)
      decreases |rest|
    {
      rest, output, section := ReadOne(rest, output, section, ls, k);
      k := k + 1;
    }
    AllRead(ls, k, section, output);
  }

  /** The first k lines have been read, and the rest are still to come. */
  ghost predicate ReadSoFar(rest: seq<string>, ls: seq<Line>, k: nat, section: string, output: seq<ConfigItem>) {
    && k <= |ls| && ReadAll(rest) == ls[k..] && section == Section(ls, k)
    && (Ordinary(ls) ==> Reached(ls, k, output))
  }

  lemma AllRead(ls: seq<Line>, k: nat, section: string, output: seq<ConfigItem>)
    requires ReadSoFar([], ls, k, section, output)
    ensures k == |ls|
  {
    assert |ls[k..]| == 0;
  }

  /** One turn of it. */
  method ReadOne(lines: seq<string>, output: seq<ConfigItem>, section: string, ghost ls: seq<Line>, ghost k: nat)
    returns (rest: seq<string>, out: seq<ConfigItem>, current: string)
    requires lines != [] && ReadSoFar(lines, ls, k, section, output)
    ensures |rest| < |lines| && ReadSoFar(rest, ls, k + 1, current, out)
  {
    var line;
    line, rest := NextLine(lines);
    assert ls[k..][0] == line && ls[k + 1..] == ls[k..][1..] == ReadAll(rest);
    out, current := TakeLine(output, section, line, ls, k);
  }

  // ---------------------------------------------------------------- when the sections nest

  lemma NoneLeft(leak: Stack, path: seq<string>)
    ensures leak + Prefixes(Above(path)) == [] <==> leak == [] && |path| <= 1
  {
    assert |leak + Prefixes(Above(path))| == |leak| + |Above(path)|;
  }

  lemma LeakedStep(ls: seq<Line>, k: nat)
    requires k < |ls|
    ensures Leaked(ls, k + 1) == [] <==> Leaked(ls, k) == [] && !Abandons(ls, k)
  {
    NoneLeft(Leaked(ls, k), Pending(ls, k));
    assert Leaked(ls, k) + [] == Leaked(ls, k);
  }

  ghost predicate NoneBefore(bad: nat -> bool, k: nat) { k == 0 || (NoneBefore(bad, k - 1) && !bad(k - 1)) }

  lemma {:induction false} NoneBeforeAll(bad: nat -> bool, k: nat)
    ensures NoneBefore(bad, k) <==> forall i: nat | i < k :: !bad(i)
  {
    if k > 0 { NoneBeforeAll(bad, k - 1); }
  }

  ghost function Abandoned(ls: seq<Line>): nat -> bool { (i: nat) => Abandons(ls, i) }

  lemma {:induction false} LeakedIff(ls: seq<Line>, k: nat)
    requires k <= |ls|
    ensures Leaked(ls, k) == [] <==> NoneBefore(Abandoned(ls), k)
  {
    if k > 0 {
      LeakedIff(ls, k - 1);
      LeakedStep(ls, k - 1);
    }
  }

  /**
    The sections nest exactly when no section inside another one is left for [default]
    with a key or the end of the file coming next.
   */
  lemma NestedIff(ls: seq<Line>)
    ensures LeftOpen(ls) == [] <==> forall k | 0 <= k <= |ls| :: !Abandons(ls, k)
  {
    var bad := Abandoned(ls);
    LeakedIff(ls, |ls|);
    NoneBeforeAll(bad, |ls| + 1);
    NoneLeft(Leaked(ls, |ls|), Pending(ls, |ls|));
    assert bad(|ls|) <==> |Pending(ls, |ls|)| > 1;
    assert forall i: nat :: bad(i) == Abandons(ls, i);
  }

  /** A file that never returns to [default] nests. */
  lemma {:induction false} NeverBack(ls: seq<Line>, k: nat)
    requires k <= |ls| && forall i | 0 <= i < |ls| && ls[i].Header? :: ls[i].section != DEFAULT
    ensures Pending(ls, k) == []
  {
    if k > 0 { NeverBack(ls, k - 1); }
  }

  lemma NestsUnlessBack(ls: seq<Line>)
    requires forall i | 0 <= i < |ls| && ls[i].Header? :: ls[i].section != DEFAULT
    ensures LeftOpen(ls) == []
  {
    forall k | 0 <= k <= |ls| ensures !Abandons(ls, k) { NeverBack(ls, k); }
    NestedIff(ls);
  }

  lemma PathOfTwo()
    ensures Path("a.b") == ["a", "b"]
  {
    assert "a.b"[1] == '.' && Find("a.b", '.') == 1 && "a.b"[2..] == "b" && "a.b"[..1] == "a";
    assert Find("b", '.') == 1;
    assert SplitLines("a.b", '.') == ["a", "b"];
    assert ToLower("a.b") != DEFAULT;
  }

  /** A file that does not nest: a section "a.b", and then [default]; the section "a" stays open. */
  lemma StaysOpen()
    ensures LeftOpen([Header("a.b"), Header(DEFAULT)]) == [["a"]]
  {
    var ls := [Header("a.b"), Header(DEFAULT)];
    PathOfTwo();
    assert Section(ls, 1) == "a.b" && Pending(ls, 2) == ["a", "b"];
    assert Leaked(ls, 0) == [] && Leaked(ls, 1) == [] && Leaked(ls, 2) == [];
    assert Above(["a", "b"]) == ["a"] && ["a"][..1] == ["a"];
  }
}
