/**
  What a line of a configuration file means: where a dotted key belongs, which lines are comments
  and headers, what a comment behind a value changes, and how an array goes on over lines.
 */
module CliKeys {
  import opened CliText
  import opened CliValues
  import opened CliSections
  import opened CliConfig
  import opened CliRoundTrip

  // ---------------------------------------------------------------- dotted names

  /** Names put together with dots. */
  function Dotted(parts: seq<string>): (r: string) { JoinWith(parts, '.') }

  predicate EndsInDot(s: string) { s != "" && s[|s| - 1] == '.' }

  predicate NoQuotes(s: string) { '"' !in s && '\'' !in s }

  lemma {:induction false} PartsPlain(s: string, c: char)
    requires NoQuotes(s)
    ensures forall i | 0 <= i < |SplitLines(s, c)| :: NoQuotes(SplitLines(s, c)[i])
    decreases |s|
  {
    if s != "" {
      var i := Find(s, c);
      if i < |s| { PartsPlain(s[i + 1..], c); }
    }
  }

  lemma UnquotedPlain(parts: seq<string>)
    requires forall i | 0 <= i < |parts| :: NoQuotes(parts[i])
    ensures Unquoted(parts) == parts
  {
    forall i | 0 <= i < |parts| ensures RemoveQuotes(parts[i]) == parts[i] {
      assert |parts[i]| > 0 ==> parts[i][0] in parts[i];
    }
  }

  lemma RemovesNothing(s: string)
    requires NoQuotes(s)
    ensures RemoveQuotes(s) == s
  {
    assert |s| > 0 ==> s[0] in s;
  }

  // ---------------------------------------------------------------- where a key belongs

  /** A key stands in its section or in one inside it. */
  lemma KeyInSection(section: string, line: Line)
    requires line.Key?
    ensures Path(section) <= ItemOf(section, line).parents
  {
    if '.' in line.name {
      var plist := Split(line.name, '.');
      var own := plist[..|plist| - 1];
      UnquotedJoin(SectionParts(section), own);
    }
  }

  lemma UnquotedJoin(a: seq<string>, b: seq<string>)
    ensures Unquoted(a + b) == Unquoted(a) + Unquoted(b)
  {
  }

  /** The parts of a section, put together, are the section. */
  lemma SectionJoins(section: string)
    requires ToLower(section) != DEFAULT && NoQuotes(section)
    ensures Unquoted(SectionParts(section)) == SectionParts(section)
    ensures Dotted(SectionParts(section)) == if EndsInDot(section) then section[..|section| - 1] else section
  {
    PartsPlain(section, '.');
    if '.' in section {
      SplitThenJoin(section, '.');
    }
    UnquotedPlain(SectionParts(section));
  }

  /** The parts of a key's text, put together, are the text. */
  lemma NameJoins(name: string)
    requires NoQuotes(name) && '.' in name
    ensures Unquoted(Split(name, '.')) == Split(name, '.')
    ensures Dotted(Split(name, '.')) == if EndsInDot(name) then name[..|name| - 1] else name
  {
    PartsPlain(name, '.');
    SplitThenJoin(name, '.');
    UnquotedPlain(Split(name, '.'));
  }

  /** The parents and the name of a key's entry, in one list. */
  function FullName(section: string, line: Line): (r: seq<string>)
    requires line.Key?
  {
    ItemOf(section, line).parents + [ItemOf(section, line).name]
  }

  /** The full name of a key is that of its section and then that of its own text. */
  lemma FullNameIs(section: string, line: Line)
    requires line.Key? && NoQuotes(section) && NoQuotes(line.name)
    ensures FullName(section, line) ==
            SectionParts(section) + if '.' in line.name then Split(line.name, '.') else [line.name]
  {
    SectionUnquoted(section);
    if '.' in line.name { DottedName(section, line); }
  }

  lemma SectionUnquoted(section: string)
    requires NoQuotes(section)
    ensures Unquoted(SectionParts(section)) == SectionParts(section)
  {
    if ToLower(section) != DEFAULT { SectionJoins(section); }
  }

  lemma DottedName(section: string, line: Line)
    requires line.Key? && NoQuotes(section) && NoQuotes(line.name) && '.' in line.name
    ensures FullName(section, line) == SectionParts(section) + Split(line.name, '.')
  {
    var plist := Split(line.name, '.');
    var front, last := plist[..|plist| - 1], plist[|plist| - 1];
    SectionUnquoted(section);
    PartsPlain(line.name, '.');
    UnquotedPlain(front);
    UnquotedJoin(SectionParts(section), front);
    RemovesNothing(last);
    LastApart(SectionParts(section), plist);
  }

  lemma LastApart(a: seq<string>, plist: seq<string>)
    requires plist != []
    ensures a + plist[..|plist| - 1] + [plist[|plist| - 1]] == a + plist
  {
  }

  lemma {:induction false} OwnName(name: string)
    requires NoQuotes(name)
    ensures Dotted(if '.' in name then Split(name, '.') else [name]) ==
            if EndsInDot(name) then name[..|name| - 1] else name
  {
    if '.' in name {
      NameJoins(name);
    }
  }

  /**
    The full name of a key, put together with dots, is the section, a dot and the text of the key; in
    [default] it is the text alone.  This holds exactly if neither ends in a dot.
   */
  lemma {:induction false} FullNameIff(section: string, line: Line)
    requires line.Key? && NoQuotes(section) && NoQuotes(line.name)
    ensures ToLower(section) == DEFAULT ==> (Dotted(FullName(section, line)) == line.name <==> !EndsInDot(line.name))
    ensures ToLower(section) != DEFAULT ==>
              (Dotted(FullName(section, line)) == section + "." + line.name
               <==> !EndsInDot(section) && !EndsInDot(line.name))
  {
    FullNameIs(section, line);
    OwnName(line.name);
    var own := if '.' in line.name then Split(line.name, '.') else [line.name];
    if ToLower(section) == DEFAULT {
      assert [] + own == own;
    } else {
      SectionJoins(section);
      JoinApart(SectionParts(section), own, '.');
    }
  }

  // ---------------------------------------------------------------- blanks

  predicate Blank(s: string) { forall i | 0 <= i < |s| :: IsSpace(s[i]) }

  /** Blanks behind a text do not matter. */
  lemma TrimBehind(s: string, b: string)
    requires Tight(s) && s != "" && Blank(b)
    ensures Trim(s + b) == s
  {
    var x := Rtrim(s + b);
    assert (s + b)[|s| - 1] == s[|s| - 1];
    assert |x| >= |s|;
    assert x == s;
  }

  /** Nor do blanks in front, for what a text starts with. */
  lemma TrimStart(b: string, s: string)
    requires Blank(b) && s != "" && !IsSpace(s[0])
    ensures Trim(b + s) != "" && Trim(b + s)[0] == s[0]
  {
    var all := b + s;
    var x := Rtrim(all);
    assert all[|b|] == s[0];
    assert |x| > |b| && x[|b|] == s[0];
    var r := Ltrim(x);
    var k := |x| - |r|;
    assert k <= |b|;
  }

  // ---------------------------------------------------------------- comments and headers

  /** A line whose first character is a comment sign says nothing. */
  lemma CommentLine(b: string, text: string, lines: seq<string>)
    requires Blank(b) && text != "" && (text[0] == '#' || text[0] == ';')
    ensures ReadLine([b + text] + lines) == (Skip, lines)
  {
    TrimStart(b, text);
    var all := [b + text] + lines;
    assert all[0] == b + text && all[1..] == lines;
  }

  predicate Bracketed(s: string) { |s| > 1 && s[0] == '[' && s[|s| - 1] == ']' }

  /** The name that a header gives to the section: [default] in any spelling is the default section. */
  predicate Names(line: Line, s: string) {
    line.Header? && if ToLower(s) == "default" then line.section == "default" else line.section == s
  }

  lemma HeaderLine(s: string, lines: seq<string>)
    requires s != "" && !Bracketed(s)
    ensures var r := ReadLine(["[" + s + "]"] + lines); Names(r.0, s) && r.1 == lines
  {
    var line := "[" + s + "]";
    Enclosed(line, s, lines);
    assert line[1..|line| - 1] == s;
  }

  /** Double brackets name the same section. */
  lemma DoubleHeaderLine(s: string, lines: seq<string>)
    ensures var r := ReadLine(["[[" + s + "]]"] + lines); Names(r.0, s) && r.1 == lines
  {
    var inner := "[" + s + "]";
    var line := "[" + inner + "]";
    assert "[[" + s + "]]" == line;
    Enclosed(line, inner, lines);
    assert line[1..|line| - 1] == inner && inner[1..|inner| - 1] == s;
  }

  lemma Enclosed(line: string, s: string, lines: seq<string>)
    requires s != "" && line == "[" + s + "]"
    ensures ReadLine([line] + lines) == (Header(HeaderOf(line)), lines)
  {
    TrimTight(line);
    var all := [line] + lines;
    assert all[0] == line && all[1..] == lines;
  }

  // ---------------------------------------------------------------- keys

  /** A line of a key and its value, with what comes before a comment sign. */
  lemma KeyLine(name: string, t: string, lines: seq<string>)
    requires PlainName(name) && t != "" && Tight(t)
    ensures
      var r := WholeItem(CutComment(t), lines);
      ReadLine([name + "=" + t] + lines) == (Key(name, ReadValue(r.0)), r.1)
  {
    NamedLine(name, name, t, lines);
  }

  lemma NamedLine(written: string, name: string, t: string, lines: seq<string>)
    requires written != "" && Tight(written) && '=' !in written && written[0] !in "[;#" && CleanName(written) == name
    requires t != "" && Tight(t)
    ensures
      var r := WholeItem(CutComment(t), lines);
      ReadLine([written + "=" + t] + lines) == (Key(name, ReadValue(r.0)), r.1)
  {
    var line := written + "=" + t;
    KeyShape(line, written, t);
    TrimTight(line);
    TrimTight(written);
    TrimTight(t);
    KeyParts(line, |written|, name, CutComment(t), lines);
    LineIsKey(line, lines);
  }

  lemma KeyShape(line: string, name: string, t: string)
    requires name != "" && Tight(name) && '=' !in name && t != "" && Tight(t) && line == name + "=" + t
    ensures Tight(line) && |line| >= 3 && line[0] == name[0]
    ensures Find(line, '=') == |name| && line[..|name|] == name && line[|name| + 1..] == t
  {
    assert line[|line| - 1] == t[|t| - 1] && line[0] == name[0];
    assert line[|name|] == '=' && forall j | 0 <= j < |name| :: line[j] == name[j];
  }

  /** A key without dots may be quoted. */
  lemma QuotedKey(q: char, n: string, t: string, lines: seq<string>)
    requires q in {'"', '\''} && '=' !in n && '.' !in n && t != "" && Tight(t)
    ensures
      var r := WholeItem(CutComment(t), lines);
      ReadLine([[q] + n + [q] + "=" + t] + lines) == (Key(n, ReadValue(r.0)), r.1)
  {
    var name := [q] + n + [q];
    QuotedName(q, n, name);
    NamedLine(name, n, t, lines);
  }

  lemma QuotedName(q: char, n: string, name: string)
    requires q in {'"', '\''} && '=' !in n && '.' !in n && name == [q] + n + [q]
    ensures Tight(name) && '=' !in name && CleanName(name) == n && name[0] == q
  {
    assert name[0] == q && name[|name| - 1] == q && name[1..|name| - 1] == n;
  }

  /** What follows a comment sign behind a value does not matter. */
  lemma CommentBehind(name: string, t: string, b: string, c: string, lines: seq<string>)
    requires PlainName(name) && t != "" && Tight(t) && '#' !in t && Blank(b)
    ensures ReadLine([name + "=" + t + b + "#" + c] + lines) == ReadLine([name + "=" + t] + lines)
  {
    var c' := Rtrim(c);
    var item := t + b + "#" + c';
    CommentCut(t, b, c');
    KeyLine(name, t, lines);
    KeyLine(name, item, lines);
    LateBlanks(name, t, b, c, c', lines);
  }

  lemma CommentCut(t: string, b: string, c: string)
    requires t != "" && Tight(t) && '#' !in t && Blank(b) && (c == "" || !IsSpace(c[|c| - 1]))
    ensures Tight(t + b + "#" + c) && CutComment(t + b + "#" + c) == t == CutComment(t)
  {
    var item := t + b + "#" + c;
    var n := |t| + |b|;
    assert item[0] == t[0] && item[n] == '#';
    assert c != "" ==> item[|item| - 1] == c[|c| - 1];
    assert item[..n] == t + b;
    forall j | 0 <= j < n ensures item[j] != '#' {
      if j < |t| { assert item[j] == t[j]; } else { assert item[j] == b[j - |t|]; }
    }
    assert Find(item, '#') == n;
    TrimBehind(t, b);
  }

  /** Blanks at the end of a line do not matter. */
  lemma LateBlanks(name: string, t: string, b: string, c: string, c': string, lines: seq<string>)
    requires PlainName(name) && t != "" && Tight(t) && c' == Rtrim(c)
    ensures ReadLine([name + "=" + t + b + "#" + c] + lines) == ReadLine([name + "=" + (t + b + "#" + c')] + lines)
  {
    var short, long, late := name + "=" + (t + b + "#" + c'), name + "=" + t + b + "#" + c, c[|c'|..];
    LateApart(name, t, b, c, c', late);
    TightLine(name, t, b, c');
    TrimBehind(short, late);
    TrimTight(short);
    SameText(long, short, lines);
  }

  lemma LateApart(name: string, t: string, b: string, c: string, c': string, late: string)
    requires c == c' + late
    ensures name + "=" + t + b + "#" + c == name + "=" + (t + b + "#" + c') + late
  {
  }

  lemma TightLine(name: string, t: string, b: string, c: string)
    requires PlainName(name) && (c == "" || !IsSpace(c[|c| - 1]))
    ensures name + "=" + (t + b + "#" + c) != "" && Tight(name + "=" + (t + b + "#" + c))
  {
    var line := name + "=" + (t + b + "#" + c);
    assert line[0] == name[0] && line[|line| - 1] == if c == "" then '#' else c[|c| - 1];
  }

  lemma SameText(x: string, y: string, lines: seq<string>)
    requires Trim(x) == Trim(y)
    ensures ReadLine([x] + lines) == ReadLine([y] + lines)
  {
    assert ([x] + lines)[0] == x && ([y] + lines)[0] == y && ([x] + lines)[1..] == lines == ([y] + lines)[1..];
  }

  /** An array that is not closed goes on with the next line. */
  lemma ArrayGoesOn(name: string, a: string, b: string, lines: seq<string>)
    requires PlainName(name) && a != "" && a[|a| - 1] != ']' && !IsSpace(a[|a| - 1]) && '#' !in a
    requires b != "" && Tight(b) && '#' !in b
    ensures ReadLine([name + "=[" + a] + ([b] + lines)) == ReadLine([name + "=[" + a + b] + lines)
  {
    var first, whole := "[" + a, "[" + a + b;
    ArrayTexts(name, a, b);
    KeyLine(name, first, [b] + lines);
    KeyLine(name, whole, lines);
    TrimTight(b);
    TakesNext(first, b, lines);
  }

  lemma ArrayTexts(name: string, a: string, b: string)
    requires a != "" && !IsSpace(a[|a| - 1]) && '#' !in a && b != "" && Tight(b) && '#' !in b
    ensures name + "=[" + a == name + "=" + ("[" + a) && name + "=[" + a + b == name + "=" + ("[" + a + b)
    ensures Tight("[" + a) && CutComment("[" + a) == "[" + a
    ensures Tight("[" + a + b) && CutComment("[" + a + b) == "[" + a + b
  {
    var first, whole := "[" + a, "[" + a + b;
    assert first[|first| - 1] == a[|a| - 1] && whole[|whole| - 1] == b[|b| - 1];
    assert '#' !in first && '#' !in whole;
  }

  lemma {:induction false} TakesNext(item: string, b: string, lines: seq<string>)
    requires |item| > 1 && item[0] == '[' && item[|item| - 1] != ']' && Trim(b) == b
    ensures WholeItem(item, [b] + lines) == WholeItem(item + b, lines)
  {
    assert ([b] + lines)[0] == b && ([b] + lines)[1..] == lines;
  }

  /** A key without a value is true. */
  lemma FlagLine(name: string, lines: seq<string>)
    requires PlainName(name) && |name| >= 3 && '#' !in name
    ensures ReadLine([name] + lines) == (Key(name, ["true"]), lines)
  {
    TrimTight(name);
    LineIsKey(name, lines);
  }
}
