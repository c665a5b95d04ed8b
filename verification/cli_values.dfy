/**
  Values in configuration files: how a list of arguments is written, how a value is read
  back, and that reading undoes writing.
 */
module CliValues {
  import opened CliText

  predicate IsQuote(c: char) { c == '\'' || c == '"' || c == '`' }

  // ---------------------------------------------------------------- split_up

  /** The quote that closes s[0], skipping escaped ones; and whether one was skipped. */
  function ClosingQuote(s: string, key: char, k: nat): (r: (nat, bool))
    requires 1 <= k <= |s|
    ensures k <= r.0 <= |s|
    decreases |s| - k
  {
    var end := FindFirst(s, {key}, k);
    if end < |s| && s[end - 1] == '\\' then (ClosingQuote(s, key, end + 1).0, true) else (end, false)
  }

  /** Escaped quotes become quotes. */
  function Unescape(s: string, key: char): (r: string) {
    if |s| < 2 then s
    else if s[0] == '\\' && s[1] == key then [key] + Unescape(s[2..], key)
    else [s[0]] + Unescape(s[1..], key)
  }

  /** The delimiter 0 stands for blanks. */
  predicate Delimits(c: char, delimiter: char) {
    if delimiter == '\0' then IsSpace(c) else c == delimiter
  }

  function FindDelimiter(s: string, delimiter: char, k: nat): (i: nat)
    requires k <= |s|
    ensures k <= i <= |s| && (i < |s| ==> Delimits(s[i], delimiter)) &&
              forall j | k <= j < i :: !Delimits(s[j], delimiter)
    decreases |s| - k
  {
    if k == |s| || Delimits(s[k], delimiter) then k else FindDelimiter(s, delimiter, k + 1)
  }

  datatype Piece = Piece(value: string, rest: string)

  /** The first piece of a string and what comes after its delimiter. */
  function NextPiece(s: string, delimiter: char): (p: Piece)
    requires s != ""
    ensures |p.rest| < |s|
  {
    if IsQuote(s[0]) then
      var (end, embedded) := ClosingQuote(s, s[0], 1);
      var value := if end < |s| then s[1..end] else s[1..];
      Piece(if embedded then Unescape(value, s[0]) else value, if end + 2 < |s| then s[end + 2..] else "")
    else
      var i := FindDelimiter(s, delimiter, 0);
      if i < |s| then Piece(s[..i], s[i + 1..]) else Piece(s, "")
  }

  function Pieces(s: string, delimiter: char): (r: seq<string>)
    decreases |s|
  {
    if s == "" then [] else var p := NextPiece(s, delimiter); [p.value] + Pieces(Trim(p.rest), delimiter)
  }

  /** Split a string at delimiters outside quotes. */
  method SplitUp(text: string, delimiter: char) returns (output: seq<string>)
    ensures output == Pieces(Trim(text), delimiter)
  {
    var str := Trim(text);
    output := [];
    ghost var whole := Pieces(str, delimiter);
    while str != ""
      invariant output + Pieces(str, delimiter) == whole
      decreases |str|
    {
      var p := NextPiece(str, delimiter);
      ghost var rest := Pieces(Trim(p.rest), delimiter);
      assert Pieces(str, delimiter) == [p.value] + rest;
      Regroup(output, p.value, rest);
      output := output + [p.value];
      str := Trim(p.rest);
    }
  }

  lemma Regroup(xs: seq<string>, y: string, zs: seq<string>)
    ensures xs + ([y] + zs) == xs + [y] + zs
  {
  }

  // ---------------------------------------------------------------- convert_arg_for_ini, ini_join

  predicate IsHexDigit(c: char) { '0' <= c <= '9' || 'A' <= c <= 'F' || 'a' <= c <= 'f' }

  /** A hexadecimal, octal or binary literal. */
  predicate IsRadixLiteral(arg: string)
    requires |arg| >= 2
  {
    && arg[0] == '0'
    && (|| (arg[1] == 'x' && forall i | 2 <= i < |arg| :: IsHexDigit(arg[i]))
        || (arg[1] == 'o' && forall i | 2 <= i < |arg| :: '0' <= arg[i] <= '7')
        || (arg[1] == 'b' && forall i | 2 <= i < |arg| :: arg[i] == '0' || arg[i] == '1'))
  }

  /**
    One argument as it is written; isNumber is the test whether all of a string converts to a
    floating-point number.
   */
  function ConvertArg(arg: string, isNumber: string -> bool): (r: string) {
    if arg == "" then "\"\""
    else if arg in {"true", "false", "nan", "inf"} then arg
    else if !("0x" <= arg) && !("0X" <= arg) && isNumber(arg) then arg
    else if |arg| == 1 then "'" + arg + "'"
    else if IsRadixLiteral(arg) then arg
    else if '"' !in arg then "\"" + arg + "\""
    else "'" + arg + "'"
  }

  /** The arguments that are written as they are, without quotes: the four words, numbers and radix literals. */
  lemma AsItIsIff(arg: string, isNumber: string -> bool)
    ensures ConvertArg(arg, isNumber) == arg <==>
            || arg in {"true", "false", "nan", "inf"}
            || (arg != "" && !("0x" <= arg) && !("0X" <= arg) && isNumber(arg))
            || (|arg| >= 2 && IsRadixLiteral(arg))
  {
  }

  /** What is not written as it is, is written between two equal quotes, single ones around a double one. */
  lemma ElseQuoted(arg: string, isNumber: string -> bool)
    requires ConvertArg(arg, isNumber) != arg
    ensures var q := if '"' in arg || |arg| == 1 then '\'' else '"'; ConvertArg(arg, isNumber) == [q] + arg + [q]
  {
  }

  /** Literals with a radix are written as they are, whatever converts to a number. */
  lemma RadixAsItIs(ds: string, isNumber: string -> bool)
    ensures (forall i | 0 <= i < |ds| :: ds[i] in "01") ==> ConvertArg("0b" + ds, isNumber) == "0b" + ds
    ensures (forall i | 0 <= i < |ds| :: '0' <= ds[i] <= '7') ==> ConvertArg("0o" + ds, isNumber) == "0o" + ds
    ensures (forall i | 0 <= i < |ds| :: IsHexDigit(ds[i])) ==> ConvertArg("0x" + ds, isNumber) == "0x" + ds
  {
    forall c: char ensures var arg := "0" + [c] + ds; forall i | 2 <= i < |arg| :: arg[i] == ds[i - 2] {}
    assert "0" + ['b'] + ds == "0b" + ds && "0" + ['o'] + ds == "0o" + ds && "0" + ['x'] + ds == "0x" + ds;
  }

  function ConvertAll(args: seq<string>, isNumber: string -> bool): (r: seq<string>)
    ensures |r| == |args| && forall i | 0 <= i < |args| :: r[i] == ConvertArg(args[i], isNumber)
  {
    seq(|args|, i requires 0 <= i < |args| => ConvertArg(args[i], isNumber))
  }

  /** The written arguments after the first one, each with its separator. */
  function JoinTail(texts: seq<string>): (r: string) {
    if texts == [] then "" else ", " + texts[0] + JoinTail(texts[1..])
  }

  function Joined(texts: seq<string>): (r: string) {
    if texts == [] then "" else texts[0] + JoinTail(texts[1..])
  }

  /** A value as it is written: a lone argument as such, several as an array. */
  function IniText(args: seq<string>, isNumber: string -> bool): (r: string) {
    var joined := Joined(ConvertAll(args, isNumber));
    if |args| > 1 then "[" + joined + "]" else joined
  }

  lemma {:induction false} JoinedMore(texts: seq<string>, k: nat)
    requires k < |texts|
    ensures Joined(texts[..k + 1]) == Joined(texts[..k]) + (if k > 0 then ", " else "") + texts[k]
  {
    if k > 0 {
      TailMore(texts[1..], k - 1);
      assert texts[..k + 1][1..] == texts[1..][..k] && texts[..k][1..] == texts[1..][..k - 1];
    } else {
      assert texts[..1][1..] == [];
    }
  }

  lemma {:induction false} TailMore(texts: seq<string>, k: nat)
    requires k < |texts|
    ensures JoinTail(texts[..k + 1]) == JoinTail(texts[..k]) + (", " + texts[k])
  {
    if k > 0 {
      TailMore(texts[1..], k - 1);
      assert texts[..k + 1][1..] == texts[1..][..k] && texts[..k][1..] == texts[1..][..k - 1];
    } else {
      assert texts[..1][1..] == [];
    }
  }

  lemma ConcatAssoc(a: string, b: string, c: string, d: string)
    ensures a + b + c + d == a + (b + c + d)
  {
  }

  lemma {:induction false} OneMoreText(prefix: string, texts: seq<string>, k: nat)
    requires k < |texts|
    ensures
      prefix + Joined(texts[..k + 1])
      == (if k > 0 then prefix + Joined(texts[..k]) + ", " else prefix + Joined(texts[..k])) + texts[k]
  {
    JoinedMore(texts, k);
    ConcatAssoc(prefix, Joined(texts[..k]), if k > 0 then ", " else "", texts[k]);
  }

  method IniJoin(args: seq<string>, isNumber: string -> bool) returns (joined: string)
    ensures joined == IniText(args, isNumber)
  {
    joined := "";
    if |args| > 1 { joined := joined + "["; }
    joined := JoinOnto(joined, args, isNumber);
    if |args| > 1 { joined := joined + "]"; }
  }

  /** Add the arguments in their written form, with separators. */
  method JoinOnto(prefix: string, args: seq<string>, isNumber: string -> bool) returns (joined: string)
    ensures joined == prefix + Joined(ConvertAll(args, isNumber))
  {
    ghost var texts := ConvertAll(args, isNumber);
    joined := prefix;
    for start := 0 to |args|
      invariant joined == prefix + Joined(texts[..start])
    {
      OneMoreText(prefix, texts, start);
      if start > 0 { joined := joined + ", "; }
      joined := joined + ConvertArg(args[start], isNumber);
    }
    assert texts[..|args|] == texts;
  }

  // ---------------------------------------------------------------- reading a value

  /** The text before a comment. */
  function CutComment(item: string): (r: string) {
    if Find(item, '#') < |item| then Trim(item[..Find(item, '#')]) else item
  }

  /** The pieces of a value. */
  function ValuePieces(item: string): (r: seq<string>) {
    if |item| > 1 && item[0] == '[' then Pieces(Trim(item[1..|item| - 1]), ',')
    else if ',' in item then Pieces(Trim(item), ',')
    else if ' ' in item then Pieces(Trim(item), '\0')
    else [item]
  }

  function Unquoted(items: seq<string>): (r: seq<string>)
    ensures |r| == |items| && forall i | 0 <= i < |items| :: r[i] == RemoveQuotes(items[i])
  {
    seq(|items|, i requires 0 <= i < |items| => RemoveQuotes(items[i]))
  }

  function ReadValue(item: string): (r: seq<string>) { Unquoted(ValuePieces(item)) }

  // ---------------------------------------------------------------- reading undoes writing

  predicate PlainChar(c: char) {
    !IsSpace(c) && !IsQuote(c) && c != ',' && c != '#' && c != '[' && c != ']' && c != '\\'
  }

  /** What a number may look like: blanks in front, and then no character with a meaning of its own. */
  ghost predicate NumbersPlain(isNumber: string -> bool) {
    forall s | isNumber(s) :: s != "" && forall i | 0 <= i < |s| :: PlainChar(s[i]) || (IsSpace(s[i]) && IsSpace(s[0]))
  }

  /**
    The arguments that survive: free of comments and line ends, without both kinds of quotes,
    not wrapped in quotes nor a lone quote, not ending in a backslash, and no number after blanks.
   */
  predicate Printable(arg: string, isNumber: string -> bool) {
    && '#' !in arg && '\n' !in arg
    && ('"' !in arg || '\'' !in arg) && RemoveQuotes(arg) == arg && arg != "'"
    && (arg != "" ==> arg[|arg| - 1] != '\\')
    && (arg != "" && isNumber(arg) ==> !IsSpace(arg[0]))
  }

  /** An argument is written bare, of plain characters only, or between two quotes that do not occur in it. */
  ghost predicate Bare(arg: string, r: string) {
    r == arg && arg != "" && forall i | 0 <= i < |arg| :: PlainChar(arg[i])
  }

  ghost predicate Quoted(arg: string, r: string, q: char) {
    (q == '"' || q == '\'') && r == [q] + arg + [q] && q !in arg && (arg != "" ==> arg[|arg| - 1] != '\\')
  }

  ghost predicate Written(arg: string, r: string) {
    Bare(arg, r) || Quoted(arg, r, '"') || Quoted(arg, r, '\'')
  }

  lemma {:induction false} Converted(arg: string, isNumber: string -> bool)
    requires Printable(arg, isNumber) && NumbersPlain(isNumber)
    ensures Written(arg, ConvertArg(arg, isNumber))
  {
    if ConvertArg(arg, isNumber) == arg {
      KeptIsBare(arg, isNumber);
    } else if ConvertArg(arg, isNumber) == "\"" + arg + "\"" {
      QuotedIs(arg, '"');
    } else {
      if |arg| == 1 { assert arg == [arg[0]] && arg[0] != '\''; }
      QuotedIs(arg, '\'');
    }
  }

  lemma {:induction false} KeptIsBare(arg: string, isNumber: string -> bool)
    requires Printable(arg, isNumber) && NumbersPlain(isNumber) && ConvertArg(arg, isNumber) == arg
    ensures Bare(arg, arg)
  {
  }

  lemma QuotedIs(arg: string, q: char)
    requires (q == '"' || q == '\'') && q !in arg && (arg != "" ==> arg[|arg| - 1] != '\\')
    ensures Quoted(arg, [q] + arg + [q], q)
  {
  }

  lemma WrittenTight(arg: string, r: string)
    requires Written(arg, r)
    ensures r != "" && !IsSpace(r[0]) && !IsSpace(r[|r| - 1]) && r[0] != '['
  {
  }

  lemma BarePiece(arg: string, tail: string)
    requires Bare(arg, arg) && (tail == "" || (|tail| >= 2 && tail[0] == ','))
    ensures NextPiece(arg + tail, ',') == Piece(arg, if tail == "" then "" else tail[1..])
  {
    var s := arg + tail;
    assert forall j | 0 <= j < |arg| :: s[j] == arg[j] && PlainChar(arg[j]);
    assert tail != "" ==> s[|arg|] == ',';
    var i := FindDelimiter(s, ',', 0);
    assert i == |arg|;
    assert s[..|arg|] == arg && (tail != "" ==> s[|arg| + 1..] == tail[1..]);
  }

  lemma QuotedPiece(arg: string, q: char, tail: string, delimiter: char)
    requires Quoted(arg, [q] + arg + [q], q) && (tail == "" || |tail| >= 2)
    ensures NextPiece([q] + arg + [q] + tail, delimiter) == Piece(arg, if tail == "" then "" else tail[1..])
  {
    var s := [q] + arg + [q] + tail;
    var end := |arg| + 1;
    assert forall j | 1 <= j <= |arg| :: s[j] == arg[j - 1];
    assert s[end] == q;
    assert FindFirst(s, {q}, 1) == end;
    assert s[end - 1] != '\\';
    assert s[1..end] == arg && (tail != "" ==> s[end + 2..] == tail[1..]);
  }

  /** A written argument is read back as the first piece, whatever follows its separator. */
  lemma WrittenPiece(arg: string, r: string, tail: string)
    requires Written(arg, r) && (tail == "" || (|tail| >= 2 && tail[0] == ','))
    ensures NextPiece(r + tail, ',') == Piece(arg, if tail == "" then "" else tail[1..])
  {
    if Bare(arg, r) {
      BarePiece(arg, tail);
    } else {
      QuotedPiece(arg, r[0], tail, ',');
    }
  }

  lemma TailShape(texts: seq<string>)
    ensures var t := JoinTail(texts);
              if texts == [] then t == "" else |t| >= 2 && t[0] == ',' && t[1..] == " " + Joined(texts)
  {
    if texts != [] { Comma(texts[0], JoinTail(texts[1..])); }
  }

  lemma Comma(a: string, rest: string)
    ensures var t := ", " + a + rest; |t| >= 2 && t[0] == ',' && t[1..] == " " + (a + rest)
  {
  }

  ghost predicate AllWritten(args: seq<string>, texts: seq<string>) {
    |args| == |texts| && forall i | 0 <= i < |args| :: Written(args[i], texts[i])
  }

  lemma {:induction false} JoinedTight(args: seq<string>, texts: seq<string>)
    requires args != [] && AllWritten(args, texts)
    ensures var r := Joined(texts); r != "" && !IsSpace(r[0]) && !IsSpace(r[|r| - 1]) && r[0] != '['
  {
    WrittenTight(args[0], texts[0]);
    if |args| > 1 {
      JoinedTight(args[1..], texts[1..]);
      TailShape(texts[1..]);
      var t := JoinTail(texts[1..]);
      assert t[|t| - 1] == t[1..][|t| - 2];
    }
  }

  lemma {:induction false} PiecesOfJoined(args: seq<string>, texts: seq<string>)
    requires args != [] && AllWritten(args, texts)
    ensures Pieces(Joined(texts), ',') == args
  {
    var pieces := (s: string) => Pieces(s, ',');
    forall k | 0 <= k < |args| ensures pieces(Joined(texts[k..])) == [args[k]] + pieces(Joined(texts[k + 1..])) {
      FirstOfJoined(args[k..], texts[k..]);
      assert texts[k..][1..] == texts[k + 1..];
    }
    OneByOne(pieces, args, texts);
    assert texts[0..] == texts;
  }

  /** A function that takes the texts off one by one, giving the arguments. */
  lemma {:induction false} OneByOne(f: string -> seq<string>, args: seq<string>, texts: seq<string>)
    requires |args| == |texts| && f("") == []
    requires forall k | 0 <= k < |args| :: f(Joined(texts[k..])) == [args[k]] + f(Joined(texts[k + 1..]))
    ensures f(Joined(texts[0..])) == args
  {
    var k := |args|;
    while k > 0
      invariant 0 <= k <= |args| && f(Joined(texts[k..])) == args[k..]
    {
      k := k - 1;
      assert f(Joined(texts[k..])) == [args[k]] + args[k + 1..];
    }
  }

  lemma {:induction false} FirstOfJoined(args: seq<string>, texts: seq<string>)
    requires args != [] && AllWritten(args, texts)
    ensures Pieces(Joined(texts), ',') == [args[0]] + Pieces(Joined(texts[1..]), ',')
  {
    TailShape(texts[1..]);
    WrittenTight(args[0], texts[0]);
    WrittenPiece(args[0], texts[0], JoinTail(texts[1..]));
    RestOfJoined(args, texts);
  }

  lemma {:induction false} RestOfJoined(args: seq<string>, texts: seq<string>)
    requires args != [] && AllWritten(args, texts)
    ensures Trim(if |args| > 1 then " " + Joined(texts[1..]) else "") == Joined(texts[1..])
  {
    if |args| > 1 {
      JoinedTight(args[1..], texts[1..]);
      TrimBlank(Joined(texts[1..]));
    } else {
      assert Trim("") == "";
    }
  }

  lemma SinglePiece(r: string, arg: string, delimiter: char)
    requires r != "" && NextPiece(r, delimiter) == Piece(arg, "")
    ensures Pieces(r, delimiter) == [arg]
  {
    assert Trim("") == "" && Pieces("", delimiter) == [];
  }

  lemma CommaPiece(arg: string, r: string)
    requires Written(arg, r)
    ensures r != "" && Pieces(r, ',') == [arg]
  {
    WrittenPiece(arg, r, "");
    assert r + "" == r;
    WrittenTight(arg, r);
    SinglePiece(r, arg, ',');
  }

  lemma BlankPiece(arg: string, r: string)
    requires Written(arg, r) && ' ' in r
    ensures r != "" && Pieces(r, '\0') == [arg]
  {
    QuotedPiece(arg, r[0], "", '\0');
    assert r + "" == r;
    SinglePiece(r, arg, '\0');
  }

  lemma SplitValue(r: string)
    requires r != "" && r[0] != '['
    ensures ',' in r ==> ValuePieces(r) == Pieces(Trim(r), ',')
    ensures ',' !in r && ' ' in r ==> ValuePieces(r) == Pieces(Trim(r), '\0')
    ensures ',' !in r && ' ' !in r ==> ValuePieces(r) == [r]
  {
  }

  /** A lone value comes in one piece, or is left whole. */
  lemma OnePiece(arg: string, r: string)
    requires r != "" && r[0] != '[' && Trim(r) == r
    requires Pieces(r, ',') == [arg] && (' ' in r ==> Pieces(r, '\0') == [arg])
    ensures ValuePieces(r) == [arg] || ValuePieces(r) == [r]
  {
    SplitValue(r);
  }

  lemma WrittenWhole(arg: string, r: string)
    requires Written(arg, r)
    ensures ValuePieces(r) == [arg] || ValuePieces(r) == [r]
  {
    WrittenTight(arg, r);
    TrimTight(r);
    CommaPiece(arg, r);
    if ' ' in r { BlankPiece(arg, r); }
    OnePiece(arg, r);
  }

  lemma ReadWhole(arg: string, r: string, items: seq<string>)
    requires (items == [arg] || items == [r]) && RemoveQuotes(arg) == arg && RemoveQuotes(r) == arg
    ensures Unquoted(items) == [arg]
  {
  }

  lemma ReadOne(arg: string, r: string)
    requires Written(arg, r) && RemoveQuotes(arg) == arg
    ensures ReadValue(r) == [arg]
  {
    WrittenWhole(arg, r);
    WrittenUnquoted(arg, r);
    ReadWhole(arg, r, ValuePieces(r));
  }

  lemma WrittenUnquoted(arg: string, r: string)
    requires Written(arg, r)
    ensures RemoveQuotes(r) == arg
  {
    if Bare(arg, r) { assert PlainChar(arg[0]); }
  }

  lemma {:induction false} ReadMany(args: seq<string>, texts: seq<string>)
    requires |args| > 1 && AllWritten(args, texts) && forall i | 0 <= i < |args| :: RemoveQuotes(args[i]) == args[i]
    ensures ReadValue("[" + Joined(texts) + "]") == args
  {
    var j := Joined(texts);
    JoinedTight(args, texts);
    TrimTight(j);
    PiecesOfJoined(args, texts);
    Bracketed(j);
    AllAsTheyAre(args);
  }

  lemma {:induction false} Bracketed(j: string)
    ensures ValuePieces("[" + j + "]") == Pieces(Trim(j), ',')
  {
    var item := "[" + j + "]";
    assert item[1..|item| - 1] == j;
  }

  lemma AllAsTheyAre(args: seq<string>)
    requires forall i | 0 <= i < |args| :: RemoveQuotes(args[i]) == args[i]
    ensures Unquoted(args) == args
  {
  }

  /** Reading undoes writing, for every non-empty list of printable arguments. */
  lemma ReadUndoesWrite(args: seq<string>, isNumber: string -> bool)
    requires args != [] && NumbersPlain(isNumber) && forall i | 0 <= i < |args| :: Printable(args[i], isNumber)
    ensures ReadValue(IniText(args, isNumber)) == args
  {
    var texts := ConvertAll(args, isNumber);
    forall i | 0 <= i < |args| ensures Written(args[i], texts[i]) && RemoveQuotes(args[i]) == args[i] {
      Converted(args[i], isNumber);
    }
    if |args| == 1 {
      assert texts[1..] == [] && Joined(texts) == texts[0];
      ReadOne(args[0], texts[0]);
      assert args == [args[0]];
    } else {
      ReadMany(args, texts);
    }
  }

  // ---------------------------------------------------------------- escaped quotes

  /** The text with a backslash before every quote. */
  function Escaped(v: string, q: char): (r: string) {
    if v == "" then "" else (if v[0] == q then ['\\', q] else [v[0]]) + Escaped(v[1..], q)
  }

  lemma {:induction false} NothingEscaped(v: string, q: char)
    requires q !in v
    ensures Escaped(v, q) == v
  {
    if v != "" { NothingEscaped(v[1..], q); }
  }

  lemma {:induction false} UnescapeEscaped(v: string, q: char)
    requires '\\' !in v
    ensures Unescape(Escaped(v, q), q) == v
  {
    if v != "" {
      UnescapeEscaped(v[1..], q);
      var s, rest := Escaped(v, q), Escaped(v[1..], q);
      if v[0] == q {
        assert s[0] == '\\' && s[1] == q && s[2..] == rest;
      } else {
        assert s[0] == v[0] && s[1..] == rest;
      }
      assert v == [v[0]] + v[1..];
    }
  }

  lemma {:induction false} SkipPlain(s: string, q: char, k: nat)
    requires 1 <= k < |s| && s[k] != q
    ensures ClosingQuote(s, q, k) == ClosingQuote(s, q, k + 1)
  {
  }

  lemma {:induction false} SkipEscaped(s: string, q: char, k: nat)
    requires 1 <= k < |s| - 1 && s[k] == '\\' && s[k + 1] == q != '\\'
    ensures ClosingQuote(s, q, k) == (ClosingQuote(s, q, k + 2).0, true)
  {
    assert FindFirst(s, {q}, k) == k + 1;
  }

  lemma {:induction false} EscapedApart(front: string, v: string, q: char, tail: string, unit: string)
    requires v != "" && unit == if v[0] == q then ['\\', q] else [v[0]]
    ensures Escaped(v, q) == unit + Escaped(v[1..], q)
    ensures front + Escaped(v, q) + [q] + tail == front + unit + Escaped(v[1..], q) + [q] + tail
    ensures front + Escaped(v, q) + [q] + tail == front + unit + Escaped(v[1..], q) + ([q] + tail)
  {
  }

  lemma UnitAt(s: string, front: string, unit: string, rest: string, tail: string)
    requires s == front + unit + rest + tail && unit != "" && tail != ""
    ensures |front| + |unit| < |s| && s[|front|] == unit[0] && (|unit| > 1 ==> s[|front| + 1] == unit[1])
  {
  }

  ghost predicate ClosesAt(s: string, q: char, k: nat, end: nat, embedded: bool) {
    1 <= k <= |s| && ClosingQuote(s, q, k) == (end, embedded)
  }

  /** Looking for the closing quote passes over a character, with its backslash if it is a quote. */
  lemma {:induction false} PassOver(s: string, q: char, k: nat, c: char, end: nat, embedded: bool)
    requires 1 <= k < |s| - 1 && q != '\\' && s[k] == (if c == q then '\\' else c) && (c == q ==> s[k + 1] == q)
    requires ClosesAt(s, q, if c == q then k + 2 else k + 1, end, embedded)
    ensures ClosesAt(s, q, k, end, c == q || embedded)
  {
    if c == q {
      SkipEscaped(s, q, k);
    } else {
      SkipPlain(s, q, k);
    }
  }

  lemma {:induction false} ClosesHere(s: string, front: string, q: char, tail: string)
    requires s == front + [q] + tail && front != "" && front[|front| - 1] != '\\'
    ensures ClosesAt(s, q, |front|, |front|, false)
  {
    assert s[|front|] == q && s[|front| - 1] == front[|front| - 1];
  }

  lemma FirstOrLater(v: string, q: char)
    requires v != ""
    ensures q in v <==> v[0] == q || q in v[1..]
  {
  }

  /** The text is escaped between a front that does not end in a backslash and the closing quote. */
  ghost predicate Closed(s: string, front: string, v: string, q: char, tail: string) {
    && s == front + Escaped(v, q) + [q] + tail && '\\' !in v && q != '\\'
    && front != "" && front[|front| - 1] != '\\'
  }

  lemma {:induction false} ClosedMore(s: string, front: string, v: string, q: char, tail: string, unit: string)
    requires Closed(s, front, v, q, tail) && v != "" && unit == if v[0] == q then ['\\', q] else [v[0]]
    ensures Closed(s, front + unit, v[1..], q, tail) && |Escaped(v, q)| == |unit| + |Escaped(v[1..], q)|
    ensures |front| + |unit| < |s| && s[|front|] == unit[0] && (|unit| > 1 ==> s[|front| + 1] == unit[1])
  {
    EscapedApart(front, v, q, tail, unit);
    UnitAt(s, front, unit, Escaped(v[1..], q), [q] + tail);
  }

  /** The closing quote of an escaped text is the one behind it. */
  lemma {:induction false} ClosesBehind(s: string, front: string, v: string, q: char, tail: string)
    requires Closed(s, front, v, q, tail)
    ensures ClosesAt(s, q, |front|, |front| + |Escaped(v, q)|, q in v)
    decreases |v|
  {
    if v == "" {
      assert front + "" == front;
      ClosesHere(s, front, q, tail);
    } else {
      var unit := if v[0] == q then ['\\', q] else [v[0]];
      ClosedMore(s, front, v, q, tail, unit);
      ClosesBehind(s, front + unit, v[1..], q, tail);
      PassOver(s, q, |front|, v[0], |front| + |Escaped(v, q)|, q in v[1..]);
      FirstOrLater(v, q);
    }
  }

  lemma ValueBetween(v: string, q: char)
    requires '\\' !in v
    ensures v == if q in v then Unescape(Escaped(v, q), q) else Escaped(v, q)
  {
    UnescapeEscaped(v, q);
    if q !in v { NothingEscaped(v, q); }
  }

  lemma PieceBetween(s: string, q: char, e: string, embedded: bool, delimiter: char)
    requires IsQuote(q) && |e| + 1 < |s| && s[0] == q && s[1..|e| + 1] == e
    requires ClosesAt(s, q, 1, |e| + 1, embedded)
    ensures NextPiece(s, delimiter) ==
            Piece(if embedded then Unescape(e, q) else e, if |e| + 3 < |s| then s[|e| + 3..] else "")
  {
  }

  /** Quoted text in which the quotes are escaped is read as the text, for each of the three quotes. */
  lemma EscapedPiece(v: string, q: char, tail: string, delimiter: char)
    requires q in {'\'', '"', '`'} && '\\' !in v && (tail == "" || |tail| >= 2)
    ensures NextPiece([q] + Escaped(v, q) + [q] + tail, delimiter) == Piece(v, if tail == "" then "" else tail[1..])
  {
    var e := Escaped(v, q);
    var s := [q] + e + [q] + tail;
    EscapedEnd(s, q, e, tail);
    ClosesBehind(s, [q], v, q, tail);
    PieceBetween(s, q, e, q in v, delimiter);
    ValueBetween(v, q);
  }

  lemma EscapedEnd(s: string, q: char, e: string, tail: string)
    requires s == [q] + e + [q] + tail && (tail == "" || |tail| >= 2)
    ensures s[0] == q && |e| + 1 < |s| && s[1..|e| + 1] == e
    ensures (if |e| + 3 < |s| then s[|e| + 3..] else "") == if tail == "" then "" else tail[1..]
  {
  }
}
