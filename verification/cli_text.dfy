/**
  The string helpers of the command-line parser that the other modules build on.
 */
module CliText {

  /** std::isspace in the classic locale. */
  predicate IsSpace(c: char) {
    c == ' ' || ('\t' <= c <= '\r')
  }

  /** The characters that are trimmed: blank, tab, line feed, vertical tab, form feed and carriage return. */
  lemma SpaceIff(c: char)
    ensures IsSpace(c) <==> c in {' ', '\t', '\n', '\U{0B}', '\U{0C}', '\r'}
  {
  }

  function Ltrim(s: string): (r: string)
    ensures |r| <= |s| && r == s[|s| - |r|..]
    ensures r != "" ==> !IsSpace(r[0])
    ensures forall i | 0 <= i < |s| - |r| :: IsSpace(s[i])
  {
    if s != "" && IsSpace(s[0]) then Ltrim(s[1..]) else s
  }

  function Rtrim(s: string): (r: string)
    ensures |r| <= |s| && r == s[..|r|]
    ensures r != "" ==> !IsSpace(r[|r| - 1])
    ensures forall i | |r| <= i < |s| :: IsSpace(s[i])
  {
    if s != "" && IsSpace(s[|s| - 1]) then Rtrim(s[..|s| - 1]) else s
  }

  function Trim(s: string): (r: string)
    ensures |r| <= |s|
    ensures r != "" ==> !IsSpace(r[0]) && !IsSpace(r[|r| - 1])
  {
    var x := Rtrim(s);
    var r := Ltrim(x);
    assert r != "" ==> r[|r| - 1] == x[|x| - 1];
    r
  }

  /** A string that neither starts nor ends with a blank. */
  predicate Tight(s: string) {
    s == "" || (!IsSpace(s[0]) && !IsSpace(s[|s| - 1]))
  }

  lemma TrimTight(s: string)
    requires Tight(s)
    ensures Trim(s) == s
  {
  }

  /** A blank in front does not matter. */
  lemma TrimBlank(s: string)
    requires Tight(s)
    ensures Trim(" " + s) == s
  {
    if s == "" {
      assert Rtrim(" ") == Rtrim("") == "";
    } else {
      assert (" " + s)[|s|] == s[|s| - 1];
      assert Ltrim(" " + s) == Ltrim(s);
    }
  }

  /** The first place from k on where a character of cs stands, or the length of the string. */
  function FindFirst(s: string, cs: set<char>, k: nat): (i: nat)
    requires k <= |s|
    ensures k <= i <= |s|
    ensures i < |s| ==> s[i] in cs
    ensures forall j | k <= j < i :: s[j] !in cs
    decreases |s| - k
  {
    if k == |s| || s[k] in cs then k else FindFirst(s, cs, k + 1)
  }

  function Find(s: string, c: char): (i: nat)
    ensures i <= |s| && (i < |s| ==> s[i] == c) && forall j | 0 <= j < i :: s[j] != c
  {
    FindFirst(s, {c}, 0)
  }

  /** The pieces between delimiters, as repeated getline gives them: nothing after a final delimiter. */
  function SplitLines(s: string, delim: char): (r: seq<string>)
    ensures s != "" ==> r != []
    ensures forall i | 0 <= i < |r| :: |r[i]| <= |s|
  {
    if s == "" then []
    else
      var i := Find(s, delim);
      if i == |s| then [s] else [s[..i]] + SplitLines(s[i + 1..], delim)
  }

  function Split(s: string, delim: char): (r: seq<string>)
    ensures r != []
    ensures forall i | 0 <= i < |r| :: |r[i]| <= |s|
  {
    if s == "" then [""] else SplitLines(s, delim)
  }

  // ---------------------------------------------------------------- putting together

  /** Texts put together with a delimiter between them. */
  function JoinWith(parts: seq<string>, c: char): (r: string) {
    if parts == [] then "" else if |parts| == 1 then parts[0] else parts[0] + [c] + JoinWith(parts[1..], c)
  }

  lemma {:induction false} JoinApart(a: seq<string>, b: seq<string>, c: char)
    requires a != [] && b != []
    ensures JoinWith(a + b, c) == JoinWith(a, c) + [c] + JoinWith(b, c)
  {
    assert (a + b)[1..] == a[1..] + b;
    if |a| > 1 {
      JoinApart(a[1..], b, c);
      Regrouped(a[0], JoinWith(a[1..], c), JoinWith(b, c), [c]);
    } else {
      assert a[1..] + b == b;
    }
  }

  lemma Regrouped(x: string, y: string, z: string, c: string)
    ensures x + c + (y + c + z) == x + c + y + c + z
  {
  }

  /** Splitting and putting together again loses nothing but a final delimiter. */
  lemma {:induction false} SplitThenJoin(s: string, c: char)
    requires s != ""
    ensures JoinWith(SplitLines(s, c), c) == if s[|s| - 1] == c then s[..|s| - 1] else s
    decreases |s|
  {
    var i := Find(s, c);
    if i == |s| {
      assert c !in s;
    } else if i == |s| - 1 {
      assert SplitLines(s[i + 1..], c) == [];
    } else {
      var head, rest := s[..i], s[i + 1..];
      SplitThenJoin(rest, c);
      JoinApart([head], SplitLines(rest, c), c);
      FirstApart(s, i, head, rest);
    }
  }

  lemma FirstApart(s: string, i: nat, head: string, rest: string)
    requires i < |s| - 1 && head == s[..i] && rest == s[i + 1..]
    ensures s[|s| - 1] == rest[|rest| - 1] && s == head + [s[i]] + rest
    ensures s[..|s| - 1] == head + [s[i]] + rest[..|rest| - 1]
  {
    assert s[..|s| - 1] == s[..i] + [s[i]] + s[i + 1..|s| - 1];
    assert rest[..|rest| - 1] == s[i + 1..|s| - 1];
  }

  /** Putting together and splitting again gives the texts, if none holds the delimiter and the last is not empty. */
  lemma {:induction false} JoinThenSplit(parts: seq<string>, c: char)
    requires parts != [] && parts[|parts| - 1] != "" && forall i | 0 <= i < |parts| :: c !in parts[i]
    ensures JoinWith(parts, c) != "" && SplitLines(JoinWith(parts, c), c) == parts
  {
    var head := parts[0];
    if |parts| > 1 {
      JoinThenSplit(parts[1..], c);
      CutFirst(head, JoinWith(parts[1..], c), c);
      assert parts == [head] + parts[1..];
    } else {
      assert parts == [head];
    }
  }

  lemma {:induction false} CutFirst(head: string, rest: string, c: char)
    requires c !in head
    ensures SplitLines(head + [c] + rest, c) == [head] + SplitLines(rest, c)
  {
    var s := head + [c] + rest;
    assert s[|head|] == c && forall j | 0 <= j < |head| :: s[j] == head[j];
    assert Find(s, c) == |head| && s[..|head|] == head && s[|head| + 1..] == rest;
  }

  function RemoveQuotes(s: string): (r: string) {
    if |s| > 1 && (s[0] == '"' || s[0] == '\'') && s[0] == s[|s| - 1] then s[1..|s| - 1] else s
  }

  function LowerChar(c: char): (r: char) {
    if 'A' <= c <= 'Z' then c - 'A' + 'a' else c
  }

  /** The letters of the alphabet, and no other characters, have a lower case. */
  lemma LowerIs(i: nat)
    requires i < 26
    ensures LowerChar("ABCDEFGHIJKLMNOPQRSTUVWXYZ"[i]) == "abcdefghijklmnopqrstuvwxyz"[i]
  {
  }

  lemma LowerKeeps(c: char)
    ensures LowerChar(c) != c ==> c in "ABCDEFGHIJKLMNOPQRSTUVWXYZ"
  {
    if LowerChar(c) != c { assert c == "ABCDEFGHIJKLMNOPQRSTUVWXYZ"[c as int - 'A' as int]; }
  }

  function ToLower(s: string): (r: string)
    ensures |r| == |s| && forall i | 0 <= i < |s| :: r[i] == LowerChar(s[i])
  {
    seq(|s|, i requires 0 <= i < |s| => LowerChar(s[i]))
  }

  function RemoveUnderscore(s: string): (r: string) {
    if s == "" then "" else (if s[0] == '_' then "" else [s[0]]) + RemoveUnderscore(s[1..])
  }
}
