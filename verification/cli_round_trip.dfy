/**
  Settings written to a configuration file and read back.
 */
module CliRoundTrip {
  import opened CliText
  import opened CliValues
  import opened CliSections
  import opened CliConfig

  datatype Setting = Setting(name: string, args: seq<string>)

  /** A name that a line can start with: not a header, a comment or quoted, and without the value delimiter. */
  predicate PlainName(name: string) {
    && name != "" && Tight(name) && '=' !in name && '\n' !in name && CleanName(name) == name
    && name[0] != '[' && name[0] != ';' && name[0] != '#'
  }

  ghost predicate Writable(s: Setting, isNumber: string -> bool) {
    PlainName(s.name) && s.args != [] && forall i | 0 <= i < |s.args| :: Printable(s.args[i], isNumber)
  }

  /** A setting as to_config writes it. */
  function LineOf(s: Setting, isNumber: string -> bool): (line: string) { s.name + "=" + IniText(s.args, isNumber) }

  function FileOf(settings: seq<Setting>, isNumber: string -> bool): (text: string) {
    if settings == [] then "" else LineOf(settings[0], isNumber) + "\n" + FileOf(settings[1..], isNumber)
  }

  function KeysOf(settings: seq<Setting>): (ls: seq<Line>)
    ensures |ls| == |settings| && forall i | 0 <= i < |ls| :: ls[i] == Key(settings[i].name, settings[i].args)
  {
    if settings == [] then [] else [Key(settings[0].name, settings[0].args)] + KeysOf(settings[1..])
  }

  // ---------------------------------------------------------------- the text of a value

  lemma WrittenAvoids(arg: string, r: string, c: char)
    requires Written(arg, r) && (c == '#' || c == '\n') && c !in arg
    ensures c !in r
  {
  }

  lemma {:induction false} TailAvoids(args: seq<string>, texts: seq<string>, c: char)
    requires AllWritten(args, texts) && (c == '#' || c == '\n') && forall i | 0 <= i < |args| :: c !in args[i]
    ensures c !in JoinTail(texts)
  {
    if texts != [] {
      WrittenAvoids(args[0], texts[0], c);
      TailAvoids(args[1..], texts[1..], c);
    }
  }

  lemma JoinedAvoids(args: seq<string>, texts: seq<string>, c: char)
    requires AllWritten(args, texts) && (c == '#' || c == '\n') && forall i | 0 <= i < |args| :: c !in args[i]
    ensures c !in Joined(texts)
  {
    if texts != [] {
      WrittenAvoids(args[0], texts[0], c);
      TailAvoids(args[1..], texts[1..], c);
    }
  }

  /** What the reader relies on in the text of a value. */
  ghost predicate ValueText(t: string, many: bool) {
    && t != "" && Tight(t) && '#' !in t && '\n' !in t
    && (if many then t[0] == '[' && t[|t| - 1] == ']' else t[0] != '[')
  }

  lemma AllConverted(args: seq<string>, isNumber: string -> bool)
    requires NumbersPlain(isNumber) && forall i | 0 <= i < |args| :: Printable(args[i], isNumber)
    ensures AllWritten(args, ConvertAll(args, isNumber))
    ensures forall i | 0 <= i < |args| :: '#' !in args[i] && '\n' !in args[i]
  {
    forall i | 0 <= i < |args| ensures Written(args[i], ConvertAll(args, isNumber)[i]) {
      Converted(args[i], isNumber);
    }
  }

  lemma TextOfValue(args: seq<string>, isNumber: string -> bool)
    requires args != [] && NumbersPlain(isNumber) && forall i | 0 <= i < |args| :: Printable(args[i], isNumber)
    ensures ValueText(IniText(args, isNumber), |args| > 1)
  {
    var texts := ConvertAll(args, isNumber);
    AllConverted(args, isNumber);
    JoinedAvoids(args, texts, '#');
    JoinedAvoids(args, texts, '\n');
    JoinedTight(args, texts);
  }

  // ---------------------------------------------------------------- a line

  lemma LineShape(name: string, t: string, many: bool)
    requires PlainName(name) && ValueText(t, many)
    ensures
      var line := name + "=" + t;
      && Trim(line) == line && |line| >= 3 && line[0] == name[0]
      && Find(line, '=') == |name| && line[..|name|] == name && line[|name| + 1..] == t
  {
    var line := name + "=" + t;
    assert line[|line| - 1] == t[|t| - 1] && line[0] == name[0];
    TrimTight(line);
    assert line[|name|] == '=' && forall j | 0 <= j < |name| :: line[j] == name[j];
  }

  lemma ValueKept(t: string, many: bool, lines: seq<string>)
    requires ValueText(t, many)
    ensures CutComment(Trim(t)) == t
    ensures WholeItem(t, lines) == (t, lines)
  {
    TrimTight(t);
    assert Find(t, '#') == |t|;
  }

  lemma LineReadsBack(name: string, t: string, many: bool, lines: seq<string>)
    requires PlainName(name) && ValueText(t, many)
    ensures ReadLine([name + "=" + t] + lines) == (Key(name, ReadValue(t)), lines)
  {
    var line := name + "=" + t;
    PartsReadBack(line, name, t, many, lines);
    KeyParts(line, |name|, name, t, lines);
    LineIsKey(line, lines);
  }

  lemma PartsReadBack(line: string, name: string, t: string, many: bool, lines: seq<string>)
    requires PlainName(name) && ValueText(t, many) && line == name + "=" + t
    ensures Trim(line) == line && |line| >= 3 && line[0] != '[' && line[0] != ';' && line[0] != '#'
    ensures Find(line, '=') == |name| < |line| && CleanName(Trim(line[..|name|])) == name
    ensures CutComment(Trim(line[|name| + 1..])) == t && WholeItem(t, lines) == (t, lines)
  {
    LineShape(name, t, many);
    ValueKept(t, many, lines);
    TrimTight(name);
  }

  lemma LineIsKey(line: string, lines: seq<string>)
    requires Trim(line) == line && |line| >= 3 && line[0] != '[' && line[0] != ';' && line[0] != '#'
    ensures ReadLine([line] + lines) == ReadKey(line, lines)
  {
    var all := [line] + lines;
    assert all[0] == line && all[1..] == lines;
  }

  lemma SettingReadsBack(s: Setting, isNumber: string -> bool, lines: seq<string>)
    requires Writable(s, isNumber) && NumbersPlain(isNumber)
    ensures ReadLine([LineOf(s, isNumber)] + lines) == (Key(s.name, s.args), lines)
    ensures '\n' !in LineOf(s, isNumber)
  {
    TextOfValue(s.args, isNumber);
    ReadUndoesWrite(s.args, isNumber);
    LineReadsBack(s.name, IniText(s.args, isNumber), |s.args| > 1, lines);
  }

  // ---------------------------------------------------------------- a file

  lemma FirstLine(line: string, text: string)
    requires '\n' !in line
    ensures SplitLines(line + "\n" + text, '\n') == [line] + SplitLines(text, '\n')
  {
    var s := line + "\n" + text;
    assert s[|line|] == '\n' && forall j | 0 <= j < |line| :: s[j] == line[j];
    assert Find(s, '\n') == |line|;
    assert s[..|line|] == line && s[|line| + 1..] == text;
  }

  /** Reading a file undoes writing it, for every list of writable settings. */
  lemma {:induction false} FileReadsBack(settings: seq<Setting>, isNumber: string -> bool)
    requires NumbersPlain(isNumber) && forall i | 0 <= i < |settings| :: Writable(settings[i], isNumber)
    ensures ReadAll(SplitLines(FileOf(settings, isNumber), '\n')) == KeysOf(settings)
  {
    if settings != [] {
      var rest := FileOf(settings[1..], isNumber);
      FileReadsBack(settings[1..], isNumber);
      SettingReadsBack(settings[0], isNumber, SplitLines(rest, '\n'));
      FirstLine(LineOf(settings[0], isNumber), rest);
    }
  }

  /** Names of options outside all sections, no name twice in a row. */
  ghost predicate Flat(settings: seq<Setting>) {
    && (forall i | 0 <= i < |settings| ::
         '.' !in settings[i].name && settings[i].name != OPEN && settings[i].name != CLOSE)
    && (forall i | 0 < i < |settings| :: settings[i].name != settings[i - 1].name)
  }

  /** The entries of the first k settings, all of them outside all sections. */
  ghost function PlacesOf(settings: seq<Setting>, k: nat): seq<Place>
    requires k <= |settings|
  {
    seq(k, i requires 0 <= i < k => Place(ConfigItem([], settings[i].name, settings[i].args), Open([])))
  }

  lemma FlatKey(s: Setting)
    requires '.' !in s.name
    ensures ItemOf(DEFAULT, Key(s.name, s.args)) == ConfigItem([], s.name, s.args) && Kept(DEFAULT, Key(s.name, s.args))
  {
    DefaultPath();
  }

  lemma {:induction false} FlatRead(settings: seq<Setting>, k: nat)
    requires Flat(settings) && k <= |settings|
    ensures var ls := KeysOf(settings); Section(ls, k) == DEFAULT && Pending(ls, k) == [] && Leaked(ls, k) == []
    ensures Wanted(KeysOf(settings), k) == PlacesOf(settings, k) && (Adjacent(KeysOf(settings), k) <==> k > 0)
  {
    if k > 0 {
      FlatRead(settings, k - 1);
      FlatKey(settings[k - 1]);
      DefaultPath();
      assert Prefixes([]) == [];
      PlacesMore(settings, k - 1);
    }
  }

  lemma PlacesMore(settings: seq<Setting>, k: nat)
    requires Flat(settings) && k < |settings|
    ensures var pl := Place(ConfigItem([], settings[k].name, settings[k].args), Open([]));
            PlacesOf(settings, k + 1) == Merged(PlacesOf(settings, k), k > 0, pl)
  {
  }

  /**
    The reader's output for a file that was written: it has exactly one entry for each setting, in
    order, with its name and arguments, and no section is opened or left open.
   */
  method ReadWritten(settings: seq<Setting>, isNumber: string -> bool) returns (output: seq<ConfigItem>)
    requires NumbersPlain(isNumber) && Flat(settings) &&
               forall i | 0 <= i < |settings| :: Writable(settings[i], isNumber)
    ensures Replay(output) == Open([]) && Places(output) == PlacesOf(settings, |settings|)
  {
    FileReadsBack(settings, isNumber);
    FlatRead(settings, |settings|);
    FlatOrdinary(settings);
    output := FromConfig(SplitLines(FileOf(settings, isNumber), '\n'));
    assert Prefixes(Above([])) == [];
  }

  lemma FlatOrdinary(settings: seq<Setting>)
    requires Flat(settings)
    ensures Ordinary(KeysOf(settings))
  {
    forall k | 0 <= k < |settings| ensures !IsEvent(ItemOf(Section(KeysOf(settings), k), KeysOf(settings)[k])) {
      FlatRead(settings, k);
      FlatKey(settings[k]);
    }
  }
}
