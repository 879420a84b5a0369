/** The coverage map's text form: writer, parser and their round trip. */
module CoverageText {
  import opened Options
  import opened CoverageMap

  datatype Parsed = Parsed(n: nat, files: seq<string>, entries: seq<CovEntry>)

  const HEADER := "TYRA_COVMAP_V1"
  const COUNTERS := "N_COUNTERS="
  const FILES := "N_FILES="
  const ENTRIES := "N_ENTRIES="
  const FILE := "FILE:"
  const CTR := "CTR:"

  predicate IsU32(n: int) {
    0 <= n < 0x1_0000_0000
  }

  // ----- numbers

  predicate IsDigit(c: char) {
    '0' <= c <= '9'
  }

  function Digit(d: nat): (c: char)
    requires d < 10
    ensures IsDigit(c) && c as int - '0' as int == d
  {
    ('0' as int + d) as char
  }

  function Decimal(n: nat): (s: string)
    ensures |s| > 0 && forall i :: 0 <= i < |s| ==> IsDigit(s[i])
  {
    if n < 10 then [Digit(n)] else Decimal(n / 10) + [Digit(n % 10)]
  }

  function ReadDigits(s: string): nat
    requires forall i :: 0 <= i < |s| ==> IsDigit(s[i])
  {
    if |s| == 0 then 0 else
      assert IsDigit(s[|s| - 1]);
      ReadDigits(s[..|s| - 1]) * 10 + (s[|s| - 1] as int - '0' as int)
  }

  predicate AllDecimal(s: string) {
    forall i :: 0 <= i < |s| ==> '0' <= s[i] <= '9'
  }

  /** What follows a plus sign, or all. */
  function Unsigned(s: string): string {
    if |s| > 0 && s[0] == '+' then s[1..] else s
  }

  /** `str::parse::<u32>`: an optional plus sign, then digits. */
  function ParseU32(s: string): Option<nat> {
    var digits := Unsigned(s);
    if |digits| > 0 && AllDecimal(digits) && IsU32(ReadDigits(digits)) then Some(ReadDigits(digits)) else None
  }

  lemma {:induction false} DecimalReads(n: nat)
    ensures ReadDigits(Decimal(n)) == n
  {
    if n >= 10 {
      DecimalReads(n / 10);
      assert Decimal(n)[..|Decimal(n)| - 1] == Decimal(n / 10);
    } else {
      assert [Digit(n)][..0] == [];
    }
  }

  lemma DecimalParses(n: nat)
    requires IsU32(n)
    ensures ParseU32(Decimal(n)) == Some(n)
  {
    DecimalReads(n);
    assert IsDigit(Decimal(n)[0]);
  }

  // ----- searching and splitting

  function Find(s: string, c: char): (r: Option<nat>)
    ensures r.Some? ==> r.value < |s| && s[r.value] == c && c !in s[..r.value]
    ensures r.None? ==> c !in s
  {
    if |s| == 0 then None
    else if s[0] == c then Some(0)
    else match Find(s[1..], c)
      case None => None
      case Some(i) =>
        assert s[..i + 1] == [s[0]] + s[1..][..i];
        Some(i + 1)
  }

  lemma {:induction false} FindAt(a: string, c: char, b: string)
    requires c !in a
    ensures Find(a + [c] + b, c) == Some(|a|)
    decreases |a|
  {
    if |a| > 0 {
      FindAt(a[1..], c, b);
      assert (a + [c] + b)[1..] == a[1..] + [c] + b;
    }
  }

  /** `splitn(k, ':')`. */
  function SplitN(s: string, k: nat): (parts: seq<string>)
    requires k > 0
    ensures 0 < |parts| <= k
  {
    if k == 1 then [s]
    else match Find(s, ':')
      case None => [s]
      case Some(i) => [s[..i]] + SplitN(s[i + 1..], k - 1)
  }

  lemma SplitOff(a: string, b: string, k: nat)
    requires k > 1 && ':' !in a
    ensures SplitN(a + ":" + b, k) == [a] + SplitN(b, k - 1)
  {
    FindAt(a, ':', b);
    assert (a + ":" + b)[..|a|] == a && (a + ":" + b)[|a| + 1..] == b;
  }

  function StripPrefix(s: string, prefix: string): Option<string> {
    if prefix <= s then Some(s[|prefix|..]) else None
  }

  lemma Stripped(prefix: string, rest: string)
    ensures StripPrefix(prefix + rest, prefix) == Some(rest)
  {
  }

  // ----- lines

  /** A line ending is a line feed or a carriage return with a line feed. */
  function StripCr(s: string): string {
    if |s| > 0 && s[|s| - 1] == '\r' then s[..|s| - 1] else s
  }

  /** `str::lines`. */
  function Lines(text: string): seq<string> {
    if |text| == 0 then []
    else match Find(text, '\n')
      case None => [text]
      case Some(i) => [StripCr(text[..i])] + Lines(text[i + 1..])
  }

  /** Each line with its line feed. */
  function TextOf(ls: seq<string>): string {
    if |ls| == 0 then [] else TextOf(ls[..|ls| - 1]) + ls[|ls| - 1] + "\n"
  }

  predicate OneLine(s: string) {
    '\n' !in s
  }

  predicate AllOneLine(ls: seq<string>) {
    forall i :: 0 <= i < |ls| ==> OneLine(ls[i])
  }

  function StripAll(ls: seq<string>): (r: seq<string>)
    ensures |r| == |ls| && forall i :: 0 <= i < |ls| ==> r[i] == StripCr(ls[i])
  {
    if |ls| == 0 then [] else [StripCr(ls[0])] + StripAll(ls[1..])
  }

  lemma TextFront(ls: seq<string>)
    requires |ls| > 0
    ensures TextOf(ls) == ls[0] + "\n" + TextOf(ls[1..])
  {
    hide TextOf;
    NoText();
    TextGrows([], ls[0]);
    TextConcat([ls[0]], ls[1..]);
    assert [] + [ls[0]] == [ls[0]] && ls == [ls[0]] + ls[1..];
  }

  lemma {:induction false} LinesOfText(ls: seq<string>)
    requires AllOneLine(ls)
    ensures Lines(TextOf(ls)) == StripAll(ls)
    decreases |ls|
  {
    if |ls| > 0 {
      TextFront(ls);
      FindAt(ls[0], '\n', TextOf(ls[1..]));
      assert TextOf(ls)[..|ls[0]|] == ls[0] && TextOf(ls)[|ls[0]| + 1..] == TextOf(ls[1..]);
      LinesOfText(ls[1..]);
    }
  }

  /** No line holds a line feed. */
  lemma {:induction false} LinesOneLine(text: string)
    ensures AllOneLine(Lines(text))
    decreases |text|
  {
    if |text| > 0 && Find(text, '\n').Some? {
      LinesOneLine(text[Find(text, '\n').value + 1..]);
    }
  }

  // ----- writing

  function FileLine(i: nat, path: string): string {
    FILE + Decimal(i) + "=" + path
  }

  function EntryLine(e: CovEntry): string {
    CTR + Decimal(e.idx) + ":" + Decimal(e.loc.file) + ":" + Decimal(e.loc.line)
    + match e.fnName case Some(name) => ":" + name case None => ""
  }

  function FileLines(files: seq<string>): (ls: seq<string>)
    ensures |ls| == |files| && forall i :: 0 <= i < |files| ==> ls[i] == FileLine(i, files[i])
  {
    if |files| == 0 then []
    else FileLines(files[..|files| - 1]) + [FileLine(|files| - 1, files[|files| - 1])]
  }

  function EntryLines(entries: seq<CovEntry>): (ls: seq<string>)
    ensures |ls| == |entries| && forall i :: 0 <= i < |entries| ==> ls[i] == EntryLine(entries[i])
  {
    if |entries| == 0 then []
    else EntryLines(entries[..|entries| - 1]) + [EntryLine(entries[|entries| - 1])]
  }

  function CovLines(m: Parsed): seq<string> {
    [HEADER, COUNTERS + Decimal(m.n), FILES + Decimal(|m.files|)]
    + FileLines(m.files) + [ENTRIES + Decimal(|m.entries|)] + EntryLines(m.entries)
  }

  lemma TextGrows(ls: seq<string>, l: string)
    ensures TextOf(ls + [l]) == TextOf(ls) + l + "\n"
  {
    assert (ls + [l])[..|ls|] == ls;
  }

  lemma {:induction false} TextConcat(a: seq<string>, b: seq<string>)
    ensures TextOf(a + b) == TextOf(a) + TextOf(b)
    decreases |b|
  {
    hide TextOf;
    if |b| == 0 {
      assert a + b == a;
      NoText();
      assert b == [];
    } else {
      var n := |b| - 1;
      TextConcat(a, b[..n]);
      TextGrows(a + b[..n], b[n]);
      TextGrows(b[..n], b[n]);
      assert a + b == a + b[..n] + [b[n]] && b == b[..n] + [b[n]];
    }
  }

  lemma NoText()
    ensures TextOf([]) == ""
  {
  }

  /** `write_covmap_text`. */
  method WriteCovmapText(m: Parsed) returns (out: string)
    ensures out == TextOf(CovLines(m))
  {
    hide TextOf, Decimal, FileLines, EntryLines;
    out := HEADER + "\n";
    out := out + (COUNTERS + Decimal(m.n)) + "\n";
    out := out + (FILES + Decimal(|m.files|)) + "\n";
    var head := [HEADER, COUNTERS + Decimal(m.n), FILES + Decimal(|m.files|)];
    HeaderText(head);
    var files := FileSection(m.files);
    TextConcat(head, FileLines(m.files));
    out := out + files;
    TextGrows(head + FileLines(m.files), ENTRIES + Decimal(|m.entries|));
    out := out + (ENTRIES + Decimal(|m.entries|)) + "\n";
    var entries := EntrySection(m.entries);
    TextConcat(head + FileLines(m.files) + [ENTRIES + Decimal(|m.entries|)], EntryLines(m.entries));
    out := out + entries;
  }

  lemma HeaderText(head: seq<string>)
    requires |head| == 3
    ensures TextOf(head) == head[0] + "\n" + head[1] + "\n" + head[2] + "\n"
  {
    hide TextOf;
    NoText();
    TextGrows([], head[0]);
    TextGrows([head[0]], head[1]);
    TextGrows([head[0], head[1]], head[2]);
    assert [] + [head[0]] == [head[0]] && [head[0]] + [head[1]] == [head[0], head[1]]
      && [head[0], head[1]] + [head[2]] == head;
  }

  method FileSection(files: seq<string>) returns (out: string)
    ensures out == TextOf(FileLines(files))
  {
    hide TextOf, FileLine, FileLines;
    out := "";
    NoText();
    assert FileLines(files[..0]) == [];
    for i := 0 to |files|
      invariant out == TextOf(FileLines(files[..i]))
    {
      out := out + FileLine(i, files[i]) + "\n";
      assert files[..i + 1][..i] == files[..i];
      FileLinesEnd(files[..i + 1]);
      TextGrows(FileLines(files[..i]), FileLine(i, files[i]));
    }
    assert files[..|files|] == files;
  }

  method EntrySection(entries: seq<CovEntry>) returns (out: string)
    ensures out == TextOf(EntryLines(entries))
  {
    hide TextOf, EntryLine, EntryLines;
    out := "";
    NoText();
    assert EntryLines(entries[..0]) == [];
    for i := 0 to |entries|
      invariant out == TextOf(EntryLines(entries[..i]))
    {
      out := out + EntryLine(entries[i]) + "\n";
      assert entries[..i + 1][..i] == entries[..i];
      EntryLinesEnd(entries[..i + 1]);
      TextGrows(EntryLines(entries[..i]), EntryLine(entries[i]));
    }
    assert entries[..|entries|] == entries;
  }

  // ----- parsing

  /** A line `<prefix><number>`. */
  function ParseField(line: string, prefix: string): Option<nat> {
    match StripPrefix(line, prefix)
    case None => None
    case Some(rest) => ParseU32(rest)
  }

  /** The path of a file line: what follows the first equals sign. */
  function ParseFile(line: string): Option<string> {
    match Find(line, '=')
    case None => None
    case Some(eq) => Some(line[eq + 1..])
  }

  function ParseEntry(line: string): Option<CovEntry> {
    match StripPrefix(line, CTR)
    case None => None
    case Some(rest) =>
      var parts := SplitN(rest, 4);
      if |parts| < 3 || ParseU32(parts[0]).None? || ParseU32(parts[1]).None? || ParseU32(parts[2]).None? then None
      else Some(CovEntry(ParseU32(parts[0]).value, Loc(ParseU32(parts[1]).value, ParseU32(parts[2]).value),
                      if |parts| == 4 then Some(parts[3]) else None))
  }

  function ParseFiles(ls: seq<string>): Option<seq<string>> {
    if |ls| == 0 then Some([])
    else match ParseFiles(ls[..|ls| - 1])
      case None => None
      case Some(files) =>
        match ParseFile(ls[|ls| - 1])
        case None => None
        case Some(path) => Some(files + [path])
  }

  function ParseEntries(ls: seq<string>): Option<seq<CovEntry>> {
    if |ls| == 0 then Some([])
    else match ParseEntries(ls[..|ls| - 1])
      case None => None
      case Some(entries) =>
        match ParseEntry(ls[|ls| - 1])
        case None => None
        case Some(e) => Some(entries + [e])
  }

  /** What the lines of a file parse to. */
  function ParseLines(ls: seq<string>): Option<Parsed> {
    if |ls| < 3 || ls[0] != HEADER || ParseField(ls[1], COUNTERS).None? || ParseField(ls[2], FILES).None? then None
    else
      var k := ParseField(ls[2], FILES).value;
      if |ls| < 4 + k || ParseFiles(ls[3..3 + k]).None? || ParseField(ls[3 + k], ENTRIES).None? then None
      else
        var m := ParseField(ls[3 + k], ENTRIES).value;
        if |ls| < 4 + k + m || ParseEntries(ls[4 + k..4 + k + m]).None? then None
        else Some(Parsed(ParseField(ls[1], COUNTERS).value, ParseFiles(ls[3..3 + k]).value,
          ParseEntries(ls[4 + k..4 + k + m]).value))
  }

  /** `parse_covmap`. */
  method ParseCovmap(text: string) returns (r: Option<Parsed>)
    ensures r == ParseLines(Lines(text))
  {
    hide Lines, ParseField, ParseFiles, ParseEntries;
    var lines := Lines(text);
    if |lines| < 1 || lines[0] != HEADER || |lines| < 2 {
      return None;
    }
    var n := ParseField(lines[1], COUNTERS);
    if n.None? || |lines| < 3 {
      return None;
    }
    var k := ParseField(lines[2], FILES);
    if k.None? {
      return None;
    }
    var files := NextFiles(lines, 3, k.value);
    if files.None? || 3 + k.value == |lines| {
      return None;
    }
    var m := ParseField(lines[3 + k.value], ENTRIES);
    if m.None? {
      return None;
    }
    var entries := NextEntries(lines, 4 + k.value, m.value);
    if entries.None? {
      return None;
    }
    r := Some(Parsed(n.value, files.value, entries.value));
  }

  /** The loop over the file lines. */
  method NextFiles(lines: seq<string>, at: nat, count: nat) returns (r: Option<seq<string>>)
    requires at <= |lines|
    ensures r == if at + count <= |lines| then ParseFiles(lines[at..at + count]) else None
  {
    hide ParseFile;
    var files := [];
    for i := 0 to count
      invariant at + i <= |lines| && ParseFiles(lines[at..at + i]) == Some(files)
    {
      if at + i == |lines| {
        return None;
      }
      FilesStep(lines, at, at + i);
      var path := ParseFile(lines[at + i]);
      if path.None? {
        FilesFail(lines, at, at + i + 1, at + count);
        return None;
      }
      files := files + [path.value];
    }
    r := Some(files);
  }

  /** The loop over the counter lines. */
  method NextEntries(lines: seq<string>, at: nat, count: nat) returns (r: Option<seq<CovEntry>>)
    requires at <= |lines|
    ensures r == if at + count <= |lines| then ParseEntries(lines[at..at + count]) else None
  {
    hide ParseEntry;
    var entries := [];
    for i := 0 to count
      invariant at + i <= |lines| && ParseEntries(lines[at..at + i]) == Some(entries)
    {
      if at + i == |lines| {
        return None;
      }
      EntriesStep(lines, at, at + i);
      var e := ParseEntry(lines[at + i]);
      if e.None? {
        EntriesFail(lines, at, at + i + 1, at + count);
        return None;
      }
      entries := entries + [e.value];
    }
    r := Some(entries);
  }

  lemma FilesStep(ls: seq<string>, from: nat, end: nat)
    requires from <= end < |ls|
    ensures ParseFiles(ls[from..end + 1]) ==
      if ParseFiles(ls[from..end]).None? || ParseFile(ls[end]).None? then None
      else Some(ParseFiles(ls[from..end]).value + [ParseFile(ls[end]).value])
  {
    assert ls[from..end + 1][..end - from] == ls[from..end];
  }

  lemma {:induction false} FilesFail(ls: seq<string>, from: nat, mid: nat, end: nat)
    requires from <= mid <= end && mid <= |ls| && ParseFiles(ls[from..mid]).None?
    ensures end <= |ls| ==> ParseFiles(ls[from..end]).None?
    decreases end - mid
  {
    if mid < end <= |ls| {
      FilesStep(ls, from, mid);
      FilesFail(ls, from, mid + 1, end);
    }
  }

  lemma EntriesStep(ls: seq<string>, from: nat, end: nat)
    requires from <= end < |ls|
    ensures ParseEntries(ls[from..end + 1]) ==
      if ParseEntries(ls[from..end]).None? || ParseEntry(ls[end]).None? then None
      else Some(ParseEntries(ls[from..end]).value + [ParseEntry(ls[end]).value])
  {
    hide ParseEntry;
    assert ls[from..end + 1][..end - from] == ls[from..end];
  }

  lemma {:induction false} EntriesFail(ls: seq<string>, from: nat, mid: nat, end: nat)
    requires from <= mid <= end && mid <= |ls| && ParseEntries(ls[from..mid]).None?
    ensures end <= |ls| ==> ParseEntries(ls[from..end]).None?
    decreases end - mid
  {
    hide ParseEntry;
    if mid < end <= |ls| {
      EntriesStep(ls, from, mid);
      EntriesFail(ls, from, mid + 1, end);
    }
  }

  // ----- the round trip

  /** All numbers fit, as the program's `u32` fields and counts do. */
  predicate Sized(m: Parsed) {
    && IsU32(m.n) && IsU32(|m.files|) && IsU32(|m.entries|)
    && forall i :: 0 <= i < |m.entries| ==>
      IsU32(m.entries[i].idx) && IsU32(m.entries[i].loc.file) && IsU32(m.entries[i].loc.line)
  }

  lemma DecimalPlain(n: nat)
    ensures ':' !in Decimal(n) && '=' !in Decimal(n) && '\n' !in Decimal(n)
  {
    var ds := Decimal(n);
    forall i | 0 <= i < |ds| ensures ds[i] != ':' && ds[i] != '=' && ds[i] != '\n' {
      assert IsDigit(ds[i]);
    }
  }

  lemma FieldParses(prefix: string, n: nat)
    requires IsU32(n)
    ensures ParseField(prefix + Decimal(n), prefix) == Some(n)
  {
    hide Decimal, ParseU32;
    Stripped(prefix, Decimal(n));
    DecimalParses(n);
  }

  lemma FileParses(i: nat, path: string)
    ensures ParseFile(FileLine(i, path)) == Some(path)
  {
    hide Decimal, Find;
    DecimalPlain(i);
    assert '=' !in FILE + Decimal(i);
    assert FileLine(i, path) == (FILE + Decimal(i)) + ['='] + path;
    FindAt(FILE + Decimal(i), '=', path);
  }

  lemma EntryParses(e: CovEntry)
    requires IsU32(e.idx) && IsU32(e.loc.file) && IsU32(e.loc.line)
    ensures ParseEntry(EntryLine(e)) == Some(e)
  {
    hide Decimal, ParseU32, SplitN;
    var a, b, c := Decimal(e.idx), Decimal(e.loc.file), Decimal(e.loc.line);
    var tail := match e.fnName case Some(name) => c + ":" + name case None => c;
    DecimalPlain(e.idx);
    DecimalPlain(e.loc.file);
    DecimalPlain(e.loc.line);
    DecimalParses(e.idx);
    DecimalParses(e.loc.file);
    DecimalParses(e.loc.line);
    assert EntryLine(e) == CTR + (a + ":" + (b + ":" + tail));
    Stripped(CTR, a + ":" + (b + ":" + tail));
    SplitOff(a, b + ":" + tail, 4);
    SplitOff(b, tail, 3);
    SplitTail(c, e.fnName);
  }

  lemma SplitTail(c: string, fnName: Option<string>)
    requires ':' !in c
    ensures SplitN(match fnName case Some(name) => c + ":" + name case None => c, 2) ==
      match fnName case Some(name) => [c, name] case None => [c]
  {
    if fnName.Some? {
      SplitOff(c, fnName.value, 2);
    }
  }

  lemma FileLinesEnd(files: seq<string>)
    requires |files| > 0
    ensures FileLines(files) == FileLines(files[..|files| - 1]) + [FileLine(|files| - 1, files[|files| - 1])]
  {
    hide FileLine;
  }

  lemma FilesAppend(ls: seq<string>, l: string)
    ensures ParseFiles(ls + [l]) ==
      if ParseFiles(ls).None? || ParseFile(l).None? then None else Some(ParseFiles(ls).value + [ParseFile(l).value])
  {
    hide ParseFile;
    assert (ls + [l])[..|ls|] == ls;
  }

  lemma {:induction false} FilesParse(files: seq<string>)
    ensures ParseFiles(FileLines(files)) == Some(files)
    decreases |files|
  {
    hide FileLine, ParseFile, FileLines, ParseFiles;
    if |files| > 0 {
      var n := |files| - 1;
      FilesParse(files[..n]);
      FileParses(n, files[n]);
      FileLinesEnd(files);
      FilesAppend(FileLines(files[..n]), FileLine(n, files[n]));
      assert files[..n] + [files[n]] == files;
    } else {
      NoFiles();
      assert files == [] && FileLines(files) == [];
    }
  }

  lemma NoFiles()
    ensures ParseFiles([]) == Some([]) && ParseEntries([]) == Some([])
  {
  }

  lemma EntryLinesEnd(entries: seq<CovEntry>)
    requires |entries| > 0
    ensures EntryLines(entries) == EntryLines(entries[..|entries| - 1]) + [EntryLine(entries[|entries| - 1])]
  {
    hide EntryLine;
  }

  lemma EntriesAppend(ls: seq<string>, l: string)
    ensures ParseEntries(ls + [l]) ==
      if ParseEntries(ls).None? || ParseEntry(l).None? then None
        else Some(ParseEntries(ls).value + [ParseEntry(l).value])
  {
    hide ParseEntry;
    assert (ls + [l])[..|ls|] == ls;
  }

  lemma {:induction false} EntriesParse(entries: seq<CovEntry>)
    requires forall i :: 0 <= i < |entries| ==>
      IsU32(entries[i].idx) && IsU32(entries[i].loc.file) && IsU32(entries[i].loc.line)
    ensures ParseEntries(EntryLines(entries)) == Some(entries)
    decreases |entries|
  {
    hide EntryLine, ParseEntry, EntryLines, ParseEntries;
    if |entries| > 0 {
      var n := |entries| - 1;
      EntriesParse(entries[..n]);
      EntryParses(entries[n]);
      EntryLinesEnd(entries);
      EntriesAppend(EntryLines(entries[..n]), EntryLine(entries[n]));
      assert entries[..n] + [entries[n]] == entries;
    } else {
      NoFiles();
      assert entries == [] && EntryLines(entries) == [];
    }
  }

  /** The lines written parse back. */
  lemma WrittenLinesParse(m: Parsed)
    requires Sized(m)
    ensures ParseLines(CovLines(m)) == Some(m)
  {
    hide Decimal, ParseField, ParseFiles, ParseEntries, FileLines, EntryLines;
    var ls := CovLines(m);
    var k, e := |m.files|, |m.entries|;
    FieldParses(COUNTERS, m.n);
    FieldParses(FILES, k);
    FieldParses(ENTRIES, e);
    FilesParse(m.files);
    EntriesParse(m.entries);
    assert ls[3..3 + k] == FileLines(m.files);
    assert ls[4 + k..4 + k + e] == EntryLines(m.entries);
  }

  function StripName(e: CovEntry): CovEntry {
    e.(fnName := match e.fnName case Some(name) => Some(StripCr(name)) case None => None)
  }

  function StripNames(entries: seq<CovEntry>): (r: seq<CovEntry>)
    ensures |r| == |entries| && forall i :: 0 <= i < |entries| ==> r[i] == StripName(entries[i])
  {
    if |entries| == 0 then [] else StripNames(entries[..|entries| - 1]) + [StripName(entries[|entries| - 1])]
  }

  /** The map without the carriage returns at the ends of paths and names. */
  function Trimmed(m: Parsed): Parsed {
    Parsed(m.n, StripAll(m.files), StripNames(m.entries))
  }

  lemma StripAfter(a: string, b: string)
    requires |a| > 0 && a[|a| - 1] != '\r'
    ensures StripCr(a + b) == a + StripCr(b)
  {
  }

  lemma StripDecimal(a: string, n: nat)
    ensures StripCr(a + Decimal(n)) == a + Decimal(n)
  {
    var ds := Decimal(n);
    assert IsDigit(ds[|ds| - 1]);
    assert (a + ds)[|a + ds| - 1] == ds[|ds| - 1];
  }

  lemma StripFileLine(i: nat, path: string)
    ensures StripCr(FileLine(i, path)) == FileLine(i, StripCr(path))
  {
    hide Decimal;
    StripAfter(FILE + Decimal(i) + "=", path);
  }

  lemma StripEntryLine(e: CovEntry)
    ensures StripCr(EntryLine(e)) == EntryLine(StripName(e))
  {
    hide Decimal;
    var head := CTR + Decimal(e.idx) + ":" + Decimal(e.loc.file) + ":";
    if e.fnName.Some? {
      var a := head + Decimal(e.loc.line) + ":";
      assert EntryLine(e) == a + e.fnName.value;
      StripAfter(a, e.fnName.value);
    } else {
      StripDecimal(head, e.loc.line);
      assert EntryLine(e) == head + Decimal(e.loc.line) + "";
    }
  }

  lemma StripHeader()
    ensures StripCr(HEADER) == HEADER
  {
  }

  /** Reading lines trims exactly the paths and names. */
  lemma TrimmedLines(m: Parsed)
    ensures StripAll(CovLines(m)) == CovLines(Trimmed(m))
  {
    hide Decimal, FileLine, EntryLine, StripCr;
    StripHeader();
    StripDecimal(COUNTERS, m.n);
    StripDecimal(FILES, |m.files|);
    StripDecimal(ENTRIES, |m.entries|);
    var ls, ts := CovLines(m), CovLines(Trimmed(m));
    var k := |m.files|;
    forall i | 0 <= i < |ls| ensures StripCr(ls[i]) == ts[i] {
      if 3 <= i < 3 + k {
        StripFileLine(i - 3, m.files[i - 3]);
      } else if 4 + k <= i {
        StripEntryLine(m.entries[i - 4 - k]);
      }
    }
  }

  predicate NamesOneLine(m: Parsed) {
    && AllOneLine(m.files)
    && forall i :: 0 <= i < |m.entries| && m.entries[i].fnName.Some? ==> OneLine(m.entries[i].fnName.value)
  }

  lemma WrittenOneLine(m: Parsed)
    requires NamesOneLine(m)
    ensures AllOneLine(CovLines(m))
  {
    hide Decimal;
    var ls := CovLines(m);
    var k := |m.files|;
    DecimalPlain(m.n);
    DecimalPlain(|m.files|);
    DecimalPlain(|m.entries|);
    forall i | 0 <= i < |ls| ensures OneLine(ls[i]) {
      if 3 <= i < 3 + k {
        DecimalPlain(i - 3);
        assert ls[i] == FileLine(i - 3, m.files[i - 3]);
      } else if 4 + k <= i {
        EntryOneLine(m.entries[i - 4 - k]);
        assert ls[i] == EntryLine(m.entries[i - 4 - k]);
      }
    }
  }

  lemma EntryOneLine(e: CovEntry)
    requires e.fnName.Some? ==> OneLine(e.fnName.value)
    ensures OneLine(EntryLine(e))
  {
    hide Decimal;
    DecimalPlain(e.idx);
    DecimalPlain(e.loc.file);
    DecimalPlain(e.loc.line);
  }

  // ----- what is parsed from lines holds no line feed

  lemma {:induction false} SplitOneLine(s: string, k: nat)
    requires k > 0 && OneLine(s)
    ensures AllOneLine(SplitN(s, k))
    decreases k
  {
    if k > 1 && Find(s, ':').Some? {
      SplitOneLine(s[Find(s, ':').value + 1..], k - 1);
    }
  }

  lemma ParsedEntryOneLine(line: string)
    requires OneLine(line)
    ensures ParseEntry(line).Some? && ParseEntry(line).value.fnName.Some? ==>
      OneLine(ParseEntry(line).value.fnName.value)
  {
    hide ParseU32, SplitN;
    if StripPrefix(line, CTR).Some? {
      SplitOneLine(StripPrefix(line, CTR).value, 4);
    }
  }

  lemma {:induction false} ParsedFilesOneLine(ls: seq<string>)
    requires AllOneLine(ls)
    ensures ParseFiles(ls).Some? ==> AllOneLine(ParseFiles(ls).value)
    decreases |ls|
  {
    if |ls| > 0 {
      ParsedFilesOneLine(ls[..|ls| - 1]);
      assert OneLine(ls[|ls| - 1]);
    }
  }

  lemma {:induction false} ParsedEntriesOneLine(ls: seq<string>)
    requires AllOneLine(ls)
    ensures ParseEntries(ls).Some? ==>
      forall i :: 0 <= i < |ParseEntries(ls).value| && ParseEntries(ls).value[i].fnName.Some? ==>
        OneLine(ParseEntries(ls).value[i].fnName.value)
    decreases |ls|
  {
    hide ParseEntry;
    if |ls| > 0 {
      ParsedEntriesOneLine(ls[..|ls| - 1]);
      assert OneLine(ls[|ls| - 1]);
      ParsedEntryOneLine(ls[|ls| - 1]);
    }
  }

  lemma ParsedOneLine(ls: seq<string>)
    requires AllOneLine(ls) && ParseLines(ls).Some?
    ensures NamesOneLine(ParseLines(ls).value)
  {
    hide ParseField, ParseFiles, ParseEntries;
    var k := ParseField(ls[2], FILES).value;
    var m := ParseField(ls[3 + k], ENTRIES).value;
    ParsedFilesOneLine(ls[3..3 + k]);
    ParsedEntriesOneLine(ls[4 + k..4 + k + m]);
  }

  /** No line feed anywhere, and no carriage return at the end. */
  predicate Clean(s: string) {
    OneLine(s) && !(|s| > 0 && s[|s| - 1] == '\r')
  }

  predicate AllClean(m: Parsed) {
    && (forall i :: 0 <= i < |m.files| ==> Clean(m.files[i]))
    && forall i :: 0 <= i < |m.entries| && m.entries[i].fnName.Some? ==> Clean(m.entries[i].fnName.value)
  }

  lemma TrimmedSame(m: Parsed)
    requires NamesOneLine(m)
    ensures Trimmed(m) == m <==> AllClean(m)
  {
    var t := Trimmed(m);
    if t == m {
      forall i | 0 <= i < |m.files| ensures Clean(m.files[i]) {
        assert t.files[i] == StripCr(m.files[i]);
      }
      forall i | 0 <= i < |m.entries| && m.entries[i].fnName.Some? ensures Clean(m.entries[i].fnName.value) {
        assert t.entries[i] == StripName(m.entries[i]);
      }
    }
    if AllClean(m) {
      assert t.files == m.files && t.entries == m.entries;
    }
  }

  /** A written map parses back to itself exactly when no path and no function
      name holds a line feed or ends in a carriage return. */
  lemma CovmapRoundTrip(m: Parsed)
    requires Sized(m)
    ensures ParseLines(Lines(TextOf(CovLines(m)))) == Some(m) <==> AllClean(m)
  {
    hide Lines, TextOf, CovLines, ParseLines, Trimmed, Clean;
    var text := TextOf(CovLines(m));
    LinesOneLine(text);
    if NamesOneLine(m) {
      WrittenOneLine(m);
      LinesOfText(CovLines(m));
      TrimmedLines(m);
      TrimmedSized(m);
      WrittenLinesParse(Trimmed(m));
      TrimmedSame(m);
    } else {
      CleanOneLine(m);
      if ParseLines(Lines(text)).Some? {
        ParsedOneLine(Lines(text));
      }
    }
  }

  /** The map of one file whose name is a line feed does not. */
  lemma LineFeedLost()
    ensures var m := Parsed(0, ["\n"], []); Sized(m) && ParseLines(Lines(TextOf(CovLines(m)))) != Some(m)
  {
    hide ParseLines, Lines, TextOf, CovLines;
    var m := Parsed(0, ["\n"], []);
    assert m.files[0][0] == '\n' && !Clean(m.files[0]);
    CovmapRoundTrip(m);
  }

  lemma TrimmedSized(m: Parsed)
    requires Sized(m)
    ensures Sized(Trimmed(m))
  {
  }

  lemma CleanOneLine(m: Parsed)
    ensures AllClean(m) ==> NamesOneLine(m)
  {
  }
}
