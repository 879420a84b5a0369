/** The text form of the coverage map, line by line: what is written, and
    exactly what is accepted. */
module CoverageFormat {
  import opened Options
  import opened CoverageMap
  import opened CoverageText

  // ----- numerals

  /** The digits of a number, the most significant first. */
  lemma DigitsValue(s: string, c: char)
    requires AllDecimal(s) && '0' <= c <= '9'
    ensures ReadDigits("") == 0 && ReadDigits(s + [c]) == 10 * ReadDigits(s) + (c as int - '0' as int)
  {
    assert (s + [c])[..|s|] == s;
  }

  lemma {:induction false} DecimalShort(n: nat)
    ensures |Decimal(n)| > 1 ==> Decimal(n)[0] != '0'
    ensures n > 0 ==> Decimal(n)[0] != '0'
  {
    if n >= 10 {
      DecimalShort(n / 10);
    }
  }

  /** A number in 32 bits: digits, with or without a plus sign. */
  ghost predicate Numeral(s: string, n: nat) {
    && n < 0x1_0000_0000
    && exists ds :: (s == ds || s == "+" + ds) && |ds| > 0 && AllDecimal(ds) && ReadDigits(ds) == n
  }

  lemma NumeralParses(s: string, n: nat)
    ensures ParseU32(s) == Some(n) <==> Numeral(s, n)
  {
    hide ReadDigits, Unsigned;
    if ParseU32(s) == Some(n) {
      UnsignedIs(s, Unsigned(s));
    }
    if Numeral(s, n) {
      var ds :| (s == ds || s == "+" + ds) && |ds| > 0 && AllDecimal(ds) && ReadDigits(ds) == n;
      UnsignedIs(s, ds);
    }
  }

  lemma UnsignedIs(s: string, ds: string)
    requires |ds| > 0 && AllDecimal(ds)
    ensures Unsigned(s) == ds <==> s == ds || s == "+" + ds
  {
    assert '0' <= ds[0] <= '9';
    assert |s| > 0 ==> s == [s[0]] + s[1..];
  }

  // ----- what is written

  /** The lines of a map, in order; the numbers have no sign and no leading
      zeros. */
  lemma WrittenLines(m: Parsed)
    ensures var ls := CovLines(m);
      && |ls| == 4 + |m.files| + |m.entries|
      && ls[0] == "TYRA_COVMAP_V1" && ls[1] == "N_COUNTERS=" + Decimal(m.n)
      && ls[2] == "N_FILES=" + Decimal(|m.files|) && ls[3 + |m.files|] == "N_ENTRIES=" + Decimal(|m.entries|)
      && (forall i :: 0 <= i < |m.files| ==> ls[3 + i] == FileLine(i, m.files[i]))
      && (forall i :: 0 <= i < |m.entries| ==> ls[4 + |m.files| + i] == EntryLine(m.entries[i]))
  {
    hide Decimal, FileLine, EntryLine, FileLines, EntryLines;
  }

  /** How a file and a counter are written. */
  lemma WrittenEntry(i: nat, path: string, e: CovEntry)
    ensures FileLine(i, path) == "FILE:" + Decimal(i) + "=" + path
    ensures e.fnName == None ==>
      EntryLine(e) == "CTR:" + Decimal(e.idx) + ":" + Decimal(e.loc.file) + ":" + Decimal(e.loc.line)
    ensures e.fnName.Some? ==>
      EntryLine(e) ==
      "CTR:" + Decimal(e.idx) + ":" + Decimal(e.loc.file) + ":" + Decimal(e.loc.line) + ":" + e.fnName.value
  {
    hide Decimal;
  }

  // ----- what is accepted

  /** A file's path is what follows the first equals sign of its line. */
  ghost predicate FileSays(line: string, path: string) {
    exists a :: '=' !in a && line == a + "=" + path
  }

  lemma FileParses(line: string, path: string)
    ensures ParseFile(line) == Some(path) <==> FileSays(line, path)
  {
    if ParseFile(line) == Some(path) {
      var eq := Find(line, '=').value;
      assert line == line[..eq] + "=" + path;
    }
    if FileSays(line, path) {
      var a :| '=' !in a && line == a + "=" + path;
      FindAt(a, '=', path);
      assert line[|a| + 1..] == path;
    }
  }

  /** A counter's line: its number, file and line, and the rest a name. */
  ghost predicate EntrySays(line: string, e: CovEntry) {
    exists a, b, c :: Spelled(line, e, a, b, c)
  }

  ghost predicate Spelled(line: string, e: CovEntry, a: string, b: string, c: string) {
    && ':' !in a && ':' !in b && ':' !in c
    && Numeral(a, e.idx) && Numeral(b, e.loc.file) && Numeral(c, e.loc.line)
    && line == "CTR:" + (a + ":" + (b + ":" + if e.fnName.Some? then c + ":" + e.fnName.value else c))
  }

  lemma {:induction false} SplitJoins(s: string, k: nat)
    requires k > 0
    ensures var parts := SplitN(s, k);
      && (forall i :: 0 <= i < |parts| - 1 ==> ':' !in parts[i])
      && (|parts| < k ==> ':' !in parts[|parts| - 1])
      && s == JoinParts(parts)
    decreases k
  {
    hide SplitN, JoinParts, Find;
    if k > 1 && Find(s, ':').Some? {
      var i := Find(s, ':').value;
      SplitJoins(s[i + 1..], k - 1);
      SplitFirst(s, k);
      JoinFirst(s[..i], SplitN(s[i + 1..], k - 1));
      assert s == s[..i] + ":" + s[i + 1..];
    } else {
      SplitNone(s, k);
      JoinOne(s);
    }
  }

  lemma SplitFirst(s: string, k: nat)
    requires k > 1 && Find(s, ':').Some?
    ensures var i := Find(s, ':').value; SplitN(s, k) == [s[..i]] + SplitN(s[i + 1..], k - 1)
  {
    hide Find;
  }

  lemma SplitNone(s: string, k: nat)
    requires k > 0 && (k == 1 || Find(s, ':').None?)
    ensures SplitN(s, k) == [s]
  {
    hide Find;
  }

  function JoinParts(parts: seq<string>): string {
    if |parts| == 0 then "" else if |parts| == 1 then parts[0] else parts[0] + ":" + JoinParts(parts[1..])
  }

  lemma JoinFirst(a: string, parts: seq<string>)
    requires |parts| > 0
    ensures JoinParts([a] + parts) == a + ":" + JoinParts(parts)
  {
    assert ([a] + parts)[1..] == parts;
  }

  lemma JoinOne(a: string)
    ensures JoinParts([a]) == a
  {
  }

  lemma JoinThree(parts: seq<string>)
    requires |parts| == 3 || |parts| == 4
    ensures JoinParts(parts) ==
      parts[0] + ":" + (parts[1] + ":" + if |parts| == 4 then parts[2] + ":" + parts[3] else parts[2])
  {
    hide JoinParts;
    if |parts| == 4 {
      JoinOne(parts[3]);
      JoinFirst(parts[2], [parts[3]]);
      JoinFirst(parts[1], [parts[2], parts[3]]);
      JoinFirst(parts[0], [parts[1], parts[2], parts[3]]);
      assert [parts[2]] + [parts[3]] == [parts[2], parts[3]];
      assert [parts[1]] + [parts[2], parts[3]] == [parts[1], parts[2], parts[3]];
      assert [parts[0]] + [parts[1], parts[2], parts[3]] == parts;
    } else {
      JoinOne(parts[2]);
      JoinFirst(parts[1], [parts[2]]);
      JoinFirst(parts[0], [parts[1], parts[2]]);
      assert [parts[1]] + [parts[2]] == [parts[1], parts[2]];
      assert [parts[0]] + [parts[1], parts[2]] == parts;
    }
  }

  lemma SplitThree(a: string, b: string, c: string)
    requires ':' !in a && ':' !in b && ':' !in c
    ensures SplitN(a + ":" + (b + ":" + c), 4) == [a, b, c]
  {
    hide Find, SplitN;
    SplitOff(a, b + ":" + c, 4);
    SplitOff(b, c, 3);
    SplitLast(c);
  }

  lemma SplitFour(a: string, b: string, c: string, name: string)
    requires ':' !in a && ':' !in b && ':' !in c
    ensures SplitN(a + ":" + (b + ":" + (c + ":" + name)), 4) == [a, b, c, name]
  {
    hide Find, SplitN;
    SplitOff(a, b + ":" + (c + ":" + name), 4);
    SplitOff(b, c + ":" + name, 3);
    SplitOff(c, name, 2);
    SplitNone(name, 1);
  }

  lemma SplitLast(c: string)
    requires ':' !in c
    ensures SplitN(c, 2) == [c]
  {
  }

  lemma EntryParses(line: string, e: CovEntry)
    ensures ParseEntry(line) == Some(e) <==> EntrySays(line, e)
  {
    hide ParseU32, Numeral, SplitN, JoinParts;
    if ParseEntry(line) == Some(e) {
      EntryRead(line, e);
    }
    if EntrySays(line, e) {
      var a, b, c :| Spelled(line, e, a, b, c);
      var rest := a + ":" + (b + ":" + if e.fnName.Some? then c + ":" + e.fnName.value else c);
      Stripped(CTR, rest);
      if e.fnName.Some? {
        SplitFour(a, b, c, e.fnName.value);
      } else {
        SplitThree(a, b, c);
      }
      NumeralParses(a, e.idx);
      NumeralParses(b, e.loc.file);
      NumeralParses(c, e.loc.line);
    }
  }

  lemma EntryRead(line: string, e: CovEntry)
    requires ParseEntry(line) == Some(e)
    ensures EntrySays(line, e)
  {
    hide ParseU32, Numeral, SplitN, JoinParts;
    var rest := StripPrefix(line, CTR).value;
    var parts := SplitN(rest, 4);
    SplitJoins(rest, 4);
    JoinThree(parts);
    NumeralParses(parts[0], e.idx);
    NumeralParses(parts[1], e.loc.file);
    NumeralParses(parts[2], e.loc.line);
    assert line == CTR + rest;
    assert Spelled(line, e, parts[0], parts[1], parts[2]);
  }

  lemma {:induction false} FilesParse(ls: seq<string>, files: seq<string>)
    ensures ParseFiles(ls) == Some(files) <==>
      |files| == |ls| && forall i :: 0 <= i < |ls| ==> FileSays(ls[i], files[i])
    decreases |ls|
  {
    hide ParseFile, FileSays;
    if |ls| > 0 {
      var n := |ls| - 1;
      if |files| > 0 {
        FilesParse(ls[..n], files[..|files| - 1]);
        FileParses(ls[n], files[|files| - 1]);
        assert files == files[..|files| - 1] + [files[|files| - 1]];
      }
    }
  }

  lemma {:induction false} EntriesParse(ls: seq<string>, entries: seq<CovEntry>)
    ensures ParseEntries(ls) == Some(entries) <==>
      |entries| == |ls| && forall i :: 0 <= i < |ls| ==> EntrySays(ls[i], entries[i])
    decreases |ls|
  {
    hide ParseEntry, EntrySays;
    if |ls| > 0 {
      var n := |ls| - 1;
      if |entries| > 0 {
        EntriesParse(ls[..n], entries[..|entries| - 1]);
        EntryParses(ls[n], entries[|entries| - 1]);
        assert entries == entries[..|entries| - 1] + [entries[|entries| - 1]];
      }
    }
  }

  /** A line that is `prefix` and a numeral. */
  ghost predicate FieldSays(line: string, prefix: string, n: nat) {
    exists s :: line == prefix + s && Numeral(s, n)
  }

  lemma FieldParses(line: string, prefix: string, n: nat)
    ensures ParseField(line, prefix) == Some(n) <==> FieldSays(line, prefix, n)
  {
    hide ParseU32, Numeral;
    if ParseField(line, prefix) == Some(n) {
      var s := StripPrefix(line, prefix).value;
      assert line == prefix + s;
      NumeralParses(s, n);
    }
    if FieldSays(line, prefix, n) {
      var s :| line == prefix + s && Numeral(s, n);
      Stripped(prefix, s);
      NumeralParses(s, n);
    }
  }

  /** The lines say `m`: the header, the three counts, and as many file and
      counter lines as they announce. More lines may follow. */
  ghost predicate Says(ls: seq<string>, m: Parsed) {
    var k, e := |m.files|, |m.entries|;
    && |ls| >= 4 + k + e
    && ls[0] == "TYRA_COVMAP_V1" && FieldSays(ls[1], "N_COUNTERS=", m.n) && FieldSays(ls[2], "N_FILES=", k)
    && (forall i :: 0 <= i < k ==> FileSays(ls[3 + i], m.files[i]))
    && FieldSays(ls[3 + k], "N_ENTRIES=", e)
    && (forall i :: 0 <= i < e ==> EntrySays(ls[4 + k + i], m.entries[i]))
  }

  /** The parser accepts exactly the lines that say a map, and returns it. */
  lemma ParsesWhatIsSaid(ls: seq<string>, m: Parsed)
    ensures ParseLines(ls) == Some(m) <==> Says(ls, m)
  {
    hide ParseField, ParseFiles, ParseEntries, FieldSays, FileSays, EntrySays;
    var k, e := |m.files|, |m.entries|;
    if |ls| >= 4 + k + e {
      var fileLines, entryLines := ls[3..3 + k], ls[4 + k..4 + k + e];
      FieldParses(ls[1], COUNTERS, m.n);
      FieldParses(ls[2], FILES, k);
      FieldParses(ls[3 + k], ENTRIES, e);
      FilesParse(fileLines, m.files);
      EntriesParse(entryLines, m.entries);
      assert forall i :: 0 <= i < k ==> fileLines[i] == ls[3 + i];
      assert forall i :: 0 <= i < e ==> entryLines[i] == ls[4 + k + i];
    }
    if ParseLines(ls) == Some(m) {
      CountsAgree(ls, m);
    }
  }

  lemma CountsAgree(ls: seq<string>, m: Parsed)
    requires ParseLines(ls) == Some(m)
    ensures |ls| >= 4 + |m.files| + |m.entries|
    ensures ParseField(ls[2], FILES) == Some(|m.files|)
    ensures ParseField(ls[3 + |m.files|], ENTRIES) == Some(|m.entries|)
  {
    hide ParseField, ParseFiles, ParseEntries, FileSays, EntrySays;
    var k := ParseField(ls[2], FILES).value;
    FilesParse(ls[3..3 + k], m.files);
    var e := ParseField(ls[3 + k], ENTRIES).value;
    EntriesParse(ls[4 + k..4 + k + e], m.entries);
  }

  // ----- lines

  lemma LinesStep(first: string, rest: string)
    requires OneLine(first)
    ensures Lines(first + "\n" + rest) == [StripCr(first)] + Lines(rest)
  {
    hide Find;
    var text := first + "\n" + rest;
    FindAt(first, '\n', rest);
    assert text == first + ['\n'] + rest;
    assert text[..|first|] == first && text[|first| + 1..] == rest;
  }

  lemma LinesLast(s: string)
    requires OneLine(s) && |s| > 0
    ensures Lines(s) == [s]
  {
  }

  /** A last line without a line feed is kept as it is. */
  lemma {:induction false} LastLine(ls: seq<string>, s: string)
    requires AllOneLine(ls) && OneLine(s) && |s| > 0
    ensures Lines(TextOf(ls) + s) == StripAll(ls) + [s]
    decreases |ls|
  {
    hide Lines, TextOf;
    if |ls| == 0 {
      NoText();
      assert ls == [] && "" + s == s;
      LinesLast(s);
    } else {
      TextFront(ls);
      LinesStep(ls[0], TextOf(ls[1..]) + s);
      assert TextOf(ls) + s == ls[0] + "\n" + (TextOf(ls[1..]) + s);
      LastLine(ls[1..], s);
    }
  }
}
