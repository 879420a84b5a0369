/** Every fault the parser reports is one that the text has at that place. */
module JsonFaults {
  import opened Octets
  import opened JsonSyntax
  import opened JsonReader
  import opened JsonLaws
  import opened JsonParser

  /** The byte just read. */
  predicate Before(b: seq<Byte>, at: nat, c: Byte) {
    0 < at <= |b| && b[at - 1] == c
  }

  predicate AtEnd(b: seq<Byte>, at: nat) {
    at == |b|
  }

  predicate StartsValue(c: Byte) {
    c == 123 || c == 91 || c == 34 || c == 116 || c == 102 || c == 110 || c == 45 || 48 <= c <= 57
  }

  /** A literal breaks off at the end, or at a byte that is not its next. */
  ghost predicate LiteralBreaks(b: seq<Byte>, at: nat) {
    exists lit, p: nat, i: nat :: IsLiteral(lit) && BreaksAt(b, at, lit, p, i)
  }

  predicate IsLiteral(lit: seq<Byte>) {
    lit == [110, 117, 108, 108] || lit == [116, 114, 117, 101] || lit == [102, 97, 108, 115, 101]
  }

  ghost predicate BreaksAt(b: seq<Byte>, at: nat, lit: seq<Byte>, p: nat, i: nat) {
    && i < |lit| && p + i <= |b| && b[p..p + i] == lit[..i]
    && if p + i == |b| then at == |b| else b[p + i] != lit[i] && at == p + i + 1
  }

  /** The four hexadecimal digits just read, in a surrogate range or not. */
  predicate UnitBefore(b: seq<Byte>, at: nat, low: bool) {
    4 <= at <= |b| && IsHex4(b[at - 4..at]) && (IsLow(Hex4Value(b[at - 4..at])) <==> low)
  }

  /** A high surrogate ended at `p`, and no `\u` follows it. */
  predicate NoLowAfter(b: seq<Byte>, at: nat, p: nat) {
    && 4 <= p <= |b| && IsHex4(b[p - 4..p]) && IsHigh(Hex4Value(b[p - 4..p]))
    && if p == |b| then at == p
       else if b[p] != 92 then at == p + 1
       else if p + 1 == |b| then at == p + 1
       else b[p + 1] != 117 && at == p + 2
  }

  /** An integer outside an `i64` ends at `at`. */
  ghost predicate OverflowBefore(b: seq<Byte>, at: nat) {
    exists p: nat, neg: bool :: p < at <= |b| && (neg ==> Before(b, p, 45)) && AllDigits(b[p..at])
      && !IsI64(NumberValue(neg, b[p..at]))
  }

  /** A string that ends at `at` has NUL in its value. */
  ghost predicate NulBefore(b: seq<Byte>, at: nat) {
    exists p: nat :: p <= at <= |b| && StringEndsAt(b, p, at)
  }

  ghost predicate StringEndsAt(b: seq<Byte>, p: nat, at: nat)
    requires p <= |b|
  {
    exists ps :: PiecesOk(ps) && Holds(b, p, PiecesText(ps) + [QUOTE]) && at == p + |PiecesText(ps)| + 1
      && 0 in PiecesValue(ps)
  }

  /** A whole value ends at `at`, and more than white space follows. */
  ghost predicate MoreAfter(b: seq<Byte>, at: nat) {
    at < |b| && !IsWs(b[at]) && exists e :: ElementsOk([e]) && ElementBytes(e) == b[..at]
  }

  /** What a fault says of the text and the place. */
  ghost predicate Real(b: seq<Byte>, f: Fault, at: nat) {
    match f
    case Expected(want) => (want == 34 || want == 58) && at <= |b| && !At(b, at, want)
    case ExpectedLiteral => LiteralBreaks(b, at)
    case UnexpectedCharacter => at < |b| && !StartsValue(b[at]) && !IsWs(b[at])
    case UnexpectedEof => AtEnd(b, at)
    case InvalidNumber => Before(b, at, 45) && !(at < |b| && IsDigit(b[at]))
    case FloatNotSupported => 0 < at < |b| && IsDigit(b[at - 1]) && (b[at] == 46 || b[at] == 101 || b[at] == 69)
    case IntegerOverflow => OverflowBefore(b, at)
    case UnterminatedUnicode => AtEnd(b, at)
    case InvalidHexDigit => 0 < at <= |b| && !IsHex(b[at - 1])
    case NotFollowedByLow => exists p: nat :: NoLowAfter(b, at, p)
    case InvalidLow => UnitBefore(b, at, false)
    case UnpairedLow => UnitBefore(b, at, true)
    case InvalidEscape => 2 <= at <= |b| && b[at - 2] == 92 && !IsEscape(b[at - 1]) && b[at - 1] != 117
    case UnterminatedEscape => AtEnd(b, at) && Before(b, at, 92)
    case NulByte => Before(b, at, 0)
    case UnterminatedString => AtEnd(b, at)
    case InteriorNul => NulBefore(b, at)
    case ArrayDelimiter => at < |b| && b[at] != 44 && b[at] != 93 && !IsWs(b[at])
    case UnterminatedArray => AtEnd(b, at)
    case ObjectDelimiter => at < |b| && b[at] != 44 && b[at] != 125 && !IsWs(b[at])
    case UnterminatedObject => AtEnd(b, at)
    case TrailingContent => MoreAfter(b, at)
  }

  ghost predicate RealFail<T>(b: seq<Byte>, r: Read<T>) {
    r.Fail? ==> Real(b, r.fault, r.at)
  }

  // ----- literals, numbers

  lemma {:induction false} LiteralFails(b: seq<Byte>, pos: nat, lit: seq<Byte>, i: nat)
    requires pos <= |b| && IsLiteral(lit) && i <= |lit| && i <= pos && b[pos - i..pos] == lit[..i]
    ensures RealFail(b, Literal(b, pos, lit[i..]))
    decreases |lit| - i
  {
    hide IsLiteral;
    if i < |lit| {
      if pos < |b| && b[pos] == lit[i] {
        assert b[pos - i..pos + 1] == b[pos - i..pos] + [b[pos]];
        assert lit[..i + 1] == lit[..i] + [lit[i]] && lit[i..][1..] == lit[i + 1..];
        LiteralFails(b, pos + 1, lit, i + 1);
      } else {
        assert BreaksAt(b, if pos == |b| then pos else pos + 1, lit, pos - i, i);
      }
    }
  }

  lemma LiteralReal(b: seq<Byte>, pos: nat, lit: seq<Byte>)
    requires pos <= |b| && IsLiteral(lit)
    ensures RealFail(b, Literal(b, pos, lit))
  {
    hide IsLiteral;
    assert b[pos - 0..pos] == lit[..0] && lit[0..] == lit;
    LiteralFails(b, pos, lit, 0);
  }

  lemma NumberReal(b: seq<Byte>, pos: nat)
    requires pos < |b| && (b[pos] == MINUS || IsDigit(b[pos]))
    ensures RealFail(b, ReadNumber(b, pos))
  {
    hide NumberValue;
    var neg := b[pos] == MINUS;
    var from := if neg then pos + 1 else pos;
    var end := SkipDigits(b, from);
    if end > from {
      assert b[from..end][end - from - 1] == b[end - 1];
      assert OverflowBefore(b, end) <== !IsI64(NumberValue(neg, b[from..end]));
    }
  }

  // ----- strings

  lemma {:induction false} HexReal(b: seq<Byte>, pos: nat, n: nat)
    requires pos <= |b|
    ensures RealFail(b, ReadHex(b, pos, n))
    decreases n
  {
    if n > 0 && pos < |b| {
      HexReal(b, pos + 1, n - 1);
    }
  }

  lemma UnicodeReal(b: seq<Byte>, pos: nat)
    requires pos <= |b|
    ensures RealFail(b, ReadUnicode(b, pos))
  {
    hide Hex4Value, ReadHex;
    HexReal(b, pos, 4);
    var first := ReadHex(b, pos, 4);
    if first.Got? && IsHigh(Hex4Value(first.val)) {
      var p := first.next;
      if At(b, p, BACKSLASH) && At(b, p + 1, LOWER_U) {
        HexReal(b, p + 2, 4);
      } else {
        assert b[p - 4..p] == first.val;
        assert NoLowAfter(b, ReadUnicode(b, pos).at, p);
      }
    }
  }

  lemma PieceReal(b: seq<Byte>, pos: nat)
    requires pos < |b| && b[pos] != QUOTE
    ensures RealFail(b, ReadPiece(b, pos))
  {
    hide ReadUnicode;
    if pos + 1 < |b| {
      UnicodeReal(b, pos + 2);
    }
  }

  lemma {:induction false} PiecesReal(b: seq<Byte>, pos: nat)
    requires pos <= |b|
    ensures RealFail(b, ReadPieces(b, pos))
    decreases |b| - pos
  {
    hide ReadPiece, Real;
    if pos >= |b| {
      EndReal(b);
    } else if b[pos] != QUOTE {
      PieceReal(b, pos);
      if ReadPiece(b, pos).Got? {
        PiecesReal(b, ReadPiece(b, pos).next);
      }
    }
  }

  lemma EndReal(b: seq<Byte>)
    ensures Real(b, UnterminatedString, |b|) && Real(b, UnexpectedEof, |b|)
    ensures Real(b, UnterminatedArray, |b|) && Real(b, UnterminatedObject, |b|)
  {
  }

  lemma StringReal(b: seq<Byte>, pos: nat)
    requires pos <= |b|
    ensures RealFail(b, ReadString(b, pos))
  {
    hide ReadPieces, PiecesValue, PiecesText;
    if At(b, pos, QUOTE) {
      PiecesReal(b, pos + 1);
      var r := ReadPieces(b, pos + 1);
      if r.Got? && 0 in PiecesValue(r.val) {
        ReadPiecesText(b, pos + 1);
        assert StringEndsAt(b, pos + 1, r.next);
      }
    }
  }

  // ----- values

  lemma {:induction false} ValueReal(b: seq<Byte>, pos: nat)
    requires pos <= |b|
    ensures RealFail(b, ReadValue(b, pos))
    decreases |b| - pos, 1
  {
    hide ReadObject, ReadArray, ReadString, ReadNumber, Literal, Real;
    var p := SkipWs(b, pos);
    if p >= |b| {
      EndReal(b);
    } else if b[p] == LBRACE {
      ObjectReal(b, p);
    } else if b[p] == LBRACKET {
      ArrayReal(b, p);
    } else if b[p] == QUOTE {
      StringReal(b, p);
    } else if b[p] == MINUS || IsDigit(b[p]) {
      NumberReal(b, p);
    } else {
      assert IsLiteral(TRUE) && IsLiteral(FALSE) && IsLiteral(NULL);
      LiteralReal(b, p, TRUE);
      LiteralReal(b, p, FALSE);
      LiteralReal(b, p, NULL);
      CharacterReal(b, p);
    }
  }

  lemma CharacterReal(b: seq<Byte>, p: nat)
    requires p < |b| && !IsWs(b[p])
    ensures StartsValue(b[p]) || Real(b, UnexpectedCharacter, p)
  {
  }

  lemma {:induction false} ArrayReal(b: seq<Byte>, pos: nat)
    requires pos < |b|
    ensures RealFail(b, ReadArray(b, pos))
    decreases |b| - pos, 0
  {
    hide ReadElements, Real;
    ElementsReal(b, pos + 1);
  }

  lemma {:induction false} ElementReal(b: seq<Byte>, pos: nat)
    requires pos <= |b|
    ensures RealFail(b, ReadElement(b, pos))
    ensures var r := ReadElement(b, pos); r.Got? && r.next < |b| ==> !IsWs(b[r.next])
    decreases |b| - pos, 2
  {
    hide ReadValue, Real;
    ValueReal(b, pos);
  }

  lemma {:induction false} ElementsReal(b: seq<Byte>, pos: nat)
    requires pos <= |b|
    ensures RealFail(b, ReadElements(b, pos))
    decreases |b| - pos, 3
  {
    hide ReadElement, Real;
    ElementReal(b, pos);
    var r := ReadElement(b, pos);
    if r.Got? {
      if r.next == |b| {
        EndReal(b);
      } else if b[r.next] == COMMA {
        ElementsReal(b, r.next + 1);
      } else if b[r.next] != RBRACKET {
        DelimiterReal(b, r.next);
      }
    }
  }

  lemma DelimiterReal(b: seq<Byte>, p: nat)
    requires p < |b| && !IsWs(b[p]) && b[p] != COMMA
    ensures b[p] != RBRACKET ==> Real(b, ArrayDelimiter, p)
    ensures b[p] != RBRACE ==> Real(b, ObjectDelimiter, p)
  {
  }

  lemma {:induction false} ObjectReal(b: seq<Byte>, pos: nat)
    requires pos < |b|
    ensures RealFail(b, ReadObject(b, pos))
    decreases |b| - pos, 0
  {
    hide ReadMembers, Real;
    MembersReal(b, pos + 1);
  }

  lemma {:induction false} MemberReal(b: seq<Byte>, pos: nat)
    requires pos <= |b|
    ensures RealFail(b, ReadMember(b, pos))
    ensures var r := ReadMember(b, pos); r.Got? && r.next < |b| ==> !IsWs(b[r.next])
    decreases |b| - pos, 2
  {
    hide ReadValue, ReadString, Real;
    var p := SkipWs(b, pos);
    StringReal(b, p);
    var name := ReadString(b, p);
    if name.Got? {
      var colon := SkipWs(b, name.next);
      if At(b, colon, COLON) {
        ValueReal(b, colon + 1);
      } else {
        ColonReal(b, colon);
      }
    }
  }

  lemma ColonReal(b: seq<Byte>, p: nat)
    requires p <= |b| && !At(b, p, COLON)
    ensures Real(b, Expected(COLON), p)
  {
  }

  lemma {:induction false} MembersReal(b: seq<Byte>, pos: nat)
    requires pos <= |b|
    ensures RealFail(b, ReadMembers(b, pos))
    decreases |b| - pos, 3
  {
    hide ReadMember, Real;
    MemberReal(b, pos);
    var r := ReadMember(b, pos);
    if r.Got? {
      if r.next == |b| {
        EndReal(b);
      } else if b[r.next] == COMMA {
        MembersReal(b, r.next + 1);
      } else if b[r.next] != RBRACE {
        DelimiterReal(b, r.next);
      }
    }
  }

  // ----- documents

  /** A refused text has the fault reported, at the line and column reported. */
  lemma FaultsAreReal(b: seq<Byte>)
    requires DocumentResult(b).Err?
    ensures exists at: nat ::
              && at <= |b| && Real(b, DocumentResult(b).fault, at)
              && DocumentResult(b).line == LineAt(b, at) && DocumentResult(b).col == ColAt(b, at)
  {
    hide ReadElement, Real, ElementBytes, ElementsOk;
    ElementReal(b, 0);
    var r := ReadElement(b, 0);
    if r.Got? {
      ReadElementText(b, 0);
      TrailingReal(b, r.val, r.next);
    }
    assert ReadDocument(b).Fail?;
    var at := ReadDocument(b).at;
    assert at <= |b| && Real(b, DocumentResult(b).fault, at);
  }

  lemma TrailingReal(b: seq<Byte>, e: Element, p: nat)
    requires ElementsOk([e]) && Holds(b, 0, ElementBytes(e)) && p == |ElementBytes(e)| && (p < |b| ==> !IsWs(b[p]))
    ensures p < |b| ==> Real(b, TrailingContent, p)
  {
    hide ElementBytes, ElementsOk;
    assert ElementBytes(e) == b[..p];
  }
}
