/** The parser as functions from a text and a position to what was read there,
    or to the fault and the position where the parser stopped. A successful
    read returns the rendering it consumed. */
module JsonReader {
  import opened Octets
  import opened JsonSyntax

  datatype Fault =
    | Expected(want: Byte) | ExpectedLiteral
    | UnexpectedCharacter | UnexpectedEof
    | InvalidNumber | FloatNotSupported | IntegerOverflow
    | UnterminatedUnicode | InvalidHexDigit | NotFollowedByLow | InvalidLow | UnpairedLow
    | InvalidEscape | UnterminatedEscape | NulByte | UnterminatedString | InteriorNul
    | ArrayDelimiter | UnterminatedArray | ObjectDelimiter | UnterminatedObject
    | TrailingContent

  datatype Read<+T> = Got(val: T, next: nat) | Fail(fault: Fault, at: nat)

  /** `skip_ws`: the first position from `pos` on that holds no white space. */
  function SkipWs(b: seq<Byte>, pos: nat): (p: nat)
    requires pos <= |b|
    ensures pos <= p <= |b| && AllWs(b[pos..p])
    ensures p < |b| ==> !IsWs(b[p])
    decreases |b| - pos
  {
    if pos < |b| && IsWs(b[pos]) then
      assert b[pos..SkipWs(b, pos + 1)] == [b[pos]] + b[pos + 1..SkipWs(b, pos + 1)];
      SkipWs(b, pos + 1)
    else pos
  }

  predicate At(b: seq<Byte>, pos: nat, c: Byte) {
    pos < |b| && b[pos] == c
  }

  /** `expect`. */
  function Expect(b: seq<Byte>, pos: nat, c: Byte): Read<()> {
    if At(b, pos, c) then Got((), pos + 1) else Fail(Expected(c), pos)
  }

  /** `literal`: consumes byte by byte, the mismatching one included. */
  function Literal(b: seq<Byte>, pos: nat, lit: seq<Byte>): (r: Read<()>)
    requires pos <= |b|
    ensures r.Got? ==> r.next == pos + |lit| <= |b| && b[pos..r.next] == lit
    ensures r.Fail? ==> r.at <= |b|
    decreases |lit|
  {
    if |lit| == 0 then Got((), pos)
    else if pos >= |b| then Fail(ExpectedLiteral, pos)
    else if b[pos] != lit[0] then Fail(ExpectedLiteral, pos + 1)
    else
      var r := Literal(b, pos + 1, lit[1..]);
      assert r.Got? ==> b[pos..r.next] == [b[pos]] + b[pos + 1..r.next];
      r
  }

  function SkipDigits(b: seq<Byte>, pos: nat): (p: nat)
    requires pos <= |b|
    ensures pos <= p <= |b| && AllDigits(b[pos..p])
    ensures p < |b| ==> !IsDigit(b[p])
    decreases |b| - pos
  {
    if pos < |b| && IsDigit(b[pos]) then
      assert b[pos..SkipDigits(b, pos + 1)] == [b[pos]] + b[pos + 1..SkipDigits(b, pos + 1)];
      SkipDigits(b, pos + 1)
    else pos
  }

  /** `parse_number`. */
  function ReadNumber(b: seq<Byte>, pos: nat): (r: Read<Text>)
    requires pos < |b|
    ensures r.Got? ==> pos < r.next <= |b| && TextOk(r.val)
    ensures r.Fail? ==> r.at <= |b|
  {
    var neg := b[pos] == MINUS;
    var from := if neg then pos + 1 else pos;
    var to := SkipDigits(b, from);
    var digits := b[from..to];
    if to == from then Fail(InvalidNumber, to)
    else if to < |b| && (b[to] == 46 || b[to] == 101 || b[to] == 69) then Fail(FloatNotSupported, to)
    else if !IsI64(NumberValue(neg, digits)) then Fail(IntegerOverflow, to)
    else Got(NumberText(neg, digits), to)
  }

  /** `parse_hex4`, with `n` digits to go. */
  function ReadHex(b: seq<Byte>, pos: nat, n: nat): (r: Read<seq<Byte>>)
    requires pos <= |b|
    ensures r.Got? ==>
      r.next == pos + n <= |b| && r.val == b[pos..pos + n] && forall i :: 0 <= i < n ==> IsHex(r.val[i])
    ensures r.Fail? ==> r.at <= |b|
    decreases n
  {
    if n == 0 then Got([], pos)
    else if pos >= |b| then Fail(UnterminatedUnicode, pos)
    else if !IsHex(b[pos]) then Fail(InvalidHexDigit, pos + 1)
    else match ReadHex(b, pos + 1, n - 1)
      case Fail(f, at) => Fail(f, at)
      case Got(rest, next) =>
        assert b[pos..pos + n] == [b[pos]] + rest;
        Got([b[pos]] + rest, next)
  }

  /** The part of an escape after `\\u`. */
  function ReadUnicode(b: seq<Byte>, pos: nat): (r: Read<Piece>)
    requires pos <= |b|
    ensures r.Got? ==> pos < r.next <= |b| && PieceOk(r.val)
    ensures r.Fail? ==> r.at <= |b|
  {
    match ReadHex(b, pos, 4)
    case Fail(f, at) => Fail(f, at)
    case Got(h, p) =>
      var cp := Hex4Value(h);
      if IsHigh(cp) then
        if !At(b, p, BACKSLASH) then Fail(NotFollowedByLow, if p < |b| then p + 1 else p)
        else if !At(b, p + 1, LOWER_U) then Fail(NotFollowedByLow, if p + 1 < |b| then p + 2 else p + 1)
        else
          (match ReadHex(b, p + 2, 4)
           case Fail(f, at) => Fail(f, at)
           case Got(l, q) => if IsLow(Hex4Value(l)) then Got(Surrogates(h, l), q) else Fail(InvalidLow, q))
      else if IsLow(cp) then Fail(UnpairedLow, p)
      else Got(Unicode(h), p)
  }

  /** The body of a string after its opening quote, the closing quote
      included. */
  function ReadPieces(b: seq<Byte>, pos: nat): (r: Read<seq<Piece>>)
    requires pos <= |b|
    ensures r.Got? ==> pos < r.next <= |b| && PiecesOk(r.val)
    ensures r.Fail? ==> r.at <= |b|
    decreases |b| - pos
  {
    if pos >= |b| then Fail(UnterminatedString, pos)
    else if b[pos] == QUOTE then Got([], pos + 1)
    else match ReadPiece(b, pos)
      case Fail(f, at) => Fail(f, at)
      case Got(p, next) =>
        (match ReadPieces(b, next)
         case Fail(f, at) => Fail(f, at)
         case Got(rest, end) => Got([p] + rest, end))
  }

  /** One character of a string that does not end here. */
  function ReadPiece(b: seq<Byte>, pos: nat): (r: Read<Piece>)
    requires pos < |b| && b[pos] != QUOTE
    ensures r.Got? ==> pos < r.next <= |b| && PieceOk(r.val)
    ensures r.Fail? ==> r.at <= |b|
  {
    if b[pos] == BACKSLASH then
      if pos + 1 >= |b| then Fail(UnterminatedEscape, pos + 1)
      else if b[pos + 1] == LOWER_U then ReadUnicode(b, pos + 2)
      else if IsEscape(b[pos + 1]) then Got(Escaped(b[pos + 1]), pos + 2)
      else Fail(InvalidEscape, pos + 2)
    else if b[pos] == 0 then Fail(NulByte, pos + 1)
    else Got(Raw(b[pos]), pos + 1)
  }

  /** `parse_string`: a C string cannot hold a NUL. */
  function ReadString(b: seq<Byte>, pos: nat): (r: Read<seq<Piece>>)
    requires pos <= |b|
    ensures r.Got? ==> pos < r.next <= |b| && StringOk(r.val)
    ensures r.Fail? ==> r.at <= |b|
  {
    if !At(b, pos, QUOTE) then Fail(Expected(QUOTE), pos)
    else match ReadPieces(b, pos + 1)
      case Fail(f, at) => Fail(f, at)
      case Got(ps, next) => if 0 in PiecesValue(ps) then Fail(InteriorNul, next) else Got(ps, next)
  }

  /** `parse_value`. */
  function ReadValue(b: seq<Byte>, pos: nat): (r: Read<Text>)
    requires pos <= |b|
    ensures r.Got? ==> pos < r.next <= |b| && TextOk(r.val)
    ensures r.Fail? ==> r.at <= |b|
    decreases |b| - pos, 1
  {
    var p := SkipWs(b, pos);
    if p >= |b| then Fail(UnexpectedEof, p)
    else if b[p] == LBRACE then ReadObject(b, p)
    else if b[p] == LBRACKET then ReadArray(b, p)
    else if b[p] == QUOTE then
      (match ReadString(b, p)
       case Fail(f, at) => Fail(f, at)
       case Got(ps, next) => Got(StrText(ps), next))
    else if b[p] == 116 then
      (match Literal(b, p, TRUE) case Fail(f, at) => Fail(f, at) case Got(_, next) => Got(TrueText, next))
    else if b[p] == 102 then
      (match Literal(b, p, FALSE) case Fail(f, at) => Fail(f, at) case Got(_, next) => Got(FalseText, next))
    else if b[p] == 110 then
      (match Literal(b, p, NULL) case Fail(f, at) => Fail(f, at) case Got(_, next) => Got(NullText, next))
    else if b[p] == MINUS || IsDigit(b[p]) then ReadNumber(b, p)
    else Fail(UnexpectedCharacter, p)
  }

  /** `parse_array`. */
  function ReadArray(b: seq<Byte>, pos: nat): (r: Read<Text>)
    requires pos < |b|
    ensures r.Got? ==> pos < r.next <= |b| && TextOk(r.val)
    ensures r.Fail? ==> r.at <= |b|
    decreases |b| - pos, 0
  {
    var p := SkipWs(b, pos + 1);
    if At(b, p, RBRACKET) then Got(EmptyArray(b[pos + 1..p]), p + 1)
    else match ReadElements(b, pos + 1)
      case Fail(f, at) => Fail(f, at)
      case Got(es, next) => Got(ArrayText(es), next)
  }

  /** One element with the white space around it. */
  function ReadElement(b: seq<Byte>, pos: nat): (r: Read<Element>)
    requires pos <= |b|
    ensures r.Got? ==> pos < r.next <= |b| && ElementsOk([r.val])
    ensures r.Fail? ==> r.at <= |b|
    decreases |b| - pos, 2
  {
    match ReadValue(b, pos)
    case Fail(f, at) => Fail(f, at)
    case Got(v, next) =>
      var p := SkipWs(b, next);
      Got(Element(b[pos..SkipWs(b, pos)], v, b[next..p]), p)
  }

  /** The element loop, the closing bracket included. */
  function ReadElements(b: seq<Byte>, pos: nat): (r: Read<seq<Element>>)
    requires pos <= |b|
    ensures r.Got? ==> pos < r.next <= |b| && |r.val| > 0 && ElementsOk(r.val)
    ensures r.Fail? ==> r.at <= |b|
    decreases |b| - pos, 3
  {
    match ReadElement(b, pos)
    case Fail(f, at) => Fail(f, at)
    case Got(e, p) =>
      if p >= |b| then Fail(UnterminatedArray, p)
      else if b[p] == COMMA then
        (match ReadElements(b, p + 1)
         case Fail(f, at) => Fail(f, at)
         case Got(es, end) => Got([e] + es, end))
      else if b[p] == RBRACKET then Got([e], p + 1)
      else Fail(ArrayDelimiter, p)
  }

  /** `parse_object`. */
  function ReadObject(b: seq<Byte>, pos: nat): (r: Read<Text>)
    requires pos < |b|
    ensures r.Got? ==> pos < r.next <= |b| && TextOk(r.val)
    ensures r.Fail? ==> r.at <= |b|
    decreases |b| - pos, 0
  {
    var p := SkipWs(b, pos + 1);
    if At(b, p, RBRACE) then Got(EmptyObject(b[pos + 1..p]), p + 1)
    else match ReadMembers(b, pos + 1)
      case Fail(f, at) => Fail(f, at)
      case Got(ms, next) => Got(ObjectText(ms), next)
  }

  /** One member: name, colon and value with the white space around them. */
  function ReadMember(b: seq<Byte>, pos: nat): (r: Read<Member>)
    requires pos <= |b|
    ensures r.Got? ==> pos < r.next <= |b| && MembersOk([r.val])
    ensures r.Fail? ==> r.at <= |b|
    decreases |b| - pos, 2
  {
    var p := SkipWs(b, pos);
    match ReadString(b, p)
    case Fail(f, at) => Fail(f, at)
    case Got(name, afterName) =>
      var colon := SkipWs(b, afterName);
      if !At(b, colon, COLON) then Fail(Expected(COLON), colon)
      else match ReadValue(b, colon + 1)
        case Fail(f, at) => Fail(f, at)
        case Got(v, next) =>
          var q := SkipWs(b, next);
          Got(Member(b[pos..p], name, b[afterName..colon], b[colon + 1..SkipWs(b, colon + 1)], v, b[next..q]), q)
  }

  /** The member loop, the closing brace included. */
  function ReadMembers(b: seq<Byte>, pos: nat): (r: Read<seq<Member>>)
    requires pos <= |b|
    ensures r.Got? ==> pos < r.next <= |b| && |r.val| > 0 && MembersOk(r.val)
    ensures r.Fail? ==> r.at <= |b|
    decreases |b| - pos, 3
  {
    match ReadMember(b, pos)
    case Fail(f, at) => Fail(f, at)
    case Got(m, q) =>
      if q >= |b| then Fail(UnterminatedObject, q)
      else if b[q] == COMMA then
        (match ReadMembers(b, q + 1)
         case Fail(f, at) => Fail(f, at)
         case Got(ms, end) => Got([m] + ms, end))
      else if b[q] == RBRACE then Got([m], q + 1)
      else Fail(ObjectDelimiter, q)
  }

  /** `parse_document`: one value, with white space around it. */
  function ReadDocument(b: seq<Byte>): (r: Read<Element>)
    ensures r.Got? ==> r.next == |b| && ElementsOk([r.val])
    ensures r.Fail? ==> r.at <= |b|
  {
    match ReadElement(b, 0)
    case Fail(f, at) => Fail(f, at)
    case Got(e, p) => if p < |b| then Fail(TrailingContent, p) else Got(e, p)
  }
}
