/** JSON values, and the texts that render them. A rendering is a tree that
    records every choice a writer has: white space, digits, escapes. Section
    numbers are those of RFC 8259. */
module JsonSyntax {
  import opened Octets

  const QUOTE: Byte := 34
  const COMMA: Byte := 44
  const MINUS: Byte := 45
  const SLASH: Byte := 47
  const COLON: Byte := 58
  const LBRACKET: Byte := 91
  const BACKSLASH: Byte := 92
  const RBRACKET: Byte := 93
  const LBRACE: Byte := 123
  const RBRACE: Byte := 125
  const LOWER_U: Byte := 117
  const NEWLINE: Byte := 10

  /** `JsonValue`. Strings are the bytes of a C string. */
  datatype Json =
    | Null
    | Bool(b: bool)
    | Int(n: int)
    | Str(s: seq<Byte>)
    | Array(items: seq<Json>)
    | Object(members: seq<(seq<Byte>, Json)>)

  // ----- characters

  predicate IsWs(b: Byte) {
    b == 32 || b == 9 || b == 10 || b == 13
  }

  predicate AllWs(bs: seq<Byte>) {
    forall i :: 0 <= i < |bs| ==> IsWs(bs[i])
  }

  predicate IsDigit(b: Byte) {
    48 <= b <= 57
  }

  predicate AllDigits(bs: seq<Byte>) {
    forall i :: 0 <= i < |bs| ==> IsDigit(bs[i])
  }

  predicate IsHex(b: Byte) {
    48 <= b <= 57 || 97 <= b <= 102 || 65 <= b <= 70
  }

  function HexValue(b: Byte): (v: nat)
    requires IsHex(b)
    ensures v < 16
  {
    if b <= 57 then b - 48 else if b >= 97 then b - 87 else b - 55
  }

  predicate IsHex4(h: seq<Byte>) {
    |h| == 4 && IsHex(h[0]) && IsHex(h[1]) && IsHex(h[2]) && IsHex(h[3])
  }

  /** `cp = (cp << 4) | v`, four times. */
  function Hex4Value(h: seq<Byte>): (v: nat)
    requires IsHex4(h)
    ensures v < 0x10000
  {
    ((HexValue(h[0]) * 16 + HexValue(h[1])) * 16 + HexValue(h[2])) * 16 + HexValue(h[3])
  }

  // ----- Unicode (RFC 3629)

  predicate IsHigh(cp: nat) {
    0xD800 <= cp <= 0xDBFF
  }

  predicate IsLow(cp: nat) {
    0xDC00 <= cp <= 0xDFFF
  }

  /** What `char::from_u32` accepts. */
  predicate IsScalar(cp: nat) {
    cp < 0x110000 && !(0xD800 <= cp <= 0xDFFF)
  }

  function Combine(high: nat, low: nat): (cp: nat)
    requires IsHigh(high) && IsLow(low)
    ensures 0x10000 <= cp < 0x110000
  {
    0x10000 + (high - 0xD800) * 1024 + (low - 0xDC00)
  }

  /** `encode_utf8`. */
  function Utf8(cp: nat): seq<Byte>
    requires IsScalar(cp)
  {
    if cp < 0x80 then [cp]
    else if cp < 0x800 then [0xC0 + cp / 64, 0x80 + cp % 64]
    else if cp < 0x10000 then [0xE0 + cp / 4096, 0x80 + cp / 64 % 64, 0x80 + cp % 64]
    else [0xF0 + cp / 262144, 0x80 + cp / 4096 % 64, 0x80 + cp / 64 % 64, 0x80 + cp % 64]
  }

  // ----- renderings

  /** One character of a string, section 7. */
  datatype Piece =
    | Raw(b: Byte)
    | Escaped(c: Byte)
    | Unicode(h: seq<Byte>)
    | Surrogates(high: seq<Byte>, low: seq<Byte>)

  predicate IsEscape(c: Byte) {
    c == QUOTE || c == BACKSLASH || c == SLASH || c == 110 || c == 116 || c == 114 || c == 98 || c == 102
  }

  /** The byte an escape letter stands for. */
  function EscapeValue(c: Byte): Byte
    requires IsEscape(c)
  {
    if c == 110 then 10 else if c == 116 then 9 else if c == 114 then 13
    else if c == 98 then 8 else if c == 102 then 12 else c
  }

  predicate PieceOk(p: Piece) {
    match p
    case Raw(b) => b != QUOTE && b != BACKSLASH && b != 0
    case Escaped(c) => IsEscape(c)
    case Unicode(h) => IsHex4(h) && IsScalar(Hex4Value(h))
    case Surrogates(h, l) => IsHex4(h) && IsHex4(l) && IsHigh(Hex4Value(h)) && IsLow(Hex4Value(l))
  }

  function PieceText(p: Piece): seq<Byte> {
    match p
    case Raw(b) => [b]
    case Escaped(c) => [BACKSLASH, c]
    case Unicode(h) => [BACKSLASH, LOWER_U] + h
    case Surrogates(h, l) => [BACKSLASH, LOWER_U] + h + [BACKSLASH, LOWER_U] + l
  }

  function PieceValue(p: Piece): seq<Byte>
    requires PieceOk(p)
  {
    match p
    case Raw(b) => [b]
    case Escaped(c) => [EscapeValue(c)]
    case Unicode(h) => Utf8(Hex4Value(h))
    case Surrogates(h, l) => Utf8(Combine(Hex4Value(h), Hex4Value(l)))
  }

  predicate PiecesOk(ps: seq<Piece>) {
    forall i :: 0 <= i < |ps| ==> PieceOk(ps[i])
  }

  function PiecesText(ps: seq<Piece>): seq<Byte> {
    if |ps| == 0 then [] else PieceText(ps[0]) + PiecesText(ps[1..])
  }

  function PiecesValue(ps: seq<Piece>): seq<Byte>
    requires PiecesOk(ps)
  {
    if |ps| == 0 then [] else PieceValue(ps[0]) + PiecesValue(ps[1..])
  }

  /** A string the parser accepts: its value has no NUL. */
  predicate StringOk(ps: seq<Piece>) {
    PiecesOk(ps) && 0 !in PiecesValue(ps)
  }

  function StringText(ps: seq<Piece>): seq<Byte> {
    [QUOTE] + PiecesText(ps) + [QUOTE]
  }

  function DigitsValue(ds: seq<Byte>): nat
    requires AllDigits(ds)
  {
    if |ds| == 0 then 0 else DigitsValue(ds[..|ds| - 1]) * 10 + (ds[|ds| - 1] - 48)
  }

  predicate IsI64(n: int) {
    -0x8000_0000_0000_0000 <= n <= 0x7FFF_FFFF_FFFF_FFFF
  }

  function NumberValue(neg: bool, ds: seq<Byte>): int
    requires AllDigits(ds)
  {
    var n: int := DigitsValue(ds);
    if neg then -n else n
  }

  /** A text with the structure of sections 3 to 7. A number with a fraction or
      an exponent, which the parser refuses, keeps both as they are written. An
      array element is the value with the white space around
      it; an object member is name, colon and value with the white space
      around each. */
  datatype Text =
    | NullText
    | TrueText
    | FalseText
    | NumberText(neg: bool, digits: seq<Byte>)
    | DecimalText(neg: bool, digits: seq<Byte>, frac: seq<Byte>, exp: seq<Byte>)
    | StrText(pieces: seq<Piece>)
    | EmptyArray(inner: seq<Byte>)
    | ArrayText(elements: seq<Element>)
    | EmptyObject(inner: seq<Byte>)
    | ObjectText(entries: seq<Member>)

  datatype Element = Element(before: seq<Byte>, value: Text, after: seq<Byte>)

  datatype Member = Member(before: seq<Byte>, name: seq<Piece>, gap: seq<Byte>, lead: seq<Byte>, value: Text,
    after: seq<Byte>)

  /** A rendering of a value, that is, a text the parser accepts. */
  predicate TextOk(t: Text) {
    match t
    case NullText => true
    case TrueText => true
    case FalseText => true
    case NumberText(neg, ds) => |ds| > 0 && AllDigits(ds) && IsI64(NumberValue(neg, ds))
    case DecimalText(_, _, _, _) => false
    case StrText(ps) => StringOk(ps)
    case EmptyArray(ws) => AllWs(ws)
    case ArrayText(es) => |es| > 0 && ElementsOk(es)
    case EmptyObject(ws) => AllWs(ws)
    case ObjectText(ms) => |ms| > 0 && MembersOk(ms)
  }

  predicate ElementsOk(es: seq<Element>) {
    |es| == 0 || (AllWs(es[0].before) && TextOk(es[0].value) && AllWs(es[0].after) && ElementsOk(es[1..]))
  }

  predicate MembersOk(ms: seq<Member>) {
    |ms| == 0 ||
      (&& AllWs(ms[0].before) && StringOk(ms[0].name) && AllWs(ms[0].gap)
       && AllWs(ms[0].lead) && TextOk(ms[0].value) && AllWs(ms[0].after)
       && MembersOk(ms[1..]))
  }

  const NULL: seq<Byte> := [110, 117, 108, 108]
  const TRUE: seq<Byte> := [116, 114, 117, 101]
  const FALSE: seq<Byte> := [102, 97, 108, 115, 101]

  function Bytes(t: Text): seq<Byte> {
    match t
    case NullText => NULL
    case TrueText => TRUE
    case FalseText => FALSE
    case NumberText(neg, ds) => (if neg then [MINUS] else []) + ds
    case DecimalText(neg, ds, frac, exp) => (if neg then [MINUS] else []) + ds + frac + exp
    case StrText(ps) => StringText(ps)
    case EmptyArray(ws) => [LBRACKET] + ws + [RBRACKET]
    case ArrayText(es) => [LBRACKET] + ElementsBytes(es) + [RBRACKET]
    case EmptyObject(ws) => [LBRACE] + ws + [RBRACE]
    case ObjectText(ms) => [LBRACE] + MembersBytes(ms) + [RBRACE]
  }

  function ElementsBytes(es: seq<Element>): seq<Byte> {
    if |es| == 0 then []
    else es[0].before + Bytes(es[0].value) + es[0].after
         + if |es| == 1 then [] else [COMMA] + ElementsBytes(es[1..])
  }

  function MembersBytes(ms: seq<Member>): seq<Byte> {
    if |ms| == 0 then []
    else ms[0].before + StringText(ms[0].name) + ms[0].gap + [COLON] + ms[0].lead + Bytes(ms[0].value) + ms[0].after
         + if |ms| == 1 then [] else [COMMA] + MembersBytes(ms[1..])
  }

  function Value(t: Text): Json
    requires TextOk(t)
  {
    match t
    case NullText => Null
    case TrueText => Bool(true)
    case FalseText => Bool(false)
    case NumberText(neg, ds) => Int(NumberValue(neg, ds))
    case StrText(ps) => Str(PiecesValue(ps))
    case EmptyArray(_) => Array([])
    case ArrayText(es) => Array(ElementValues(es))
    case EmptyObject(_) => Object([])
    case ObjectText(ms) => Object(MemberValues(ms))
  }

  function ElementValues(es: seq<Element>): seq<Json>
    requires ElementsOk(es)
  {
    if |es| == 0 then [] else [Value(es[0].value)] + ElementValues(es[1..])
  }

  function MemberValues(ms: seq<Member>): seq<(seq<Byte>, Json)>
    requires MembersOk(ms)
  {
    if |ms| == 0 then [] else [(PiecesValue(ms[0].name), Value(ms[0].value))] + MemberValues(ms[1..])
  }

  // ----- stricter renderings

  /** No leading zero (section 6), no raw control character (section 7). That a
      rendering in UTF-8 is JSON exactly when it is strict, `JsonStandard`
      shows. */
  predicate Strict(t: Text) {
    match t
    case NumberText(_, ds) => |ds| > 1 ==> ds[0] != 48
    case StrText(ps) => StrictPieces(ps)
    case ArrayText(es) => StrictElements(es)
    case ObjectText(ms) => StrictMembers(ms)
    case _ => true
  }

  predicate StrictPieces(ps: seq<Piece>) {
    forall i :: 0 <= i < |ps| && ps[i].Raw? ==> ps[i].b >= 32
  }

  predicate StrictElements(es: seq<Element>) {
    |es| == 0 || (Strict(es[0].value) && StrictElements(es[1..]))
  }

  predicate StrictMembers(ms: seq<Member>) {
    |ms| == 0 || (StrictPieces(ms[0].name) && Strict(ms[0].value) && StrictMembers(ms[1..]))
  }
}
