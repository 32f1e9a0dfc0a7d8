/** JSON values, and the texts that the JSON grammar (E5.1 section 15.12.1) gives them. */
module JsonTree {
  import opened Bytes
  import opened Seqs
  import Xutf8

  type Text = seq<Byte>

  /** Non-integer numbers are known by their text: number conversion is not modelled. */
  datatype Number = Integer(n: int) | Decimal(token: Text)

  datatype Json =
    | Null
    | Bool(b: bool)
    | Num(num: Number)
    | Str(s: Text)
    | Arr(items: seq<Json>)
    | Obj(members: seq<Member>)

  datatype Member = Member(key: Text, value: Json)

  /** Define a property: a key that exists keeps its place, as duk_xdef_prop_wec() does. */
  function Define(ms: seq<Member>, key: Text, value: Json): (r: seq<Member>)
    ensures r != []
  {
    if ms == [] then [Member(key, value)]
    else if ms[0].key == key then [Member(key, value)] + ms[1..]
    else [ms[0]] + Define(ms[1..], key, value)
  }

  // ----- Characters -----

  const QUOTE: Byte := 0x22
  const BACKSLASH: Byte := 0x5c
  const COMMA: Byte := 0x2c
  const COLON: Byte := 0x3a
  const LBRACKET: Byte := 0x5b
  const RBRACKET: Byte := 0x5d
  const LCURLY: Byte := 0x7b
  const RCURLY: Byte := 0x7d
  const MINUS: Byte := 0x2d
  const NULL: Text := [0x6e, 0x75, 0x6c, 0x6c]
  const TRUE: Text := [0x74, 0x72, 0x75, 0x65]
  const FALSE: Text := [0x66, 0x61, 0x6c, 0x73, 0x65]

  predicate White(b: Byte) {
    b == 0x20 || b == 0x0a || b == 0x0d || b == 0x09
  }

  predicate AllWhite(w: Text) {
    forall i :: 0 <= i < |w| ==> White(w[i])
  }

  predicate Digit(b: Byte) {
    0x30 <= b <= 0x39
  }

  /** duk_hex_dectab. */
  function HexDigit(b: Byte): (v: int)
    ensures -1 <= v < 16
  {
    if Digit(b) then b - 0x30
    else if 0x41 <= b <= 0x46 then b - 0x41 + 10
    else if 0x61 <= b <= 0x66 then b - 0x61 + 10
    else -1
  }

  // ----- Concrete syntax -----

  /** One character of a string: as is, a two-character escape, or \uXXXX. */
  datatype Chr = Raw(b: Byte) | Esc(c: Byte) | Uni(hex: Text)

  datatype Syntax = Syntax(lead: Text, body: Body, trail: Text)

  datatype Body =
    | NullBody
    | BoolBody(b: bool)
    | NumBody(number: NumberSyntax)
    | StrBody(chars: seq<Chr>)
    | ArrBody(inner: Text, items: seq<Syntax>)
    | ObjBody(inner: Text, pairs: seq<Pair>)

  datatype Pair = Pair(lead: Text, key: seq<Chr>, mid: Text, value: Syntax)

  /** JSONNumber: a minus sign, an integer part without a leading zero, a fraction and an exponent. */
  datatype NumberSyntax = NumberSyntax(minus: bool, whole: Text, frac: Option<Text>, exp: Option<Exponent>)

  datatype Exponent = Exponent(letter: Byte, sign: Text, digits: Text)

  predicate Digits1(d: Text) {
    d != [] && forall i :: 0 <= i < |d| ==> Digit(d[i])
  }

  predicate ValidNumber(n: NumberSyntax) {
    && Digits1(n.whole) && (n.whole[0] == 0x30 ==> |n.whole| == 1)
    && (n.frac.Some? ==> Digits1(n.frac.value))
    && (n.exp.Some? ==> ValidExponent(n.exp.value))
  }

  predicate ValidExponent(e: Exponent) {
    (e.letter == 0x65 || e.letter == 0x45) && (e.sign == [] || e.sign == [0x2b] || e.sign == [MINUS]) && Digits1(e.digits)
  }

  function EscapeByte(c: Byte): (r: Option<Byte>) {
    if c == BACKSLASH || c == QUOTE || c == 0x2f then Some(c)
    else if c == 0x74 then Some(0x09)
    else if c == 0x6e then Some(0x0a)
    else if c == 0x72 then Some(0x0d)
    else if c == 0x66 then Some(0x0c)
    else if c == 0x62 then Some(0x08)
    else None
  }

  predicate Plain(b: Byte) {
    0x20 <= b && b != QUOTE && b != BACKSLASH
  }

  predicate ValidHex(h: Text) {
    |h| == 4 && HexDigit(h[0]) >= 0 && HexDigit(h[1]) >= 0 && HexDigit(h[2]) >= 0 && HexDigit(h[3]) >= 0
  }

  function HexValue(h: Text): (v: Word16) {
    if ValidHex(h) then ((HexDigit(h[0]) * 16 + HexDigit(h[1])) * 16 + HexDigit(h[2])) * 16 + HexDigit(h[3]) else 0
  }

  predicate ValidChr(c: Chr) {
    match c
    case Raw(b) => Plain(b)
    case Esc(e) => EscapeByte(e).Some?
    case Uni(h) => ValidHex(h)
  }

  predicate ValidChars(cs: seq<Chr>) {
    forall i :: 0 <= i < |cs| ==> ValidChr(cs[i])
  }

  predicate Valid(t: Syntax) {
    AllWhite(t.lead) && AllWhite(t.trail) && ValidBody(t.body)
  }

  predicate ValidBody(b: Body) {
    match b
    case NullBody => true
    case BoolBody(_) => true
    case NumBody(number) => ValidNumber(number)
    case StrBody(chars) => ValidChars(chars)
    case ArrBody(inner, items) => AllWhite(inner) && (forall i :: 0 <= i < |items| ==> Valid(items[i]))
    case ObjBody(inner, pairs) => AllWhite(inner) && (forall i :: 0 <= i < |pairs| ==> ValidPair(pairs[i]))
  }

  predicate ValidPair(p: Pair) {
    AllWhite(p.lead) && ValidChars(p.key) && AllWhite(p.mid) && Valid(p.value)
  }

  // ----- The text of a syntax tree -----

  function RenderChr(c: Chr): (r: Text)
    ensures r != []
  {
    match c
    case Raw(b) => [b]
    case Esc(e) => [BACKSLASH, e]
    case Uni(h) => [BACKSLASH, 0x75] + h
  }

  function RenderChars(cs: seq<Chr>): (r: Text) {
    if cs == [] then [] else RenderChr(cs[0]) + RenderChars(cs[1..])
  }

  function Quoted(cs: seq<Chr>): (r: Text) {
    [QUOTE] + RenderChars(cs) + [QUOTE]
  }

  function RenderFraction(f: Option<Text>): (r: Text) {
    if f.Some? then [0x2e] + f.value else []
  }

  function RenderExponent(e: Option<Exponent>): (r: Text) {
    if e.Some? then [e.value.letter] + e.value.sign + e.value.digits else []
  }

  function RenderNumber(n: NumberSyntax): (r: Text) {
    (if n.minus then [MINUS] else []) + n.whole + RenderFraction(n.frac) + RenderExponent(n.exp)
  }

  function Render(t: Syntax): (r: Text) {
    t.lead + RenderBody(t.body) + t.trail
  }

  function RenderBody(b: Body): (r: Text) {
    match b
    case NullBody => NULL
    case BoolBody(v) => if v then TRUE else FALSE
    case NumBody(number) => RenderNumber(number)
    case StrBody(chars) => Quoted(chars)
    case ArrBody(inner, items) =>
      [LBRACKET] + (if items == [] then inner else Render(items[0]) + RenderItems(items[1..])) + [RBRACKET]
    case ObjBody(inner, pairs) =>
      [LCURLY] + (if pairs == [] then inner else RenderPair(pairs[0]) + RenderPairs(pairs[1..])) + [RCURLY]
  }

  /** Items after the first, each with the comma before it. */
  function RenderItems(items: seq<Syntax>): (r: Text) {
    if items == [] then [] else [COMMA] + Render(items[0]) + RenderItems(items[1..])
  }

  function RenderPair(p: Pair): (r: Text) {
    p.lead + Quoted(p.key) + p.mid + [COLON] + Render(p.value)
  }

  function RenderPairs(pairs: seq<Pair>): (r: Text) {
    if pairs == [] then [] else [COMMA] + RenderPair(pairs[0]) + RenderPairs(pairs[1..])
  }

  // ----- The value of a syntax tree; it matters for valid ones only -----

  function ChrBytes(c: Chr): (r: Text) {
    match c
    case Raw(b) => [b]
    case Esc(e) => if EscapeByte(e).Some? then [EscapeByte(e).value] else []
    case Uni(h) => Xutf8.Encode(HexValue(h))
  }

  function CharsBytes(cs: seq<Chr>): (r: Text) {
    if cs == [] then [] else ChrBytes(cs[0]) + CharsBytes(cs[1..])
  }

  function Pow10(n: nat): (r: nat) {
    if n == 0 then 1 else 10 * Pow10(n - 1)
  }

  /** Each digit counts ten times as much as the next. */
  function DecimalValue(d: Text): (v: int) {
    if d == [] then 0 else (d[0] as int - 0x30) * Pow10(|d| - 1) + DecimalValue(d[1..])
  }

  /** Without fraction and exponent, an integer. */
  function NumberMeaning(n: NumberSyntax): (v: Number) {
    if n.frac.Some? || n.exp.Some? then Decimal(RenderNumber(n))
    else Integer(if n.minus then -DecimalValue(n.whole) else DecimalValue(n.whole))
  }

  function Meaning(t: Syntax): (v: Json) {
    match t.body
    case NullBody => Null
    case BoolBody(v) => Bool(v)
    case NumBody(number) => Num(NumberMeaning(number))
    case StrBody(chars) => Str(CharsBytes(chars))
    case ArrBody(_, items) => Arr(ItemsMeaning(items))
    case ObjBody(_, pairs) => Obj(PairsMeaning([], pairs))
  }

  function ItemsMeaning(items: seq<Syntax>): (v: seq<Json>) {
    if items == [] then [] else [Meaning(items[0])] + ItemsMeaning(items[1..])
  }

  function PairsMeaning(ms: seq<Member>, pairs: seq<Pair>): (r: seq<Member>)
    decreases pairs
  {
    if pairs == [] then ms
    else PairsMeaning(Define(ms, CharsBytes(pairs[0].key), Meaning(pairs[0].value)), pairs[1..])
  }

  /** Nesting of arrays and objects. */
  function Depth(t: Syntax): (d: nat) {
    match t.body
    case ArrBody(_, items) => 1 + ItemsDepth(items)
    case ObjBody(_, pairs) => 1 + PairsDepth(pairs)
    case _ => 0
  }

  function ItemsDepth(items: seq<Syntax>): (d: nat) {
    if items == [] then 0
    else
      var a, b := Depth(items[0]), ItemsDepth(items[1..]);
      if a < b then b else a
  }

  function PairsDepth(pairs: seq<Pair>): (d: nat) {
    if pairs == [] then 0
    else
      var a, b := Depth(pairs[0].value), PairsDepth(pairs[1..]);
      if a < b then b else a
  }
}
