/** The JSON parser of duk_bi_json.c as functions of the input and the read position. */
module JsonParse {
  import opened Bytes
  import opened Seqs
  import opened JsonTree
  import Xutf8

  datatype Error = SyntaxError | RangeError

  datatype Result<+T> = Ok(value: T, next: nat) | Fail(error: Error)

  /** Strings end in a NUL at p_end == |s| - 1; nothing else marks the end of the input. */
  predicate Terminated(s: Text) {
    s != [] && s[|s| - 1] == 0
  }

  /** duk__dec_eat_white. */
  function SkipWhite(s: Text, p: nat): (q: nat)
    requires Terminated(s) && p < |s|
    ensures p <= q < |s| && !White(s[q])
    ensures forall i :: p <= i < q ==> White(s[i])
    decreases |s| - p
  {
    if White(s[p]) then SkipWhite(s, p + 1) else p
  }

  /** duk__dec_req_stridx: the rest of a literal whose first character has been read. */
  function ParseLiteral(s: Text, p: nat, rest: Text): (r: Result<()>)
    requires Terminated(s) && p < |s| && 0 !in rest
    ensures r.Ok? ==> r.next == p + |rest| < |s| && s[p..r.next] == rest
    ensures r.Fail? ==> r.error == SyntaxError && !(p + |rest| <= |s| && s[p..p + |rest|] == rest)
    decreases rest
  {
    if rest == [] then Ok((), p)
    else if s[p] != rest[0] then Fail(SyntaxError)
    else ParseLiteral(s, p + 1, rest[1..])
  }

  function HexAt(s: Text, p: nat): (r: Result<Word16>)
    requires Terminated(s) && p < |s|
    ensures r.Ok? ==> r.next == p + 4 < |s| && ValidHex(s[p..p + 4]) && r.value == HexValue(s[p..p + 4])
    ensures r.Fail? ==> r.error == SyntaxError && !(p + 4 <= |s| && ValidHex(s[p..p + 4]))
  {
    if HexDigit(s[p]) < 0 then Fail(SyntaxError)
    else if HexDigit(s[p + 1]) < 0 then Fail(SyntaxError)
    else if HexDigit(s[p + 2]) < 0 then Fail(SyntaxError)
    else if HexDigit(s[p + 3]) < 0 then Fail(SyntaxError)
    else Ok(HexValue(s[p..p + 4]), p + 4)
  }

  /** duk__dec_string_escape: what follows a backslash. */
  function ParseEscape(s: Text, p: nat): (r: Result<Text>)
    requires Terminated(s) && p < |s|
    ensures r.Ok? ==> p < r.next < |s|
    ensures r.Fail? ==> r.error == SyntaxError
  {
    if s[p] == 0x75 then
      var h := HexAt(s, p + 1);
      if h.Fail? then Fail(h.error) else Ok(Xutf8.Encode(h.value), h.next)
    else if EscapeByte(s[p]).Some? then Ok([EscapeByte(s[p]).value], p + 1)
    else Fail(SyntaxError)
  }

  /** One character of a string, escaped or not. */
  function ParseChr(s: Text, p: nat): (r: Result<Text>)
    requires Terminated(s) && p < |s| && s[p] != QUOTE
    ensures r.Ok? ==> p < r.next < |s|
    ensures r.Fail? ==> r.error == SyntaxError
  {
    if s[p] == BACKSLASH then ParseEscape(s, p + 1)
    else if s[p] < 0x20 then Fail(SyntaxError)
    else Ok([s[p]], p + 1)
  }

  /** duk__dec_string: the opening quote has been read. */
  function ParseString(s: Text, p: nat): (r: Result<Text>)
    requires Terminated(s) && p < |s|
    ensures r.Ok? ==> p < r.next < |s|
    ensures r.Fail? ==> r.error == SyntaxError
    decreases |s| - p
  {
    if s[p] == QUOTE then Ok([], p + 1)
    else
      var c := ParseChr(s, p);
      if c.Fail? then Fail(c.error)
      else
        var rest := ParseString(s, c.next);
        if rest.Fail? then rest else Ok(c.value + rest.value, rest.next)
  }

  /** A string result with q read before it. */
  function Prefixed(q: Text, r: Result<Text>): Result<Text> {
    if r.Fail? then r else Ok(q + r.value, r.next)
  }

  lemma NothingBefore(r: Result<Text>)
    ensures Prefixed([], r) == r
  {
    if r.Ok? { Identity(r.value); }
  }

  lemma PrefixedTwice(a: Text, b: Text, r: Result<Text>)
    ensures Prefixed(a, Prefixed(b, r)) == Prefixed(a + b, r)
  {
    if r.Ok? { Assoc(a, b, r.value); }
  }

  lemma StringNext(t: Text, p: nat)
    requires Terminated(t) && p < |t| && t[p] != QUOTE
    ensures var c := ParseChr(t, p);
            ParseString(t, p) == if c.Fail? then Fail(c.error) else Prefixed(c.value, ParseString(t, c.next))
  {}

  function DigitsEnd(t: Text, i: nat): (j: nat)
    requires i <= |t|
    ensures i <= j <= |t|
    ensures forall k :: i <= k < j ==> Digit(t[k])
    ensures j < |t| ==> !Digit(t[j])
    decreases |t| - i
  {
    if i < |t| && Digit(t[i]) then DigitsEnd(t, i + 1) else i
  }

  function DigitsValue(t: Text, i: nat, j: nat): (v: int)
    requires i <= j <= |t|
  {
    if i == j then 0 else 10 * DigitsValue(t, i, j - 1) + t[j - 1] as int - 0x30
  }

  /** The end of the sign and the integer part; None when there is none or it has a leading zero. */
  function IntegerEnd(t: Text): (r: Option<nat>)
    ensures r.Some? ==> 1 <= r.value <= |t|
  {
    var i := if t != [] && t[0] == MINUS then 1 else 0;
    var j := DigitsEnd(t, i);
    if i == j || (t[i] == 0x30 && j != i + 1) then None else Some(j)
  }

  function FractionEnd(t: Text, i: nat): (r: Option<nat>)
    requires i <= |t|
    ensures r.Some? ==> i <= r.value <= |t|
  {
    if i < |t| && t[i] == 0x2e then
      var j := DigitsEnd(t, i + 1);
      if j == i + 1 then None else Some(j)
    else Some(i)
  }

  function ExponentEnd(t: Text, i: nat): (r: Option<nat>)
    requires i <= |t|
    ensures r.Some? ==> i <= r.value <= |t|
  {
    if i < |t| && (t[i] == 0x65 || t[i] == 0x45) then
      var k := if i + 1 < |t| && (t[i + 1] == MINUS || t[i + 1] == 0x2b) then i + 2 else i + 1;
      var j := DigitsEnd(t, k);
      if j == k then None else Some(j)
    else Some(i)
  }

  /** duk_numconv_parse() with the flags of duk__dec_number(); None stands for its NaN. */
  function NumberOf(t: Text): (r: Option<Number>) {
    var i := IntegerEnd(t);
    if i.None? then None
    else
      var f := FractionEnd(t, i.value);
      if f.None? then None
      else
        var e := ExponentEnd(t, f.value);
        if e != Some(|t|) then None
        else if i.value < |t| then Some(Decimal(t))
        else if t[0] == MINUS then Some(Integer(-DigitsValue(t, 1, |t|)))
        else Some(Integer(DigitsValue(t, 0, |t|)))
  }

  /** The bytes that the lenient first pass over a number collects. */
  predicate NumberByte(b: Byte) {
    Digit(b) || b == 0x2e || b == 0x65 || b == 0x45 || b == MINUS || b == 0x2b
  }

  /** The lenient first pass of duk__dec_number. */
  function NumberEnd(s: Text, p: nat): (q: nat)
    requires Terminated(s) && p < |s|
    ensures p <= q < |s| && !NumberByte(s[q])
    ensures forall i :: p <= i < q ==> NumberByte(s[i])
    decreases |s| - p
  {
    if NumberByte(s[p]) then NumberEnd(s, p + 1) else p
  }

  function ParseNumber(s: Text, p: nat): (r: Result<Number>)
    requires Terminated(s) && p < |s| && NumberByte(s[p])
    ensures r.Ok? ==> p < r.next < |s|
    ensures r.Fail? ==> r.error == SyntaxError
  {
    var q := NumberEnd(s, p);
    var n := NumberOf(s[p..q]);
    if n.None? then Fail(SyntaxError) else Ok(n.value, q)
  }

  /** duk__dec_value. */
  function ParseValue(s: Text, p: nat, depth: nat, limit: nat): (r: Result<Json>)
    requires Terminated(s) && p < |s| && depth <= limit
    ensures r.Ok? ==> p < r.next < |s| && !White(s[r.next])
    decreases |s| - p, 1
  {
    var q := SkipWhite(s, p);
    var r := ParseBody(s, q, depth, limit);
    if r.Fail? then r else Ok(r.value, SkipWhite(s, r.next))
  }

  /** The choice on the first character that is not white space. */
  function ParseBody(s: Text, q: nat, depth: nat, limit: nat): (r: Result<Json>)
    requires Terminated(s) && q < |s| && depth <= limit
    ensures r.Ok? ==> q < r.next < |s|
    decreases |s| - q, 0
  {
    var x := s[q];
    if x == QUOTE then
      var t := ParseString(s, q + 1);
      if t.Fail? then Fail(t.error) else Ok(Str(t.value), t.next)
    else if Digit(x) || x == MINUS then
      var n := ParseNumber(s, q);
      if n.Fail? then Fail(n.error) else Ok(Num(n.value), n.next)
    else if x == 0x74 then
      var t := ParseLiteral(s, q + 1, TRUE[1..]);
      if t.Fail? then Fail(t.error) else Ok(Bool(true), t.next)
    else if x == 0x66 then
      var t := ParseLiteral(s, q + 1, FALSE[1..]);
      if t.Fail? then Fail(t.error) else Ok(Bool(false), t.next)
    else if x == 0x6e then
      var t := ParseLiteral(s, q + 1, NULL[1..]);
      if t.Fail? then Fail(t.error) else Ok(Null, t.next)
    else if x == LCURLY then
      var o := ParseMembers(s, q + 1, depth, limit);
      if o.Fail? then Fail(o.error) else Ok(Obj(o.value), o.next)
    else if x == LBRACKET then
      var a := ParseItems(s, q + 1, depth, limit);
      if a.Fail? then Fail(a.error) else Ok(Arr(a.value), a.next)
    else Fail(SyntaxError)
  }

  /** duk__dec_array, after its '['. */
  function ParseItems(s: Text, p: nat, depth: nat, limit: nat): (r: Result<seq<Json>>)
    requires Terminated(s) && p < |s| && depth <= limit
    ensures r.Ok? ==> p < r.next < |s|
    decreases |s| - p, 3
  {
    if depth >= limit then Fail(RangeError) else ItemsLoop(s, p, depth + 1, limit, [])
  }

  function ItemsLoop(s: Text, p: nat, depth: nat, limit: nat, items: seq<Json>): (r: Result<seq<Json>>)
    requires Terminated(s) && p < |s| && depth <= limit
    ensures r.Ok? ==> p < r.next < |s|
    decreases |s| - p, 2
  {
    var q := SkipWhite(s, p);
    var x := s[q];
    if x == RBRACKET then Ok(items, q + 1)
    else if x != COMMA && items != [] then Fail(SyntaxError)
    else
      var v := ParseValue(s, if items != [] then q + 1 else q, depth, limit);
      if v.Fail? then Fail(v.error) else ItemsLoop(s, v.next, depth, limit, items + [v.value])
  }

  /** duk__dec_object, after its '{'. */
  function ParseMembers(s: Text, p: nat, depth: nat, limit: nat): (r: Result<seq<Member>>)
    requires Terminated(s) && p < |s| && depth <= limit
    ensures r.Ok? ==> p < r.next < |s|
    decreases |s| - p, 3
  {
    if depth >= limit then Fail(RangeError) else MembersLoop(s, p, depth + 1, limit, [])
  }

  function MembersLoop(s: Text, p: nat, depth: nat, limit: nat, ms: seq<Member>): (r: Result<seq<Member>>)
    requires Terminated(s) && p < |s| && depth <= limit
    ensures r.Ok? ==> p < r.next < |s|
    decreases |s| - p, 2
  {
    var q := SkipWhite(s, p);
    var x := s[q];
    if x == RCURLY then Ok(ms, q + 1)
    else if x != COMMA && ms != [] then Fail(SyntaxError)
    else
      var m := ParsePair(s, if ms != [] then q + 1 else q, depth, limit);
      if m.Fail? then Fail(m.error)
      else MembersLoop(s, m.next, depth, limit, Define(ms, m.value.key, m.value.value))
  }

  /** A key, a colon and a value. */
  function ParsePair(s: Text, p: nat, depth: nat, limit: nat): (r: Result<Member>)
    requires Terminated(s) && p < |s| && depth <= limit
    ensures r.Ok? ==> p < r.next < |s| && !White(s[r.next])
    decreases |s| - p, 1
  {
    var q := SkipWhite(s, p);
    if s[q] != QUOTE then Fail(SyntaxError)
    else
      var key := ParseString(s, q + 1);
      if key.Fail? then Fail(key.error)
      else
        var c := SkipWhite(s, key.next);
        if s[c] != COLON then Fail(SyntaxError)
        else
          var v := ParseValue(s, c + 1, depth, limit);
          if v.Fail? then Fail(v.error) else Ok(Member(key.value, v.value), v.next)
  }

  /** JSON.parse() without a reviver: the value must be followed by the end of the text. */
  function ParseText(t: Text, limit: nat): (r: Result<Json>)
    ensures r.Ok? ==> r.next == |t|
  {
    var r := ParseValue(t + [0], 0, 0, limit);
    if r.Ok? && r.next != |t| then Fail(SyntaxError) else r
  }
}
