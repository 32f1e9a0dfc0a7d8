/** The text that JSON.stringify() gives a JSON value, and the proof that parsing undoes it. */
module JsonPrint {
  import opened Bytes
  import opened Seqs
  import opened JsonTree
  import opened JsonParse
  import JsonGrammar
  import JsonNumber
  import Xutf8

  // ----- Strings -----

  /** duk_lc_digits. */
  function HexChar(x: int): (c: Byte)
    requires 0 <= x < 16
  {
    if x < 10 then 0x30 + x else 0x61 + x - 10
  }

  /** duk__emit_esc_auto_fast for a codepoint below 0x10000 in standard JSON. */
  function UniEscape(cp: Word16): (r: Text)
    ensures |r| == 6
  {
    [BACKSLASH, 0x75, HexChar(cp / 0x1000), HexChar(cp / 0x100 % 16), HexChar(cp / 16 % 16), HexChar(cp % 16)]
  }

  /** What duk__json_quotestr_lookup makes of a byte below 0x7f. */
  function QuoteAscii(b: Byte): (r: Text)
    requires b < 0x7f
    ensures r != []
  {
    if b == QUOTE || b == BACKSLASH then [BACKSLASH, b]
    else if b == 0x08 then [BACKSLASH, 0x62]
    else if b == 0x09 then [BACKSLASH, 0x74]
    else if b == 0x0a then [BACKSLASH, 0x6e]
    else if b == 0x0c then [BACKSLASH, 0x66]
    else if b == 0x0d then [BACKSLASH, 0x72]
    else if b < 0x20 then UniEscape(b)
    else [b]
  }

  /** A codepoint of the slow path: U+2028 and U+2029 are escaped, all others are written as is. */
  function QuoteWide(cp: Word32): (r: Text)
    ensures r != []
  {
    if cp == 0x2028 || cp == 0x2029 then UniEscape(cp) else Xutf8.Encode(cp)
  }

  /** The codepoint at the start of s and its length; a byte that does not decode stands for itself. */
  function Codepoint(s: Text): (r: (Word32, nat))
    requires s != []
    ensures 1 <= r.1 <= |s|
  {
    var d := Xutf8.Decode(s);
    if d.Some? then d.value else (s[0], 1)
  }

  /** duk__enc_quote_string between its quotes. */
  function QuoteBody(s: Text): (r: Text) {
    if s == [] then []
    else if s[0] < 0x7f then QuoteAscii(s[0]) + QuoteBody(s[1..])
    else QuoteWide(Codepoint(s).0) + QuoteBody(s[Codepoint(s).1..])
  }

  function Quote(s: Text): (r: Text) {
    [QUOTE] + QuoteBody(s) + [QUOTE]
  }

  /** Shortest-form extended UTF-8, as all strings made by Ecmascript code are. */
  predicate Canonical(s: Text) {
    s == []
    || (s[0] < 0x7f && Canonical(s[1..]))
    || (0x7f <= s[0] && Xutf8.Decode(s).Some?
        && s[..Codepoint(s).1] == Xutf8.Encode(Codepoint(s).0) && Canonical(s[Codepoint(s).1..]))
  }

  lemma HexCharValue(x: int)
    requires 0 <= x < 16
    ensures HexDigit(HexChar(x)) == x
  {}

  lemma UniHex(cp: Word16)
    ensures ValidHex(UniEscape(cp)[2..]) && HexValue(UniEscape(cp)[2..]) == cp
  {
    HexCharValue(cp / 0x1000); HexCharValue(cp / 0x100 % 16); HexCharValue(cp / 16 % 16); HexCharValue(cp % 16);
    hide HexDigit, HexChar;
    Nybbles(cp);
  }

  lemma Nybbles(x: int)
    requires 0 <= x < 0x1_0000
    ensures ((x / 0x1000 * 16 + x / 0x100 % 16) * 16 + x / 16 % 16) * 16 + x % 16 == x
  {
    var y, z := x / 16, x / 16 / 16;
    assert z == x / 0x100 && z / 16 == x / 0x1000;
    assert x == 16 * y + x % 16 && y == 16 * z + y % 16 && z == 16 * (z / 16) + z % 16;
  }

  lemma UniEscapeParses(cp: Word16, t: Text, p: nat)
    requires Terminated(t) && At(t, p, UniEscape(cp)) && p + 6 < |t|
    ensures t[p] == BACKSLASH && ParseChr(t, p) == Ok(Xutf8.Encode(cp), p + 6)
  {
    UniHex(cp);
    AtIndex(t, p, UniEscape(cp), 0);
    hide HexChar, HexValue, Xutf8.Encode, ParseChr;
    var c := Uni(UniEscape(cp)[2..]);
    assert RenderChr(c) == UniEscape(cp);
    JsonGrammar.ChrComplete(c, t, p);
  }

  lemma AsciiParses(b: Byte, t: Text, p: nat)
    requires b < 0x7f && Terminated(t) && At(t, p, QuoteAscii(b)) && p + |QuoteAscii(b)| < |t|
    ensures t[p] != QUOTE && ParseChr(t, p) == Ok([b], p + |QuoteAscii(b)|)
  {
    AtIndex(t, p, QuoteAscii(b), 0);
    if b == QUOTE || b == BACKSLASH || 0x08 <= b <= 0x0a || 0x0c <= b <= 0x0d {
      AtIndex(t, p, QuoteAscii(b), 1);
    } else if b < 0x20 {
      UniEscapeParses(b, t, p);
    }
  }

  /** Bytes above ASCII are passed through. */
  lemma {:induction false} RawParses(w: Text, t: Text, p: nat)
    requires Terminated(t) && At(t, p, w) && p + |w| < |t| && forall i :: 0 <= i < |w| ==> 0x7f <= w[i]
    ensures ParseString(t, p) == Prefixed(w, ParseString(t, p + |w|))
    decreases w
  {
    hide ParseString;
    if w == [] {
      NothingBefore(ParseString(t, p));
    } else {
      AtIndex(t, p, w, 0);
      AtAppend(t, p, w[..1], w[1..]);
      TakeDrop(w, 1);
      RawParses(w[1..], t, p + 1);
      StringNext(t, p);
      PrefixedTwice([w[0]], w[1..], ParseString(t, p + |w|));
      Cons(w);
    }
  }

  /** A codepoint above ASCII comes back as its own encoding, escaped or not. */
  lemma WideParses(cp: Word32, t: Text, p: nat)
    requires 0x7f <= cp && Terminated(t) && At(t, p, QuoteWide(cp)) && p + |QuoteWide(cp)| < |t|
    ensures ParseString(t, p) == Prefixed(Xutf8.Encode(cp), ParseString(t, p + |QuoteWide(cp)|))
  {
    hide ParseString, ParseChr, UniEscape, Xutf8.Encode, At;
    if cp == 0x2028 || cp == 0x2029 {
      UniEscapeParses(cp, t, p);
      StringNext(t, p);
    } else {
      RawParses(Xutf8.Encode(cp), t, p);
    }
  }

  /** A string that starts with the encoding of a codepoint decodes to that codepoint. */
  lemma StartsWith(cp: Word32, s: Text, rest: Text)
    requires s == Xutf8.Encode(cp) + rest
    ensures Xutf8.Decode(s) == Some((cp, |Xutf8.Encode(cp)|)) && s[..|Xutf8.Encode(cp)|] == Xutf8.Encode(cp)
  {
    Xutf8.DecodeEncode(cp, rest);
    AppendSplit(Xutf8.Encode(cp), rest);
  }

  /** An ASCII character in a longer form is written raw, and never read back as it was. */
  lemma OverlongLost(s: Text, t: Text, p: nat)
    requires s != [] && 0x80 <= s[0] && Xutf8.Decode(s).Some? && Xutf8.Decode(s).value.0 < 0x80
    requires Terminated(t) && p < |t| && t[p] == Xutf8.Decode(s).value.0
    ensures !(ParseString(t, p).Ok? && ParseString(t, p).value == s)
  {
    hide Xutf8.Decode, Xutf8.Encode, ParseString;
    if t[p] == QUOTE {
      NoMore(t, p);
    } else {
      StringNext(t, p);
      var c := ParseChr(t, p);
      if c.Ok? && ParseString(t, c.next).Ok? && c.value + ParseString(t, c.next).value == s {
        if t[p] == BACKSLASH && t[p + 1] == 0x75 {
          StartsWith(HexAt(t, p + 2).value, s, ParseString(t, c.next).value);
        }
        assert false;
      }
    }
  }

  lemma NoMore(t: Text, p: nat)
    requires Terminated(t) && p < |t| && t[p] == QUOTE
    ensures ParseString(t, p) == Ok([], p + 1)
  {}

  /** Quoting and parsing give a string back exactly when it is in shortest form. */
  lemma {:induction false} QuoteParses(s: Text, t: Text, p: nat)
    requires Terminated(t) && At(t, p, QuoteBody(s) + [QUOTE]) && p + |QuoteBody(s)| + 1 < |t|
    ensures if Canonical(s) then ParseString(t, p) == Ok(s, p + |QuoteBody(s)| + 1)
            else !(ParseString(t, p).Ok? && ParseString(t, p).value == s)
    decreases |s|, 1
  {
    hide ParseString, QuoteBody;
    if s == [] {
      EmptyQuote();
      AtIndex(t, p, QuoteBody(s) + [QUOTE], 0);
      NoMore(t, p);
    } else if s[0] < 0x7f {
      QuoteAsciiParses(s, t, p);
    } else {
      QuoteWideParses(s, t, p);
    }
  }

  lemma EmptyQuote()
    ensures QuoteBody([]) == []
  {}

  lemma {:induction false} QuoteAsciiParses(s: Text, t: Text, p: nat)
    requires s != [] && s[0] < 0x7f
    requires Terminated(t) && At(t, p, QuoteBody(s) + [QUOTE]) && p + |QuoteBody(s)| + 1 < |t|
    ensures if Canonical(s) then ParseString(t, p) == Ok(s, p + |QuoteBody(s)| + 1)
            else !(ParseString(t, p).Ok? && ParseString(t, p).value == s)
    decreases |s|, 0
  {
    hide ParseString, ParseChr, Xutf8.Decode, Xutf8.Encode, QuoteAscii, QuoteWide;
    var w, rest := QuoteAscii(s[0]), s[1..];
    Assoc(w, QuoteBody(rest), [QUOTE]);
    AtAppend(t, p, w, QuoteBody(rest) + [QUOTE]);
    AsciiParses(s[0], t, p);
    StringNext(t, p);
    QuoteParses(rest, t, p + |w|);
    FirstPart(s, [s[0]], ParseString(t, p + |w|));
  }

  lemma {:induction false} QuoteWideParses(s: Text, t: Text, p: nat)
    requires s != [] && 0x7f <= s[0]
    requires Terminated(t) && At(t, p, QuoteBody(s) + [QUOTE]) && p + |QuoteBody(s)| + 1 < |t|
    ensures if Canonical(s) then ParseString(t, p) == Ok(s, p + |QuoteBody(s)| + 1)
            else !(ParseString(t, p).Ok? && ParseString(t, p).value == s)
    decreases |s|, 0
  {
    hide ParseString, Xutf8.Decode, Xutf8.Encode, QuoteWide, Codepoint;
    var (cp, n) := Codepoint(s);
    var w, rest := QuoteWide(cp), s[n..];
    Assoc(w, QuoteBody(rest), [QUOTE]);
    AtAppend(t, p, w, QuoteBody(rest) + [QUOTE]);
    if cp < 0x7f {
      ShortForm(s);
      AtIndex(t, p, w, 0);
      DecodedCodepoint(s);
      OverlongLost(s, t, p);
    } else {
      WideParses(cp, t, p);
      if Xutf8.Decode(s).Some? && s[..n] == Xutf8.Encode(cp) {
        QuoteParses(rest, t, p + |w|);
        FirstPart(s, s[..n], ParseString(t, p + |w|));
      } else {
        NotItsEncoding(s, cp, ParseString(t, p + |w|));
      }
    }
  }

  lemma DecodedCodepoint(s: Text)
    requires s != [] && Xutf8.Decode(s).Some?
    ensures Xutf8.Decode(s).value == Codepoint(s)
  {}

  lemma FirstPart(s: Text, w: Text, r: Result<Text>)
    requires |w| <= |s| && s[..|w|] == w
    ensures Prefixed(w, r).Ok? ==> (Prefixed(w, r).value == s <==> r.value == s[|w|..])
  {
    TakeDrop(s, |w|);
    if r.Ok? { AppendSplit(w, r.value); }
  }

  /** A codepoint below 0x7f read from a byte above it is in a longer form, so it is written raw. */
  lemma ShortForm(s: Text)
    requires s != [] && 0x7f <= s[0] && Codepoint(s).0 < 0x7f
    ensures 0x80 <= s[0] && Xutf8.Decode(s).Some? && !Canonical(s)
    ensures QuoteWide(Codepoint(s).0) == [Codepoint(s).0]
  {
    hide Canonical;
    assert s[..Codepoint(s).1][0] == s[0];
    NotCanonical(s);
  }

  lemma NotCanonical(s: Text)
    requires s != [] && 0x7f <= s[0]
    requires Xutf8.Decode(s).None? || s[..Codepoint(s).1] != Xutf8.Encode(Codepoint(s).0)
    ensures !Canonical(s)
  {}

  lemma NotItsEncoding(s: Text, cp: Word32, r: Result<Text>)
    requires s != [] && 0x7f <= s[0] && cp == Codepoint(s).0
    requires Xutf8.Decode(s).None? || s[..Codepoint(s).1] != Xutf8.Encode(cp)
    ensures !Canonical(s)
    ensures !(Prefixed(Xutf8.Encode(cp), r).Ok? && Prefixed(Xutf8.Encode(cp), r).value == s)
  {
    NotCanonical(s);
    hide Xutf8.Decode, Xutf8.Encode;
    if r.Ok? && Xutf8.Encode(cp) + r.value == s { StartsWith(cp, s, r.value); }
  }

  /** A shortest-form string has a quoted form in the grammar. */
  lemma QuoteSyntax(s: Text) returns (cs: seq<Chr>)
    requires Canonical(s)
    ensures ValidChars(cs) && Quoted(cs) == Quote(s) && CharsBytes(cs) == s
  {
    hide Canonical, QuoteBody, ParseString;
    var t := QuoteBody(s) + [QUOTE] + [0];
    AtAppend(t, 0, QuoteBody(s) + [QUOTE], [0]);
    assert t[0..] == t;
    QuoteParses(s, t, 0);
    cs := JsonGrammar.StringSound(t, 0);
    assert t[0..|QuoteBody(s)| + 1] == QuoteBody(s) + [QUOTE];
    AppendSplit(RenderChars(cs), [QUOTE]);
    AppendSplit(QuoteBody(s), [QUOTE]);
  }

  // ----- Numbers -----

  function Digits(n: nat): (r: Text)
    ensures r != []
  {
    if n < 10 then [0x30 + n] else Digits(n / 10) + [0x30 + n % 10]
  }

  function NumberText(n: Number): (r: Text) {
    match n
    case Integer(i) => if i < 0 then [MINUS] + Digits(-i) else Digits(i)
    case Decimal(token) => token
  }

  /** A decimal number is its own text, which must be one that reads back as it. */
  predicate Readable(n: Number) {
    n.Decimal? ==> NumberOf(n.token) == Some(n) && forall i :: 0 <= i < |n.token| ==> NumberByte(n.token[i])
  }

  lemma {:induction false} DigitsShape(n: nat)
    ensures var d := Digits(n);
            && (forall i :: 0 <= i < |d| ==> Digit(d[i]))
            && (d[0] == 0x30 ==> n == 0 && |d| == 1)
  {
    if n >= 10 { DigitsShape(n / 10); }
  }

  lemma {:induction false} DigitsMeaning(n: nat, pre: Text)
    ensures DigitsValue(pre + Digits(n), |pre|, |pre| + |Digits(n)|) == n
    decreases n
  {
    if n >= 10 {
      DigitsMeaning(n / 10, pre);
      var d := Digits(n / 10);
      Assoc(pre, d, [0x30 + n % 10]);
      SameDigits(pre + d, pre + Digits(n), |pre|, |pre| + |d|);
    }
  }

  lemma {:induction false} SameDigits(a: Text, b: Text, i: nat, j: nat)
    requires i <= j <= |a| && j <= |b| && a[i..j] == b[i..j]
    ensures DigitsValue(a, i, j) == DigitsValue(b, i, j)
    decreases j
  {
    if i < j {
      assert a[i..j - 1] == a[i..j][..j - 1 - i] && b[i..j - 1] == b[i..j][..j - 1 - i];
      assert a[j - 1] == a[i..j][j - 1 - i] && b[j - 1] == b[i..j][j - 1 - i];
      SameDigits(a, b, i, j - 1);
    }
  }

  lemma IntegerToken(t: Text, sign: nat)
    requires sign < |t| && (if sign == 0 then t[0] != MINUS else sign == 1 && t[0] == MINUS)
    requires forall k :: sign <= k < |t| ==> Digit(t[k])
    requires t[sign] == 0x30 ==> |t| == sign + 1
    ensures NumberOf(t) == Some(Integer(if sign == 0 then DigitsValue(t, 0, |t|) else -DigitsValue(t, 1, |t|)))
  {
    hide DigitsValue;
    var e := DigitsEnd(t, sign);
    assert e == |t|;
  }

  /** The text of an integer is a number token, and reads back as that integer. */
  lemma IntegerReads(i: int)
    ensures var t := NumberText(Integer(i));
            NumberOf(t) == Some(Integer(i)) && forall k :: 0 <= k < |t| ==> NumberByte(t[k])
  {
    if i < 0 { SignedReads(-i, [MINUS]); } else { SignedReads(i, []); }
    hide Digits, NumberOf;
    if i >= 0 { Identity(Digits(i)); }
  }

  lemma SignedReads(n: nat, sign: Text)
    requires sign == [] || sign == [MINUS]
    ensures var t := sign + Digits(n);
            && NumberOf(t) == Some(Integer(if sign == [] then n as int else -(n as int)))
            && forall k :: 0 <= k < |t| ==> NumberByte(t[k])
  {
    DigitsShape(n);
    DigitsMeaning(n, sign);
    hide Digits, DigitsValue, NumberOf;
    IntegerToken(sign + Digits(n), |sign|);
  }

  // ----- Values -----

  /** duk__enc_newline_indent; no gap, no line breaks. */
  function Break(gap: Text, depth: nat): (r: Text) {
    if gap == [] then [] else [0x0a] + Repeat(gap, depth)
  }

  function Repeat(gap: Text, n: nat): (r: Text)
    ensures |r| == n * |gap|
  {
    if n == 0 then [] else gap + Repeat(gap, n - 1)
  }

  function Colon(gap: Text): (r: Text) {
    if gap == [] then [COLON] else [COLON, 0x20]
  }

  /** The text of a value that stands at the given depth. */
  function Print(v: Json, gap: Text, depth: nat): (r: Text)
    decreases v, 0
  {
    match v
    case Null => NULL
    case Bool(b) => if b then TRUE else FALSE
    case Num(n) => NumberText(n)
    case Str(s) => Quote(s)
    case Arr(items) =>
      if items == [] then [LBRACKET, RBRACKET]
      else [LBRACKET] + PrintItem(items[0], gap, depth + 1) + PrintItems(items[1..], gap, depth + 1)
           + Break(gap, depth) + [RBRACKET]
    case Obj(members) =>
      if members == [] then [LCURLY, RCURLY]
      else [LCURLY] + PrintMember(members[0], gap, depth + 1) + PrintMembers(members[1..], gap, depth + 1)
           + Break(gap, depth) + [RCURLY]
  }

  function PrintItem(v: Json, gap: Text, depth: nat): (r: Text)
    decreases v, 1
  {
    Break(gap, depth) + Print(v, gap, depth)
  }

  function PrintItems(items: seq<Json>, gap: Text, depth: nat): (r: Text)
    decreases items
  {
    if items == [] then [] else [COMMA] + PrintItem(items[0], gap, depth) + PrintItems(items[1..], gap, depth)
  }

  function PrintMember(m: Member, gap: Text, depth: nat): (r: Text)
    decreases m
  {
    Break(gap, depth) + Quote(m.key) + Colon(gap) + Print(m.value, gap, depth)
  }

  function PrintMembers(ms: seq<Member>, gap: Text, depth: nat): (r: Text)
    decreases ms
  {
    if ms == [] then [] else [COMMA] + PrintMember(ms[0], gap, depth) + PrintMembers(ms[1..], gap, depth)
  }

  // ----- Parsing undoes printing -----

  predicate UniqueKeys(ms: seq<Member>) {
    forall i, j :: 0 <= i < j < |ms| ==> ms[i].key != ms[j].key
  }

  /** Values all of whose strings are in shortest form, whose keys are unique and whose numbers read back. */
  predicate Printable(v: Json) {
    match v
    case Num(n) => Readable(n)
    case Str(s) => Canonical(s)
    case Arr(items) => forall i :: 0 <= i < |items| ==> Printable(items[i])
    case Obj(ms) => UniqueKeys(ms) && forall i :: 0 <= i < |ms| ==> PrintableMember(ms[i])
    case _ => true
  }

  predicate PrintableMember(m: Member) {
    Canonical(m.key) && Printable(m.value)
  }

  function Nesting(v: Json): (d: nat) {
    match v
    case Arr(items) => 1 + ItemsNesting(items)
    case Obj(ms) => 1 + MembersNesting(ms)
    case _ => 0
  }

  function ItemsNesting(items: seq<Json>): (d: nat) {
    if items == [] then 0
    else
      var a, b := Nesting(items[0]), ItemsNesting(items[1..]);
      if a < b then b else a
  }

  function MembersNesting(ms: seq<Member>): (d: nat) {
    if ms == [] then 0
    else
      var a, b := Nesting(ms[0].value), MembersNesting(ms[1..]);
      if a < b then b else a
  }

  lemma {:induction false} RepeatWhite(gap: Text, n: nat)
    requires AllWhite(gap)
    ensures AllWhite(Repeat(gap, n))
  {
    if n > 0 { RepeatWhite(gap, n - 1); }
  }

  lemma BreakWhite(gap: Text, depth: nat)
    requires AllWhite(gap)
    ensures AllWhite(Break(gap, depth))
  {
    RepeatWhite(gap, depth);
    hide Repeat;
  }

  /** A printed value is in the grammar, with the value printed. */
  lemma {:induction false} PrintSyntax(v: Json, gap: Text, depth: nat) returns (b: Body)
    requires Printable(v) && AllWhite(gap)
    ensures ValidBody(b) && RenderBody(b) == Print(v, gap, depth)
    ensures Meaning(Syntax([], b, [])) == v && Depth(Syntax([], b, [])) == Nesting(v)
    decreases v, 2
  {
    match v
    case Null => b := NullBody;
    case Bool(x) => b := BoolBody(x);
    case Num(n) => b := NumberSyntax(n);
    case Str(s) => b := StringSyntax(s);
    case Arr(items) => b := ArraySyntax(items, gap, depth);
    case Obj(ms) => b := ObjectSyntax(ms, gap, depth);
  }

  lemma NumberSyntax(n: Number) returns (b: Body)
    requires Readable(n)
    ensures b.NumBody? && ValidBody(b) && RenderBody(b) == NumberText(n) && Meaning(Syntax([], b, [])) == Num(n)
  {
    hide NumberOf, Digits, RenderNumber, ValidNumber, NumberMeaning;
    if n.Integer? { IntegerReads(n.n); }
    var syntax := JsonNumber.TokenSound(NumberText(n));
    b := NumBody(syntax);
  }

  lemma StringSyntax(s: Text) returns (b: Body)
    requires Canonical(s)
    ensures b.StrBody? && ValidBody(b) && RenderBody(b) == Quote(s) && Meaning(Syntax([], b, [])) == Str(s)
  {
    hide Canonical, QuoteBody;
    var cs := QuoteSyntax(s);
    b := StrBody(cs);
  }

  lemma {:induction false} ArraySyntax(items: seq<Json>, gap: Text, depth: nat) returns (b: Body)
    requires (forall i :: 0 <= i < |items| ==> Printable(items[i])) && AllWhite(gap)
    ensures b.ArrBody? && ValidBody(b) && RenderBody(b) == Print(Arr(items), gap, depth)
    ensures Meaning(Syntax([], b, [])) == Arr(items) && Depth(Syntax([], b, [])) == Nesting(Arr(items))
    decreases items, 1
  {
    hide Printable, AllWhite, Valid, Render, RenderItems, PrintItem, PrintItems, Break, ItemsMeaning, ItemsDepth, ItemsNesting;
    var close := Break(gap, depth);
    assert AllWhite([]) by { NoWhite(); }
    assert AllWhite(close) by { BreakWhite(gap, depth); }
    var xs := ItemsSyntax(items, gap, depth + 1, close);
    b := ArrBody([], xs);
    if items != [] {
      WithoutComma(xs, items, gap, depth + 1, close);
      Between(LBRACKET, PrintItem(items[0], gap, depth + 1), PrintItems(items[1..], gap, depth + 1), close, RBRACKET);
    }
  }

  lemma NoWhite()
    ensures AllWhite([])
  {}

  lemma Between(open: Byte, a: Text, b: Text, c: Text, close: Byte)
    ensures [open] + a + b + c + [close] == [open] + (a + b + c) + [close]
  {}

  lemma WithoutComma(xs: seq<Syntax>, items: seq<Json>, gap: Text, d: nat, close: Text)
    requires xs != [] && items != [] && RenderItems(xs) == PrintItems(items, gap, d) + close
    ensures Render(xs[0]) + RenderItems(xs[1..]) == PrintItem(items[0], gap, d) + PrintItems(items[1..], gap, d) + close
  {
    hide Render, PrintItem;
    Assoc([COMMA], Render(xs[0]), RenderItems(xs[1..]));
    AppendSplit([COMMA], Render(xs[0]) + RenderItems(xs[1..]));
    var p := PrintItem(items[0], gap, d) + PrintItems(items[1..], gap, d);
    Assoc([COMMA], PrintItem(items[0], gap, d), PrintItems(items[1..], gap, d));
    Assoc([COMMA], p, close);
    AppendSplit([COMMA], p + close);
  }

  /** All but the last item end right after their value; the last one is followed by the closing line break. */
  lemma {:induction false} ItemsSyntax(items: seq<Json>, gap: Text, d: nat, close: Text) returns (xs: seq<Syntax>)
    requires (forall i :: 0 <= i < |items| ==> Printable(items[i])) && AllWhite(gap) && AllWhite(close)
    ensures |xs| == |items| && forall i :: 0 <= i < |xs| ==> Valid(xs[i])
    ensures RenderItems(xs) == PrintItems(items, gap, d) + (if items == [] then [] else close)
    ensures ItemsMeaning(xs) == items && ItemsDepth(xs) == ItemsNesting(items)
    decreases items, 0
  {
    if items == [] {
      xs := [];
    } else {
      hide Printable, AllWhite, ValidBody, RenderBody, Print, Break, Meaning, Depth, Nesting;
      hide RenderItems, ItemsMeaning, ItemsDepth, PrintItems, ItemsNesting;
      var rest := ItemsSyntax(items[1..], gap, d, close);
      var b := PrintSyntax(items[0], gap, d);
      BreakWhite(gap, d);
      NoWhite();
      var x := Syntax(Break(gap, d), b, if |items| == 1 then close else []);
      xs := [x] + rest;
      SameMeaning(x);
      ItemsCons(x, rest, items, gap, d, close);
    }
  }

  lemma SameMeaning(x: Syntax)
    ensures Meaning(x) == Meaning(Syntax([], x.body, [])) && Depth(x) == Depth(Syntax([], x.body, []))
  {}

  lemma ItemsCons(x: Syntax, rest: seq<Syntax>, items: seq<Json>, gap: Text, d: nat, close: Text)
    requires items != [] && |rest| == |items| - 1 && x.lead == Break(gap, d)
    requires RenderBody(x.body) == Print(items[0], gap, d) && x.trail == (if |items| == 1 then close else [])
    requires Meaning(x) == items[0] && Depth(x) == Nesting(items[0])
    requires RenderItems(rest) == PrintItems(items[1..], gap, d) + (if items[1..] == [] then [] else close)
    requires ItemsMeaning(rest) == items[1..] && ItemsDepth(rest) == ItemsNesting(items[1..])
    ensures RenderItems([x] + rest) == PrintItems(items, gap, d) + close
    ensures ItemsMeaning([x] + rest) == items && ItemsDepth([x] + rest) == ItemsNesting(items)
  {
    hide RenderBody, Print, Break, Meaning, Depth, Nesting;
    var xs, item, after := [x] + rest, PrintItem(items[0], gap, d), PrintItems(items[1..], gap, d);
    assert xs[0] == x && xs[1..] == rest;
    Cons(items);
    RenderItemsStep(xs);
    PrintItemsStep(items, gap, d);
    hide RenderItems, PrintItems, ItemsMeaning, ItemsDepth, ItemsNesting;
    MeaningStep(xs);
    NestingStep(xs, items);
    if |items| == 1 {
      assert items[1..] == [];
      NoItemsLeft(gap, d);
      LastItem(item, close);
    } else {
      Identity(item);
      Assoc([COMMA] + item, after, close);
    }
  }

  lemma LastItem(item: Text, close: Text)
    ensures [COMMA] + (item + close) + ([] + []) == [COMMA] + item + [] + close
  {}

  lemma NoItemsLeft(gap: Text, d: nat)
    ensures PrintItems([], gap, d) == []
  {}

  lemma RenderItemsStep(xs: seq<Syntax>)
    requires xs != []
    ensures RenderItems(xs) == [COMMA] + Render(xs[0]) + RenderItems(xs[1..])
  {}

  lemma PrintItemsStep(items: seq<Json>, gap: Text, d: nat)
    requires items != []
    ensures PrintItems(items, gap, d) == [COMMA] + PrintItem(items[0], gap, d) + PrintItems(items[1..], gap, d)
  {}

  lemma PrintMembersStep(ms: seq<Member>, gap: Text, d: nat)
    requires ms != []
    ensures PrintMembers(ms, gap, d) == [COMMA] + PrintMember(ms[0], gap, d) + PrintMembers(ms[1..], gap, d)
  {}

  lemma MeaningStep(xs: seq<Syntax>)
    requires xs != []
    ensures ItemsMeaning(xs) == [Meaning(xs[0])] + ItemsMeaning(xs[1..])
  {}

  lemma NestingStep(xs: seq<Syntax>, items: seq<Json>)
    requires xs != [] && items != []
    requires Depth(xs[0]) == Nesting(items[0]) && ItemsDepth(xs[1..]) == ItemsNesting(items[1..])
    ensures ItemsDepth(xs) == ItemsNesting(items)
  {}

  lemma {:induction false} ObjectSyntax(ms: seq<Member>, gap: Text, depth: nat) returns (b: Body)
    requires UniqueKeys(ms) && (forall i :: 0 <= i < |ms| ==> PrintableMember(ms[i])) && AllWhite(gap)
    ensures b.ObjBody? && ValidBody(b) && RenderBody(b) == Print(Obj(ms), gap, depth)
    ensures Meaning(Syntax([], b, [])) == Obj(ms) && Depth(Syntax([], b, [])) == Nesting(Obj(ms))
    decreases ms, 1
  {
    hide PrintableMember, AllWhite, ValidPair, RenderPair, RenderPairs, PrintMember, PrintMembers, Break;
    hide PairsMeaning, PairsDepth, MembersNesting, UniqueKeys, MembersOf;
    var close := Break(gap, depth);
    assert AllWhite([]) by { NoWhite(); }
    assert AllWhite(close) by { BreakWhite(gap, depth); }
    var pairs := PairsSyntax(ms, gap, depth + 1, close);
    b := ObjBody([], pairs);
    Identity(ms);
    UniqueMeaning([], pairs, ms);
    if ms != [] {
      WithoutCommaPairs(pairs, ms, gap, depth + 1, close);
      Between(LCURLY, PrintMember(ms[0], gap, depth + 1), PrintMembers(ms[1..], gap, depth + 1), close, RCURLY);
    }
  }

  lemma WithoutCommaPairs(pairs: seq<Pair>, ms: seq<Member>, gap: Text, d: nat, close: Text)
    requires pairs != [] && ms != [] && RenderPairs(pairs) == PrintMembers(ms, gap, d) + close
    ensures RenderPair(pairs[0]) + RenderPairs(pairs[1..])
            == PrintMember(ms[0], gap, d) + PrintMembers(ms[1..], gap, d) + close
  {
    hide RenderPair, PrintMember;
    Assoc([COMMA], RenderPair(pairs[0]), RenderPairs(pairs[1..]));
    AppendSplit([COMMA], RenderPair(pairs[0]) + RenderPairs(pairs[1..]));
    var p := PrintMember(ms[0], gap, d) + PrintMembers(ms[1..], gap, d);
    Assoc([COMMA], PrintMember(ms[0], gap, d), PrintMembers(ms[1..], gap, d));
    Assoc([COMMA], p, close);
    AppendSplit([COMMA], p + close);
  }

  /** The members that pairs stand for, before a later one can replace an earlier one. */
  function MembersOf(pairs: seq<Pair>): (ms: seq<Member>) {
    if pairs == [] then [] else [Member(CharsBytes(pairs[0].key), Meaning(pairs[0].value))] + MembersOf(pairs[1..])
  }

  lemma {:induction false} DefineNew(ms: seq<Member>, key: Text, value: Json)
    requires forall i :: 0 <= i < |ms| ==> ms[i].key != key
    ensures Define(ms, key, value) == ms + [Member(key, value)]
  {
    if ms != [] { DefineNew(ms[1..], key, value); }
  }

  /** With unique keys, defining members one by one lists them. */
  lemma {:induction false} UniqueMeaning(acc: seq<Member>, pairs: seq<Pair>, ms: seq<Member>)
    requires MembersOf(pairs) == ms && UniqueKeys(acc + ms)
    ensures PairsMeaning(acc, pairs) == acc + ms
    decreases pairs
  {
    hide CharsBytes, Meaning, Define;
    if pairs == [] {
      Identity(acc);
    } else {
      var m := ms[0];
      assert ms[1..] == MembersOf(pairs[1..]);
      forall i | 0 <= i < |acc| ensures acc[i].key != m.key {
        assert (acc + ms)[i] == acc[i] && (acc + ms)[|acc|] == m;
      }
      DefineNew(acc, m.key, m.value);
      Cons(ms);
      Assoc(acc, [m], ms[1..]);
      UniqueMeaning(acc + [m], pairs[1..], ms[1..]);
    }
  }

  lemma {:induction false} PairsSyntax(ms: seq<Member>, gap: Text, d: nat, close: Text) returns (pairs: seq<Pair>)
    requires (forall i :: 0 <= i < |ms| ==> PrintableMember(ms[i])) && AllWhite(gap) && AllWhite(close)
    ensures |pairs| == |ms| && forall i :: 0 <= i < |pairs| ==> ValidPair(pairs[i])
    ensures RenderPairs(pairs) == PrintMembers(ms, gap, d) + (if ms == [] then [] else close)
    ensures MembersOf(pairs) == ms && PairsDepth(pairs) == MembersNesting(ms)
    decreases ms, 0
  {
    if ms == [] {
      pairs := [];
    } else {
      hide PrintableMember, AllWhite, ValidPair, RenderPair, PrintMember, Meaning, Depth, Nesting, CharsBytes;
      hide RenderPairs, MembersOf, PairsDepth, PrintMembers, MembersNesting;
      var rest := PairsSyntax(ms[1..], gap, d, close);
      var pair := MemberSyntax(ms[0], gap, d, if |ms| == 1 then close else []);
      pairs := [pair] + rest;
      PairsCons(pair, rest, ms, gap, d, close);
    }
  }

  lemma {:induction false} MemberSyntax(m: Member, gap: Text, d: nat, trail: Text) returns (pair: Pair)
    requires PrintableMember(m) && AllWhite(gap) && (AllWhite(trail) || trail == [])
    ensures ValidPair(pair) && RenderPair(pair) == PrintMember(m, gap, d) + trail
    ensures Member(CharsBytes(pair.key), Meaning(pair.value)) == m && Depth(pair.value) == Nesting(m.value)
    decreases m, 3
  {
    hide Canonical, Printable, ValidBody, RenderBody, Print, Break, Meaning, Depth, Nesting;
    hide ValidChars, CharsBytes, Quote, Quoted;
    BreakWhite(gap, d);
    var key := QuoteSyntax(m.key);
    var b := PrintSyntax(m.value, gap, d);
    var value := Syntax(if gap == [] then [] else [0x20], b, trail);
    SameMeaning(value);
    pair := Pair(Break(gap, d), key, [], value);
    ColonSplit(gap);
    MemberText(Break(gap, d), Quote(m.key), value.lead, Print(m.value, gap, d), trail);
  }

  lemma ColonSplit(gap: Text)
    ensures Colon(gap) == [COLON] + (if gap == [] then [] else [0x20])
  {}

  lemma MemberText(lead: Text, key: Text, space: Text, value: Text, trail: Text)
    ensures lead + key + [] + [COLON] + (space + value + trail) == lead + key + ([COLON] + space) + value + trail
  {}

  lemma PairsCons(pair: Pair, rest: seq<Pair>, ms: seq<Member>, gap: Text, d: nat, close: Text)
    requires ms != [] && |rest| == |ms| - 1
    requires RenderPair(pair) == PrintMember(ms[0], gap, d) + (if |ms| == 1 then close else [])
    requires Member(CharsBytes(pair.key), Meaning(pair.value)) == ms[0] && Depth(pair.value) == Nesting(ms[0].value)
    requires RenderPairs(rest) == PrintMembers(ms[1..], gap, d) + (if ms[1..] == [] then [] else close)
    requires MembersOf(rest) == ms[1..] && PairsDepth(rest) == MembersNesting(ms[1..])
    ensures RenderPairs([pair] + rest) == PrintMembers(ms, gap, d) + close
    ensures MembersOf([pair] + rest) == ms && PairsDepth([pair] + rest) == MembersNesting(ms)
  {
    hide RenderPair, PrintMember, Meaning, Depth, Nesting, CharsBytes;
    var pairs, member, after := [pair] + rest, PrintMember(ms[0], gap, d), PrintMembers(ms[1..], gap, d);
    assert pairs[0] == pair && pairs[1..] == rest;
    Cons(ms);
    PairsStep(pairs, ms, gap, d);
    hide RenderPairs, PrintMembers, MembersOf, PairsDepth, MembersNesting;
    if |ms| == 1 {
      assert ms[1..] == [];
      NoMembersLeft(gap, d);
      LastItem(member, close);
    } else {
      Identity(member);
      Assoc([COMMA] + member, after, close);
    }
  }

  lemma NoMembersLeft(gap: Text, d: nat)
    ensures PrintMembers([], gap, d) == []
  {}

  lemma {:induction false} PairsStep(pairs: seq<Pair>, ms: seq<Member>, gap: Text, d: nat)
    requires pairs != [] && ms != []
    requires Depth(pairs[0].value) == Nesting(ms[0].value) && PairsDepth(pairs[1..]) == MembersNesting(ms[1..])
    ensures RenderPairs(pairs) == [COMMA] + RenderPair(pairs[0]) + RenderPairs(pairs[1..])
    ensures PrintMembers(ms, gap, d) == [COMMA] + PrintMember(ms[0], gap, d) + PrintMembers(ms[1..], gap, d)
    ensures MembersOf(pairs) == [Member(CharsBytes(pairs[0].key), Meaning(pairs[0].value))] + MembersOf(pairs[1..])
    ensures PairsDepth(pairs) == MembersNesting(ms)
  {
    hide RenderPair, PrintMember, Meaning, Depth, Nesting, CharsBytes;
  }

  /** JSON.parse() of JSON.stringify() gives the value back, for every white space gap. */
  lemma ParsePrint(v: Json, gap: Text, limit: nat)
    requires Printable(v) && AllWhite(gap) && Nesting(v) <= limit
    ensures ParseText(Print(v, gap, 0), limit) == Ok(v, |Print(v, gap, 0)|)
  {
    hide Printable, Print, RenderBody, ValidBody, Meaning, Depth, ParseText;
    var b := PrintSyntax(v, gap, 0);
    var t := Syntax([], b, []);
    NoWhite();
    Identity(RenderBody(b));
    assert JsonGrammar.Reads(t, Print(v, gap, 0), v, limit);
    JsonGrammar.ParseIsGrammar(Print(v, gap, 0), limit, v);
  }
}
