/** The texts that JSON.stringify() writes, as E5.1 section 15.12.3 lays them out, and the characters of the grammar. */
module JsonLayout {
  import opened Bytes
  import opened Seqs
  import opened JsonTree
  import opened JsonParse
  import opened JsonPrint
  import Xutf8

  // ----- Characters of the grammar -----

  lemma Blanks(b: Byte)
    ensures White(b) <==> b in [0x09, 0x0a, 0x0d, 0x20]
  {}

  lemma DecimalDigits(b: Byte)
    ensures Digit(b) <==> b in Ascii("0123456789")
  {
    var d := Ascii("0123456789");
    forall i | 0 <= i < 10 ensures d[i] == 0x30 + i {}
    if Digit(b) { assert d[b - 0x30] == b; }
  }

  /** Hex digits of either case, and no others. */
  lemma HexDigits(b: Byte, v: nat)
    ensures HexDigit(b) == v <==> v < 16 && b in [Ascii("0123456789abcdef")[v], Ascii("0123456789ABCDEF")[v]]
  {
    var l, u := Ascii("0123456789abcdef"), Ascii("0123456789ABCDEF");
    forall i | 0 <= i < 16 ensures l[i] == (if i < 10 then 0x30 + i else 0x61 + i - 10) {}
    forall i | 0 <= i < 16 ensures u[i] == (if i < 10 then 0x30 + i else 0x41 + i - 10) {}
  }

  lemma FourHexDigits(h: Text)
    requires |h| == 4 && forall i :: 0 <= i < 4 ==> HexDigit(h[i]) >= 0
    ensures ChrBytes(Uni(h))
            == Xutf8.Encode(HexDigit(h[0]) * 0x1000 + HexDigit(h[1]) * 0x100 + HexDigit(h[2]) * 0x10 + HexDigit(h[3]))
  {}

  lemma Escapes(c: Byte, v: Byte)
    ensures EscapeByte(c) == Some(v)
            <==> exists i :: 0 <= i < 8 && Ascii("\"\\/bfnrt")[i] == c && [0x22, 0x5c, 0x2f, 0x08, 0x0c, 0x0a, 0x0d, 0x09][i] == v
  {
    var t, w := Ascii("\"\\/bfnrt"), [0x22, 0x5c, 0x2f, 0x08, 0x0c, 0x0a, 0x0d, 0x09];
    assert t == [0x22, 0x5c, 0x2f, 0x62, 0x66, 0x6e, 0x72, 0x74];
    if EscapeByte(c) == Some(v) {
      var i := if c == 0x22 then 0 else if c == 0x5c then 1 else if c == 0x2f then 2 else if c == 0x62 then 3
               else if c == 0x66 then 4 else if c == 0x6e then 5 else if c == 0x72 then 6 else 7;
      assert t[i] == c && w[i] == v;
    }
  }

  /** A later value of a key takes the place of an earlier one; a new key goes last. */
  lemma {:induction false} Redefined(a: seq<Member>, key: Text, was: Json, b: seq<Member>, value: Json)
    requires forall i :: 0 <= i < |a| ==> a[i].key != key
    ensures Define(a + [Member(key, was)] + b, key, value) == a + [Member(key, value)] + b
    ensures Define(a, key, value) == a + [Member(key, value)]
    decreases |a|
  {
    var ms := a + [Member(key, was)] + b;
    if a == [] {
      assert ms[0] == Member(key, was) && ms[1..] == b;
    } else {
      assert ms[0] == a[0] && ms[1..] == a[1..] + [Member(key, was)] + b;
      Redefined(a[1..], key, was, b, value);
      assert [a[0]] + (a[1..] + [Member(key, value)] + b) == a + [Member(key, value)] + b;
      assert [a[0]] + (a[1..] + [Member(key, value)]) == a + [Member(key, value)];
    }
  }

  // ----- Literals and numbers -----

  lemma Literals(gap: Text, depth: nat)
    ensures Print(Null, gap, depth) == Ascii("null")
    ensures Print(Bool(true), gap, depth) == Ascii("true") && Print(Bool(false), gap, depth) == Ascii("false")
    ensures Print(Arr([]), gap, depth) == Ascii("[]") && Print(Obj([]), gap, depth) == Ascii("{}")
  {}

  /** The last digit of a number, and its sign. */
  lemma {:induction false} NumberTexts(n: nat, digit: nat, gap: Text, depth: nat)
    requires digit < 10 && 0 < n
    ensures Print(Num(Integer(digit)), gap, depth) == [Ascii("0123456789")[digit]]
    ensures Print(Num(Integer(10 * n + digit)), gap, depth)
            == Print(Num(Integer(n)), gap, depth) + [Ascii("0123456789")[digit]]
    ensures Print(Num(Integer(-(n as int))), gap, depth) == Ascii("-") + Print(Num(Integer(n)), gap, depth)
  {
    var d := Ascii("0123456789");
    forall i | 0 <= i < 10 ensures d[i] == 0x30 + i {}
    assert (10 * n + digit) / 10 == n && (10 * n + digit) % 10 == digit;
  }

  // ----- Strings -----

  /** One ASCII character: two-character escapes, \u00XX in lower case for other controls, or itself. */
  lemma QuotedAscii(b: Byte, rest: Text)
    requires b < 0x80
    ensures QuoteBody([b] + rest)
            == (if b == 0x22 then Ascii("\\\"") else if b == 0x5c then Ascii("\\\\")
                else if b == 0x08 then Ascii("\\b") else if b == 0x0c then Ascii("\\f") else if b == 0x0a then Ascii("\\n")
                else if b == 0x0d then Ascii("\\r") else if b == 0x09 then Ascii("\\t")
                else if b < 0x20 then Ascii("\\u00") + [Ascii("0123456789abcdef")[b / 16], Ascii("0123456789abcdef")[b % 16]]
                else [b])
               + QuoteBody(rest)
  {
    if b < 0x7f { AsciiText(b); } else { DeleteText(rest); }
    hide QuoteAscii, QuoteWide, Ascii;
    var s := [b] + rest;
    assert s[0] == b && s[1..] == rest;
  }

  lemma AsciiText(b: Byte)
    requires b < 0x7f
    ensures QuoteAscii(b)
            == (if b == 0x22 then Ascii("\\\"") else if b == 0x5c then Ascii("\\\\")
                else if b == 0x08 then Ascii("\\b") else if b == 0x0c then Ascii("\\f") else if b == 0x0a then Ascii("\\n")
                else if b == 0x0d then Ascii("\\r") else if b == 0x09 then Ascii("\\t")
                else if b < 0x20 then Ascii("\\u00") + [Ascii("0123456789abcdef")[b / 16], Ascii("0123456789abcdef")[b % 16]]
                else [b])
  {
    if b < 0x20 {
      LowerHex(b / 16);
      LowerHex(b % 16);
      var h := Ascii("0123456789abcdef");
      assert Ascii("\\u00") == [BACKSLASH, 0x75, HexChar(0), HexChar(0)];
    }
  }

  lemma LowerHex(x: nat)
    requires x < 16
    ensures Ascii("0123456789abcdef")[x] == HexChar(x)
  {}

  lemma DeleteText(rest: Text)
    ensures var s := [0x7f] + rest; Codepoint(s) == (0x7f, 1) && QuoteWide(0x7f) == [0x7f]
  {
    var s := [0x7f] + rest;
    assert s[0] == 0x7f && s[1..1] == [];
  }

  /** Any other character: itself, but for the two line separators. */
  lemma QuotedWide(cp: Word32, rest: Text)
    requires 0x80 <= cp
    ensures QuoteBody(Xutf8.Encode(cp) + rest)
            == (if cp == 0x2028 then Ascii("\\u2028") else if cp == 0x2029 then Ascii("\\u2029") else Xutf8.Encode(cp))
               + QuoteBody(rest)
  {
    var w := Xutf8.Encode(cp);
    var s := w + rest;
    assert w[0] >= 0x80 && s[0] == w[0];
    StartsWith(cp, s, rest);
    AppendSplit(w, rest);
    SeparatorTexts();
    hide Xutf8.Decode, Xutf8.Encode, Ascii, UniEscape;
    assert Codepoint(s) == (cp, |w|);
  }

  lemma SeparatorTexts()
    ensures Ascii("\\u2028") == UniEscape(0x2028) && Ascii("\\u2029") == UniEscape(0x2029)
  {}

  // ----- Arrays and objects -----

  /** A line feed, and one gap more for each level; without a gap nothing at all. */
  lemma LineBreaks(gap: Text, depth: nat)
    ensures gap == [] ==> Break(gap, depth) == []
    ensures gap != [] ==> Break(gap, 0) == [0x0a] && Break(gap, depth + 1) == Break(gap, depth) + gap
  {
    RepeatSnoc(gap, depth);
    Assoc([0x0a], Repeat(gap, depth), gap);
  }

  lemma {:induction false} RepeatSnoc(gap: Text, n: nat)
    ensures Repeat(gap, n + 1) == Repeat(gap, n) + gap
  {
    if n == 0 {
      Identity(gap);
    } else {
      RepeatSnoc(gap, n - 1);
      Assoc(gap, Repeat(gap, n - 1), gap);
    }
  }

  function Joined(parts: seq<Text>, sep: Text): (r: Text) {
    if parts == [] then [] else if |parts| == 1 then parts[0] else parts[0] + sep + Joined(parts[1..], sep)
  }

  function ItemTexts(items: seq<Json>, gap: Text, depth: nat): (r: seq<Text>) {
    seq(|items|, i requires 0 <= i < |items| => Print(items[i], gap, depth))
  }

  function MemberTexts(ms: seq<Member>, gap: Text, depth: nat): (r: seq<Text>) {
    seq(|ms|, i requires 0 <= i < |ms| =>
      Quote(ms[i].key) + (if gap == [] then Ascii(":") else Ascii(": ")) + Print(ms[i].value, gap, depth))
  }

  /** The JA() operation: the partial texts joined by commas, one to a line if there is a gap. */
  lemma ArrayLayout(items: seq<Json>, gap: Text, depth: nat)
    requires items != []
    ensures var indent := Break(gap, depth + 1);
            Print(Arr(items), gap, depth)
            == Ascii("[") + indent + Joined(ItemTexts(items, gap, depth + 1), Ascii(",") + indent)
               + Break(gap, depth) + Ascii("]")
  {
    hide Print, Break;
    var indent := Break(gap, depth + 1);
    JoinedItems(items, gap, depth + 1);
    PrintArray(items, gap, depth);
    assert Ascii("[") == [LBRACKET] && Ascii("]") == [RBRACKET];
    Enclosed([LBRACKET], PrintItem(items[0], gap, depth + 1), PrintItems(items[1..], gap, depth + 1), indent,
             Joined(ItemTexts(items, gap, depth + 1), Ascii(",") + indent), Break(gap, depth) + [RBRACKET]);
    Assoc([LBRACKET] + indent + Joined(ItemTexts(items, gap, depth + 1), Ascii(",") + indent), Break(gap, depth), [RBRACKET]);
    Assoc([LBRACKET] + PrintItem(items[0], gap, depth + 1) + PrintItems(items[1..], gap, depth + 1), Break(gap, depth), [RBRACKET]);
  }

  lemma PrintArray(items: seq<Json>, gap: Text, depth: nat)
    requires items != []
    ensures Print(Arr(items), gap, depth)
            == [LBRACKET] + PrintItem(items[0], gap, depth + 1) + PrintItems(items[1..], gap, depth + 1)
               + Break(gap, depth) + [RBRACKET]
  {}

  lemma Enclosed(open: Text, a: Text, b: Text, indent: Text, joined: Text, close: Text)
    requires a + b == indent + joined
    ensures open + a + b + close == open + indent + joined + close
  {
    Assoc(open, a, b);
    Assoc(open, indent, joined);
  }

  lemma {:induction false} JoinedItems(items: seq<Json>, gap: Text, depth: nat)
    requires items != []
    ensures PrintItem(items[0], gap, depth) + PrintItems(items[1..], gap, depth)
            == Break(gap, depth) + Joined(ItemTexts(items, gap, depth), Ascii(",") + Break(gap, depth))
    decreases |items|
  {
    hide Print, Break;
    var indent, texts, rest := Break(gap, depth), ItemTexts(items, gap, depth), items[1..];
    assert Ascii(",") == [COMMA];
    if rest == [] {
      Identity(PrintItem(items[0], gap, depth));
    } else {
      JoinedItems(rest, gap, depth);
      PrintItemsStep(rest, gap, depth);
      assert texts[1..] == ItemTexts(rest, gap, depth);
      Continued(indent, Print(items[0], gap, depth), PrintItem(rest[0], gap, depth), PrintItems(rest[1..], gap, depth),
                Joined(texts[1..], [COMMA] + indent));
    }
  }

  lemma Continued(indent: Text, first: Text, a: Text, b: Text, joined: Text)
    requires a + b == indent + joined
    ensures indent + first + ([COMMA] + a + b) == indent + (first + ([COMMA] + indent) + joined)
  {
    Assoc([COMMA], a, b);
    Assoc([COMMA], indent, joined);
    Assoc(indent, first, [COMMA] + (a + b));
    Assoc(first, [COMMA] + indent, joined);
  }

  /** The JO() operation. */
  lemma ObjectLayout(ms: seq<Member>, gap: Text, depth: nat)
    requires ms != []
    ensures var indent := Break(gap, depth + 1);
            Print(Obj(ms), gap, depth)
            == Ascii("{") + indent + Joined(MemberTexts(ms, gap, depth + 1), Ascii(",") + indent)
               + Break(gap, depth) + Ascii("}")
  {
    hide Print, Break;
    var indent := Break(gap, depth + 1);
    JoinedMembers(ms, gap, depth + 1);
    PrintObject(ms, gap, depth);
    assert Ascii("{") == [LCURLY] && Ascii("}") == [RCURLY];
    Enclosed([LCURLY], PrintMember(ms[0], gap, depth + 1), PrintMembers(ms[1..], gap, depth + 1), indent,
             Joined(MemberTexts(ms, gap, depth + 1), Ascii(",") + indent), Break(gap, depth) + [RCURLY]);
    Assoc([LCURLY] + indent + Joined(MemberTexts(ms, gap, depth + 1), Ascii(",") + indent), Break(gap, depth), [RCURLY]);
    Assoc([LCURLY] + PrintMember(ms[0], gap, depth + 1) + PrintMembers(ms[1..], gap, depth + 1), Break(gap, depth), [RCURLY]);
  }

  lemma PrintObject(ms: seq<Member>, gap: Text, depth: nat)
    requires ms != []
    ensures Print(Obj(ms), gap, depth)
            == [LCURLY] + PrintMember(ms[0], gap, depth + 1) + PrintMembers(ms[1..], gap, depth + 1)
               + Break(gap, depth) + [RCURLY]
  {}

  lemma {:induction false} JoinedMembers(ms: seq<Member>, gap: Text, depth: nat)
    requires ms != []
    ensures PrintMember(ms[0], gap, depth) + PrintMembers(ms[1..], gap, depth)
            == Break(gap, depth) + Joined(MemberTexts(ms, gap, depth), Ascii(",") + Break(gap, depth))
    decreases |ms|
  {
    hide Print, Break, Quote;
    var indent, texts, rest := Break(gap, depth), MemberTexts(ms, gap, depth), ms[1..];
    assert Ascii(",") == [COMMA] && Ascii(":") == [COLON] && Ascii(": ") == [COLON, 0x20];
    var first := texts[0];
    MemberText(indent, Quote(ms[0].key), Colon(gap), Print(ms[0].value, gap, depth));
    assert PrintMember(ms[0], gap, depth) == indent + first;
    if rest == [] {
      Identity(PrintMember(ms[0], gap, depth));
    } else {
      JoinedMembers(rest, gap, depth);
      PrintMembersStep(rest, gap, depth);
      assert texts[1..] == MemberTexts(rest, gap, depth);
      Continued(indent, first, PrintMember(rest[0], gap, depth), PrintMembers(rest[1..], gap, depth),
                Joined(texts[1..], [COMMA] + indent));
    }
  }

  lemma MemberText(indent: Text, key: Text, colon: Text, value: Text)
    ensures indent + key + colon + value == indent + (key + colon + value)
  {}
}
