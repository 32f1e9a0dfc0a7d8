/** The number scanner accepts exactly the numbers of the JSON grammar, and gives each of them its value. */
module JsonNumber {
  import opened Bytes
  import opened Seqs
  import opened JsonTree
  import opened JsonParse

  // ----- Digits -----

  lemma {:induction false} DecimalSnoc(d: Text, c: Byte)
    ensures DecimalValue(d + [c]) == 10 * DecimalValue(d) + c - 0x30
    decreases |d|
  {
    if d == [] {
      assert [c][1..] == [] && [] + [c] == [c];
      assert DecimalValue([c]) == (c as int - 0x30) * Pow10(0) + DecimalValue([]);
    } else {
      HeadTail(d, [c]);
      DecimalSnoc(d[1..], c);
      Shift(d[0] as int - 0x30, Pow10(|d| - 1));
    }
  }

  lemma Shift(x: int, p: int)
    ensures x * (10 * p) == 10 * (x * p)
  {}

  /** The loop over the digits computes their decimal value. */
  lemma {:induction false} DigitsDecimal(t: Text, i: nat, j: nat)
    requires i <= j <= |t|
    ensures DigitsValue(t, i, j) == DecimalValue(t[i..j])
    decreases j
  {
    if i < j {
      DigitsDecimal(t, i, j - 1);
      DecimalSnoc(t[i..j - 1], t[j - 1]);
      assert t[i..j - 1] + [t[j - 1]] == t[i..j];
    }
  }

  /** Digits that stand at i and do not go on. */
  lemma DigitsHere(t: Text, i: nat, d: Text)
    requires Digits1(d) && At(t, i, d) && (i + |d| < |t| ==> !Digit(t[i + |d|]))
    ensures DigitsEnd(t, i) == i + |d| && t[i] == d[0]
  {
    AtIndex(t, i, d, 0);
    forall k | i <= k < i + |d| ensures Digit(t[k]) { AtIndex(t, i, d, k - i); }
  }

  lemma SliceDigits(t: Text, i: nat, j: nat)
    requires i < j <= |t| && forall k :: i <= k < j ==> Digit(t[k])
    ensures Digits1(t[i..j]) && t[i..j][0] == t[i]
  {}

  // ----- The parts of a number -----

  /** What follows the integer part or the fraction does not begin with a digit. */
  lemma PartStarts(n: NumberSyntax)
    requires ValidNumber(n)
    ensures var f := RenderFraction(n.frac); f == [] || f[0] == 0x2e
    ensures var e := RenderExponent(n.exp); e == [] || e[0] == 0x65 || e[0] == 0x45
  {}

  lemma IntegerHere(t: Text, s: nat, d: Text)
    requires Digits1(d) && (d[0] == 0x30 ==> |d| == 1) && At(t, s, d) && (s + |d| < |t| ==> !Digit(t[s + |d|]))
    requires s == if t != [] && t[0] == MINUS then 1 else 0
    ensures IntegerEnd(t) == Some(s + |d|)
  {
    DigitsHere(t, s, d);
  }

  lemma IntegerComplete(n: NumberSyntax)
    requires ValidNumber(n)
    ensures var t := RenderNumber(n); IntegerEnd(t) == Some((if n.minus then 1 else 0) + |n.whole|)
    ensures RenderNumber(n)[0] == if n.minus then MINUS else n.whole[0]
  {
    PartStarts(n);
    assert Digit(n.whole[0]);
    var sign, rest := if n.minus then [MINUS] else [], RenderFraction(n.frac) + RenderExponent(n.exp);
    assert rest != [] ==> !Digit(rest[0]);
    Assoc(sign + n.whole, RenderFraction(n.frac), RenderExponent(n.exp));
    hide RenderFraction, RenderExponent, ValidExponent, Digits1, IntegerEnd;
    var t := RenderNumber(n);
    assert t == sign + n.whole + rest;
    AppendSplit(sign + n.whole, rest);
    AppendSplit(sign, n.whole);
    assert At(t, |sign|, n.whole);
    IntegerHere(t, |sign|, n.whole);
  }

  lemma FractionComplete(n: NumberSyntax)
    requires ValidNumber(n)
    ensures var t, i := RenderNumber(n), (if n.minus then 1 else 0) + |n.whole|;
            i <= |t| && FractionEnd(t, i) == Some(i + |RenderFraction(n.frac)|)
  {
    PartStarts(n);
    var t, head := RenderNumber(n), (if n.minus then [MINUS] else []) + n.whole;
    var f, e := RenderFraction(n.frac), RenderExponent(n.exp);
    var i := |head|;
    assert i + |f| < |t| ==> t[i + |f|] == e[0];
    if n.frac.Some? {
      assert t[i] == 0x2e;
      assert At(t, i + 1, n.frac.value);
      DigitsHere(t, i + 1, n.frac.value);
    }
  }

  lemma ExponentHere(t: Text, i: nat, e: Exponent)
    requires ValidExponent(e) && At(t, i, [e.letter] + e.sign + e.digits) && i + 1 + |e.sign| + |e.digits| == |t|
    ensures ExponentEnd(t, i) == Some(|t|)
  {
    var k := i + 1 + |e.sign|;
    AtAppend(t, i, [e.letter] + e.sign, e.digits);
    AtAppend(t, i, [e.letter], e.sign);
    AtOne(t, i, e.letter);
    DigitsHere(t, k, e.digits);
    if e.sign != [] { AtIndex(t, i + 1, e.sign, 0); }
    assert Digit(e.digits[0]);
    hide At;
  }

  lemma NoExponent(t: Text)
    ensures ExponentEnd(t, |t|) == Some(|t|)
  {}

  lemma ExponentComplete(n: NumberSyntax)
    requires ValidNumber(n)
    ensures var t, i := RenderNumber(n), (if n.minus then 1 else 0) + |n.whole| + |RenderFraction(n.frac)|;
            i <= |t| && ExponentEnd(t, i) == Some(|t|)
  {
    hide ValidExponent, Digits1, RenderFraction, ExponentEnd;
    NoExponent(RenderNumber(n));
    var t, head := RenderNumber(n), (if n.minus then [MINUS] else []) + n.whole + RenderFraction(n.frac);
    var i := |head|;
    assert t == head + RenderExponent(n.exp);
    if n.exp.Some? {
      AppendSplit(head, RenderExponent(n.exp));
      ExponentHere(t, i, n.exp.value);
    }
  }

  predicate NumberBytes(t: Text) {
    forall i :: 0 <= i < |t| ==> NumberByte(t[i])
  }

  lemma BytesAppend(a: Text, b: Text)
    requires NumberBytes(a) && NumberBytes(b)
    ensures NumberBytes(a + b)
  {}

  lemma RenderedBytes(n: NumberSyntax)
    requires ValidNumber(n)
    ensures NumberBytes(RenderNumber(n))
  {
    var sign, f, e := if n.minus then [MINUS] else [], RenderFraction(n.frac), RenderExponent(n.exp);
    assert NumberBytes(f) by {
      if n.frac.Some? { BytesAppend([0x2e], n.frac.value); }
    }
    assert NumberBytes(e) by {
      if n.exp.Some? {
        BytesAppend([n.exp.value.letter], n.exp.value.sign);
        BytesAppend([n.exp.value.letter] + n.exp.value.sign, n.exp.value.digits);
      }
    }
    BytesAppend(sign, n.whole);
    BytesAppend(sign + n.whole, f);
    BytesAppend(sign + n.whole + f, e);
  }

  /** Every number of the grammar is read with its value. */
  lemma TokenComplete(n: NumberSyntax)
    requires ValidNumber(n)
    ensures NumberOf(RenderNumber(n)) == Some(NumberMeaning(n)) && NumberBytes(RenderNumber(n))
  {
    IntegerComplete(n);
    FractionComplete(n);
    ExponentComplete(n);
    RenderedBytes(n);
    var t, s := RenderNumber(n), if n.minus then 1 else 0;
    assert |t| == s + |n.whole| + |RenderFraction(n.frac)| + |RenderExponent(n.exp)|;
    assert n.whole[0] != MINUS by { assert Digit(n.whole[0]); }
    if n.frac.None? && n.exp.None? {
      assert t[s..|t|] == n.whole;
      DigitsDecimal(t, s, |t|);
    }
    hide IntegerEnd, FractionEnd, ExponentEnd, RenderNumber, RenderFraction, RenderExponent, NumberBytes, DigitsValue;
  }

  // ----- From the text to its parts -----

  function SignOf(t: Text): (i: nat) {
    if t != [] && t[0] == MINUS then 1 else 0
  }

  lemma ExponentSound(t: Text, f: nat) returns (e: Option<Exponent>)
    requires f <= |t| && ExponentEnd(t, f) == Some(|t|)
    ensures (e.Some? ==> ValidExponent(e.value)) && RenderExponent(e) == t[f..]
  {
    if f == |t| { return None; }
    var k := if f + 1 < |t| && (t[f + 1] == MINUS || t[f + 1] == 0x2b) then f + 2 else f + 1;
    SliceDigits(t, k, |t|);
    e := Some(Exponent(t[f], t[f + 1..k], t[k..]));
    assert t[k..|t|] == t[k..];
    assert t[f..] == [t[f]] + t[f + 1..k] + t[k..];
  }

  lemma FractionSound(t: Text, i: nat, f: nat) returns (frac: Option<Text>)
    requires i <= |t| && FractionEnd(t, i) == Some(f)
    ensures (frac.Some? ==> Digits1(frac.value)) && RenderFraction(frac) == t[i..f] && (frac.None? ==> f == i)
  {
    if f == i { return None; }
    SliceDigits(t, i + 1, f);
    frac := Some(t[i + 1..f]);
    assert t[i..f] == [t[i]] + t[i + 1..f];
  }

  lemma IntegerSound(t: Text)
    requires IntegerEnd(t).Some?
    ensures var i, s := IntegerEnd(t).value, SignOf(t);
            && s < i <= |t| && Digits1(t[s..i]) && (t[s..i][0] == 0x30 ==> i == s + 1)
            && t[..s] == if s == 1 then [MINUS] else []
  {
    SliceDigits(t, SignOf(t), IntegerEnd(t).value);
  }

  lemma FourParts(t: Text, i: nat, j: nat, k: nat)
    requires i <= j <= k <= |t|
    ensures t[..i] + t[i..j] + t[j..k] + t[k..] == t
  {}

  /** Every text that is read as a number is a number of the grammar. */
  lemma TokenSound(t: Text) returns (n: NumberSyntax)
    requires NumberOf(t).Some?
    ensures ValidNumber(n) && RenderNumber(n) == t && NumberOf(t) == Some(NumberMeaning(n))
  {
    var i, s := IntegerEnd(t).value, SignOf(t);
    var f := FractionEnd(t, i).value;
    IntegerSound(t);
    hide FractionEnd, ExponentEnd, IntegerEnd, Digits1, RenderFraction, RenderExponent, ValidExponent;
    var frac := FractionSound(t, i, f);
    var exp := ExponentSound(t, f);
    n := NumberSyntax(s == 1, t[s..i], frac, exp);
    FourParts(t, s, i, f);
    TokenComplete(n);
  }

  /** JSON.parse() reads a token as a number exactly if it is a JSONNumber: an integer without fraction and exponent. */
  lemma NumberIsGrammar(t: Text, v: Number)
    ensures NumberOf(t) == Some(v) <==> exists n :: ValidNumber(n) && RenderNumber(n) == t && NumberMeaning(n) == v
  {
    hide NumberOf, ValidNumber, RenderNumber, NumberMeaning;
    if NumberOf(t) == Some(v) { var n := TokenSound(t); }
    if n :| ValidNumber(n) && RenderNumber(n) == t && NumberMeaning(n) == v { TokenComplete(n); }
  }
}
