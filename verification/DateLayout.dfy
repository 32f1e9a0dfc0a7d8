/** The layout of E5.1 section 15.9.1.15, position by position, and what the parser reads besides. */
module DateLayout {
  import opened Bytes
  import opened Seqs
  import opened DateCalendar
  import opened DateParts
  import opened DateIso

  // ----- Numbers at fixed places -----

  /** The n digits from position i on are the decimal digits of x. */
  predicate NumberAt(s: Text, i: nat, n: nat, x: int)
    decreases n
  {
    if n == 0 then x == 0
    else x >= 0 && i + n <= |s| && s[i + n - 1] == 0x30 + x % 10 && NumberAt(s, i, n - 1, x / 10)
  }

  predicate ByteAt(s: Text, i: nat, c: Byte) {
    i < |s| && s[i] == c
  }

  // ----- The layout -----

  /** -MM-DDTHH:mm:ss.sss from position y on. */
  predicate FieldsAt(s: Text, y: nat, p: Parts, sep: Byte) {
    && ByteAt(s, y, 0x2d) && NumberAt(s, y + 1, 2, p.month + 1) && ByteAt(s, y + 3, 0x2d) && NumberAt(s, y + 4, 2, p.day + 1)
    && ByteAt(s, y + 6, sep) && NumberAt(s, y + 7, 2, p.hour) && ByteAt(s, y + 9, 0x3a) && NumberAt(s, y + 10, 2, p.minute)
    && ByteAt(s, y + 12, 0x3a) && NumberAt(s, y + 13, 2, p.second) && ByteAt(s, y + 15, 0x2e) && NumberAt(s, y + 16, 3, p.millisecond)
  }

  /** Z, or the sign, hours and minutes of the offset, up to the end. */
  predicate ZoneAt(s: Text, z: nat, tz: Option<int>) {
    match tz
    case None => |s| == z + 1 && s[z] == 0x5a
    case Some(o) =>
      var seconds := if o < 0 then -o else o;
      && |s| == z + 6 && s[z] == (if o < 0 then 0x2d else 0x2b)
      && NumberAt(s, z + 1, 2, seconds / 3600) && s[z + 3] == 0x3a && NumberAt(s, z + 4, 2, seconds % 3600 / 60)
  }

  lemma TwoHere(s: Text, i: nat, x: int)
    requires 0 <= x < 100 && At(s, i, D2(x))
    ensures NumberAt(s, i, 2, x)
  {
    AtIndex(s, i, D2(x), 0);
    AtIndex(s, i, D2(x), 1);
    assert NumberAt(s, i, 0, x / 10 / 10);
    assert NumberAt(s, i, 1, x / 10);
  }

  lemma TwoAndByte(s: Text, i: nat, x: int, c: Byte)
    requires 0 <= x < 100 && At(s, i, D2(x) + [c])
    ensures NumberAt(s, i, 2, x) && ByteAt(s, i + 2, c)
  {
    AtAppend(s, i, D2(x), [c]);
    TwoHere(s, i, x);
    AtOne(s, i + 2, c);
  }

  /** Two more digits. */
  lemma TwoMore(s: Text, i: nat, n: nat, x: int)
    requires x >= 0 && NumberAt(s, i, n, x / 100) && At(s, i + n, D2(x % 100))
    ensures NumberAt(s, i, n + 2, x)
  {
    hide NumberAt;
    AtIndex(s, i + n, D2(x % 100), 0);
    AtIndex(s, i + n, D2(x % 100), 1);
    Hundred(x);
    OneMore(s, i, n, x / 10);
    OneMore(s, i, n + 1, x);
  }

  lemma OneMore(s: Text, i: nat, n: nat, x: int)
    requires x >= 0 && NumberAt(s, i, n, x / 10) && i + n < |s| && s[i + n] == 0x30 + x % 10
    ensures NumberAt(s, i, n + 1, x)
  {}

  lemma Hundred(x: int)
    requires x >= 0
    ensures x % 100 % 10 == x % 10 && x % 100 / 10 == x / 10 % 10 && x / 10 / 10 == x / 100
  {}

  lemma ThreeHere(s: Text, i: nat, x: int)
    requires 0 <= x < 1000 && At(s, i, D3(x))
    ensures NumberAt(s, i, 3, x)
  {
    AtAppend(s, i, [0x30 + x / 100], D2(x % 100));
    AtOne(s, i, 0x30 + x / 100);
    assert NumberAt(s, i, 0, x / 100 / 10);
    assert NumberAt(s, i, 1, x / 100);
    TwoMore(s, i, 1, x);
  }

  lemma FourHere(s: Text, i: nat, x: int)
    requires 0 <= x < 10_000 && At(s, i, D4(x))
    ensures NumberAt(s, i, 4, x)
  {
    D2Length(x / 100);
    hide D2, NumberAt;
    AtAppend(s, i, D2(x / 100), D2(x % 100));
    TwoHere(s, i, x / 100);
    TwoMore(s, i, 2, x);
  }

  lemma TenThousand(x: int)
    requires x >= 0
    ensures x % 10_000 / 100 == x / 100 % 100 && x / 100 / 100 == x / 10_000 && x % 10_000 % 100 == x % 100
  {
    var a, b, c := x / 10_000, x / 100 % 100, x % 100;
    assert x / 100 == 100 * (x / 100 / 100) + b && x == 100 * (x / 100) + c;
    assert x == 10_000 * (x / 100 / 100) + 100 * b + c;
  }

  lemma SixHere(s: Text, i: nat, x: int)
    requires 0 <= x < 1_000_000 && At(s, i, D6(x))
    ensures NumberAt(s, i, 6, x)
  {
    var y := x % 10_000;
    D2Length(x / 10_000);
    D2Length(y / 100);
    hide D2, NumberAt, At;
    AtAppend(s, i, D2(x / 10_000), D4(y));
    AtAppend(s, i + 2, D2(y / 100), D2(y % 100));
    TenThousand(x);
    TwoHere(s, i, x / 10_000);
    TwoMore(s, i, 2, x / 100);
    TwoMore(s, i, 4, x);
  }

  /** Four digits from 0 to 9999, else a sign and six digits. */
  predicate YearAt(s: Text, year: int) {
    if 0 <= year <= 9999 then NumberAt(s, 0, 4, year)
    else ByteAt(s, 0, if year < 0 then 0x2d else 0x2b) && NumberAt(s, 1, 6, if year < 0 then -year else year)
  }

  lemma YearHere(s: Text, year: int)
    requires -999_999 <= year <= 999_999
    requires At(s, 0, YearSign(year)) && At(s, |YearSign(year)|, YearDigits(year))
    ensures YearAt(s, year) && |YearSign(year)| + |YearDigits(year)| == if 0 <= year <= 9999 then 4 else 7
  {
    hide D4, D6, NumberAt;
    if 0 <= year <= 9999 {
      NumberD4(0, year);
      FourHere(s, 0, year);
    } else {
      var a := if year < 0 then -year else year;
      NumberD6(a);
      SixHere(s, 1, a);
      AtOne(s, 0, YearSign(year)[0]);
    }
  }

  lemma ZoneHere(s: Text, z: nat, tz: Option<int>)
    requires ZoneRange(tz) && At(s, z, Zone(tz)) && |s| == z + |Zone(tz)|
    ensures ZoneAt(s, z, tz)
  {
    if tz.None? {
      AtOne(s, z, UC_Z);
    } else {
      var o := tz.value;
      var seconds, m := if o < 0 then -o else o, Minutes(o);
      D2Length(m / 60);
      D2Length(m % 60);
      hide D2, NumberAt, At;
      AtAppend(s, z, [ZoneSign(o)] + (D2(m / 60) + [COLON]), D2(m % 60));
      AtAppend(s, z, [ZoneSign(o)], D2(m / 60) + [COLON]);
      AtOne(s, z, ZoneSign(o));
      TwoAndByte(s, z + 1, m / 60, COLON);
      TwoHere(s, z + 4, m % 60);
      Sixty(seconds);
    }
  }

  lemma Sixty(n: nat)
    ensures n / 60 / 60 == n / 3600 && n / 60 % 60 == n % 3600 / 60
  {}

  lemma FieldsHere(s: Text, r: nat, p: Parts, sep: Byte)
    requires Printable(p) && ByteAt(s, r, MINUS)
    requires At(s, r + 1, D2(p.month + 1) + [MINUS]) && At(s, r + 4, D2(p.day + 1) + [sep])
    requires At(s, r + 7, D2(p.hour) + [COLON]) && At(s, r + 10, D2(p.minute) + [COLON])
    requires At(s, r + 13, D2(p.second) + [PERIOD]) && At(s, r + 16, D3(p.millisecond))
    ensures FieldsAt(s, r, p, sep)
  {
    hide At, D2, D3, NumberAt;
    TwoAndByte(s, r + 1, p.month + 1, MINUS);
    TwoAndByte(s, r + 4, p.day + 1, sep);
    TwoAndByte(s, r + 7, p.hour, COLON);
    TwoAndByte(s, r + 10, p.minute, COLON);
    TwoAndByte(s, r + 13, p.second, PERIOD);
    ThreeHere(s, r + 16, p.millisecond);
  }

  /** Every formatted text: 24 bytes in UTC for a year from 0 to 9999, 27 for other years, five more with an offset. */
  lemma FormatLayout(p: Parts, sepT: bool, tz: Option<int>)
    requires Printable(p) && ZoneRange(tz)
    ensures var s, y := Format(p, sepT, tz), if 0 <= p.year <= 9999 then 4 else 7;
            && |s| == y + (if tz.None? then 20 else 25)
            && YearAt(s, p.year) && FieldsAt(s, y, p, if sepT then 0x54 else 0x20) && ZoneAt(s, y + 19, tz)
  {
    hide At, D2, D3, YearDigits, YearSign, Zone, Format, FieldsAt, ZoneAt, YearAt;
    var s, y, r := Format(p, sepT, tz), |YearSign(p.year)|, |YearSign(p.year)| + |YearDigits(p.year)|;
    FormatParts(p, sepT, tz);
    StartsSigned(p, sepT, tz);
    AtAppend(s, y, YearDigits(p.year), [MINUS]);
    AtOne(s, r, MINUS);
    YearHere(s, p.year);
    AtAppend(s, r + 16, D3(p.millisecond), Zone(tz));
    D3Length(p.millisecond);
    FieldsHere(s, r, p, DateEnd(sepT));
    ZoneHere(s, r + 19, tz);
    ZoneLength(s, r + 19, tz);
  }

  lemma ZoneLength(s: Text, z: nat, tz: Option<int>)
    requires ZoneAt(s, z, tz)
    ensures |s| == z + if tz.None? then 1 else 6
  {
    hide NumberAt;
  }

  lemma StartsSigned(p: Parts, sepT: bool, tz: Option<int>)
    requires Printable(p) && ZoneRange(tz)
    ensures At(Format(p, sepT, tz), 0, YearSign(p.year))
  {
    hide YearDigits, YearSign, D2, D3, Zone;
    var a, b, c, d := YearSign(p.year), YearDigits(p.year) + [MINUS], D2(p.month + 1) + [MINUS], D2(p.day + 1) + [DateEnd(sepT)];
    var e, f, g, h := D2(p.hour) + [COLON], D2(p.minute) + [COLON], D2(p.second) + [PERIOD], D3(p.millisecond) + Zone(tz);
    var s := Format(p, sepT, tz);
    assert s == a + b + c + d + e + f + g + h;
    assert At(s, 0, s);
    AtAppend(s, 0, a + b + c + d + e + f + g, h);
    AtAppend(s, 0, a + b + c + d + e + f, g);
    AtAppend(s, 0, a + b + c + d + e, f);
    AtAppend(s, 0, a + b + c + d, e);
    AtAppend(s, 0, a + b + c, d);
    AtAppend(s, 0, a + b, c);
    AtAppend(s, 0, a, b);
  }

  // ----- What the parser reads besides -----

  /** What may follow each part, and the part that comes next. */
  lemma FollowSets(part: nat, ch: Byte)
    requires part <= TZMINUTE
    ensures Transition(part, ch).Some?
            <==> ch == 0x00 || ch in [[0x2d, 0x54, 0x20, 0x2b, 0x5a], [0x2d, 0x54, 0x20, 0x2b, 0x5a], [0x54, 0x20, 0x2b, 0x2d, 0x5a],
                                      [0x3a, 0x2b, 0x2d, 0x5a], [0x3a, 0x2b, 0x2d, 0x5a], [0x2e, 0x2b, 0x2d, 0x5a],
                                      [0x2b, 0x2d, 0x5a], [0x3a], []][part]
    ensures var t := Transition(part, ch);
            t.Some? ==>
              t.value == if ch == 0x00 then Accept
                         else if ch == 0x5a then AcceptAtEnd
                         else if ch == 0x54 || ch == 0x20 then Go(3)
                         else if ch == 0x2b then Go(7)
                         else if ch == 0x2d && part >= 2 then GoNegative(7)
                         else Go(part + 1)
  {}

  lemma NumberDigit(accum: int, k: nat)
    requires k < 10
    ensures Number(accum, [0x30 + k]) == 10 * accum + k
  {
    assert [0x30 + k][1..] == [];
    assert Number(accum, [0x30 + k]) == Number(accum * 10 + k, []);
  }

  /** Of a fraction of a second the first three digits count, and missing ones are zeros. */
  lemma {:induction false} FractionDigits(s: Text, p: nat, st: State, t: Text)
    requires Proper(st) && st.part == 6 && st.accum == 0 && st.ndigits == 0 && t != [] && Digits(t) && At(s, p, t)
    ensures var end := State(6, Number(0, if |t| < 3 then t else t[..3]), if |t| < 3 then |t| else 3, st.parts, st.negative);
            Run(s, p, st) == Run(s, p + |t|, end) && Completed(end) == Number(0, (t + [0x30, 0x30])[..3])
  {
    if |t| <= 3 {
      DigitsRun(s, p, st, t);
      assert |t| == 3 ==> t[..3] == t;
      Padded(t);
    } else {
      TakeDrop(t, 3);
      AtAppend(s, p, t[..3], t[3..]);
      DigitsRun(s, p, st, t[..3]);
      IgnoredRun(s, p + 3, st.(accum := Number(0, t[..3]), ndigits := 3), t[3..]);
      assert (t + [0x30, 0x30])[..3] == t[..3];
    }
  }

  lemma Padded(t: Text)
    requires 1 <= |t| <= 3
    ensures Number(0, (t + [0x30, 0x30])[..3]) == Number(0, t) * (if |t| == 1 then 100 else if |t| == 2 then 10 else 1)
  {
    var n := Number(0, t);
    NumberDigit(n, 0);
    NumberDigit(10 * n, 0);
    if |t| == 1 {
      assert (t + [0x30, 0x30])[..3] == t + [0x30] + [0x30];
      NumberAppend(0, t, [0x30]);
      NumberAppend(0, t + [0x30], [0x30]);
    } else if |t| == 2 {
      assert (t + [0x30, 0x30])[..3] == t + [0x30];
      NumberAppend(0, t, [0x30]);
    } else {
      assert (t + [0x30, 0x30])[..3] == t;
    }
  }

  lemma {:induction false} IgnoredRun(s: Text, p: nat, st: State, t: Text)
    requires Proper(st) && st.part == 6 && st.ndigits == 3 && Digits(t) && At(s, p, t)
    ensures Run(s, p, st) == Run(s, p + |t|, st)
    decreases |t|
  {
    hide Run;
    if t != [] {
      AtIndex(s, p, t, 0);
      DigitStep(s, p, st);
      Cons(t);
      AtAppend(s, p, [t[0]], t[1..]);
      IgnoredRun(s, p + 1, st, t[1..]);
    }
  }

  predicate FieldText(t: Text) {
    1 <= |t| <= 6 && Digits(t)
  }

  /** A date without a time is midnight in UTC; missing months and days are the first. */
  lemma DateOnly(y: Text, m: Text, d: Text)
    requires FieldText(y) && FieldText(m) && FieldText(d)
    ensures Parse(y) == Some(TimeFromParts(Parts(Number(0, y), 0, 0, 0, 0, 0, 0, 0)))
    ensures Parse(y + [0x2d] + m) == Some(TimeFromParts(Parts(Number(0, y), Number(0, m) - 1, 0, 0, 0, 0, 0, 0)))
    ensures Parse(y + [0x2d] + m + [0x2d] + d)
            == Some(TimeFromParts(Parts(Number(0, y), Number(0, m) - 1, Number(0, d) - 1, 0, 0, 0, 0, 0)))
  {
    hide TimeFromParts, Run, Number, At, Transition;
    YearOnly(y);
    YearMonth(y, m);
    YearMonthDay(y, m, d);
  }

  lemma WholeAt(s: Text)
    ensures At(s, 0, s)
  {}

  /** A text that begins with a digit, and ends with no time read. */
  lemma Concluded(s: Text, part: nat, y: int, m: int, d: int)
    requires s != [] && IsDigit(s[0]) && part <= DAY
    requires Run(s, 0, START) == Some(State(part, 0, 0, [y, m, d, 0, 0, 0, 0, 0, 0], false))
    ensures Parse(s) == Some(TimeFromParts(Parts(y, m - 1, d - 1, 0, 0, 0, 0, 0)))
  {
    hide TimeFromParts, Run;
  }

  lemma YearOnly(y: Text)
    requires FieldText(y)
    ensures Parse(y) == Some(TimeFromParts(Parts(Number(0, y), 0, 0, 0, 0, 0, 0, 0)))
  {
    var a := Number(0, y);
    WholeAt(y);
    Identity(y);
    assert IsDigit(y[0]);
    hide Run, At, Number, TimeFromParts, Transition, Digits, IsDigit, Parse;
    LastField(y, 0, START, y, [], a);
    assert START.parts[YEAR := a] == [a, 1, 1, 0, 0, 0, 0, 0, 0];
    Concluded(y, YEAR, a, 1, 1);
  }

  lemma Dashes()
    ensures Transition(YEAR, 0x2d) == Some(Go(MONTH)) && Transition(MONTH, 0x2d) == Some(Go(DAY))
  {}

  lemma YearThenMonth(s: Text, y: Text)
    requires FieldText(y) && At(s, 0, y + [0x2d])
    ensures |y| + 1 <= |s| && s[0] == y[0] && IsDigit(y[0])
    ensures Run(s, 0, START) == Run(s, |y| + 1, State(MONTH, 0, 0, [Number(0, y), 1, 1, 0, 0, 0, 0, 0, 0], false))
  {
    AtBound(s, 0, y + [0x2d]);
    AtIndex(s, 0, y + [0x2d], 0);
    assert IsDigit(y[0]);
    Dashes();
    hide Run, At, Number, Transition, Digits;
    Field(s, 0, START, y, 0x2d, Number(0, y));
    assert START.parts[YEAR := Number(0, y)] == [Number(0, y), 1, 1, 0, 0, 0, 0, 0, 0];
  }

  lemma MonthThenDay(s: Text, q: nat, a: int, m: Text)
    requires FieldText(m) && At(s, q, m + [0x2d])
    ensures q + |m| + 1 <= |s|
    ensures Run(s, q, State(MONTH, 0, 0, [a, 1, 1, 0, 0, 0, 0, 0, 0], false))
            == Run(s, q + |m| + 1, State(DAY, 0, 0, [a, Number(0, m), 1, 0, 0, 0, 0, 0, 0], false))
  {
    AtBound(s, q, m + [0x2d]);
    Dashes();
    hide Run, At, Number, Transition, Digits;
    var parts := [a, 1, 1, 0, 0, 0, 0, 0, 0];
    Field(s, q, State(MONTH, 0, 0, parts, false), m, 0x2d, Number(0, m));
    assert parts[MONTH := Number(0, m)] == [a, Number(0, m), 1, 0, 0, 0, 0, 0, 0];
  }

  /** A month or a day that ends the text. */
  lemma LastOfDate(s: Text, q: nat, part: nat, a: int, b: int, t: Text)
    requires FieldText(t) && At(s, q, t) && q + |t| == |s| && (part == MONTH || part == DAY)
    ensures Run(s, q, State(part, 0, 0, [a, b, 1, 0, 0, 0, 0, 0, 0], false))
            == Some(State(part, 0, 0, [a, b, 1, 0, 0, 0, 0, 0, 0][part := Number(0, t)], false))
  {
    Identity(t);
    hide Run, At, Number, Digits;
    LastField(s, q, State(part, 0, 0, [a, b, 1, 0, 0, 0, 0, 0, 0], false), t, [], Number(0, t));
  }

  lemma YearMonth(y: Text, m: Text)
    requires FieldText(y) && FieldText(m)
    ensures Parse(y + [0x2d] + m) == Some(TimeFromParts(Parts(Number(0, y), Number(0, m) - 1, 0, 0, 0, 0, 0, 0)))
  {
    hide Run, Number, TimeFromParts, Digits, Parse, FieldText;
    var s, a, b := y + [0x2d] + m, Number(0, y), Number(0, m);
    AppendSplit(y + [0x2d], m);
    YearThenMonth(s, y);
    LastOfDate(s, |y| + 1, MONTH, a, 1, m);
    assert [a, 1, 1, 0, 0, 0, 0, 0, 0][MONTH := b] == [a, b, 1, 0, 0, 0, 0, 0, 0];
    Concluded(s, MONTH, a, b, 1);
  }

  lemma YearMonthDay(y: Text, m: Text, d: Text)
    requires FieldText(y) && FieldText(m) && FieldText(d)
    ensures Parse(y + [0x2d] + m + [0x2d] + d)
            == Some(TimeFromParts(Parts(Number(0, y), Number(0, m) - 1, Number(0, d) - 1, 0, 0, 0, 0, 0)))
  {
    hide Run, Number, TimeFromParts, Digits, Parse, FieldText;
    var s, a, b, c := y + [0x2d] + m + [0x2d] + d, Number(0, y), Number(0, m), Number(0, d);
    WholeAt(s);
    AtAppend(s, 0, y + [0x2d] + m + [0x2d], d);
    assert y + [0x2d] + m + [0x2d] == y + [0x2d] + (m + [0x2d]);
    AtAppend(s, 0, y + [0x2d], m + [0x2d]);
    hide At;
    YearThenMonth(s, y);
    MonthThenDay(s, |y| + 1, a, m);
    LastOfDate(s, |y| + |m| + 2, DAY, a, b, d);
    assert [a, b, 1, 0, 0, 0, 0, 0, 0][DAY := c] == [a, b, c, 0, 0, 0, 0, 0, 0];
    Concluded(s, DAY, a, b, c);
  }
}
