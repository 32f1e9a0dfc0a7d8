/** The ISO 8601 parser and formatter of duk_bi_date.c. */
module DateIso {
  import opened Bytes
  import opened Seqs
  import opened DateCalendar
  import opened DateParts

  type Text = seq<Byte>

  const YEAR: nat := 0
  const MONTH: nat := 1
  const DAY: nat := 2
  const HOUR: nat := 3
  const MINUTE: nat := 4
  const SECOND: nat := 5
  const MILLISECOND: nat := 6
  const TZHOUR: nat := 7
  const TZMINUTE: nat := 8

  const PLUS: Byte := 0x2b
  const MINUS: Byte := 0x2d
  const UC_T: Byte := 0x54
  const SPACE: Byte := 0x20
  const COLON: Byte := 0x3a
  const PERIOD: Byte := 0x2e
  const UC_Z: Byte := 0x5a
  const NUL: Byte := 0x00

  const SEPS: Text := [PLUS, MINUS, UC_T, SPACE, COLON, PERIOD, UC_Z, NUL]

  // ----- The rule table -----

  datatype Action = Go(next: nat) | GoNegative(next: nat) | Accept | AcceptAtEnd

  /** Part and separator masks are sets of indices. */
  datatype Rule = Rule(parts: set<nat>, seps: set<nat>, action: Action)

  const RULES: seq<Rule> := [
    Rule({YEAR}, {1}, Go(MONTH)),
    Rule({MONTH}, {1}, Go(DAY)),
    Rule({YEAR, MONTH, DAY}, {2, 3}, Go(HOUR)),
    Rule({HOUR}, {4}, Go(MINUTE)),
    Rule({MINUTE}, {4}, Go(SECOND)),
    Rule({SECOND}, {5}, Go(MILLISECOND)),
    Rule({TZHOUR}, {4}, Go(TZMINUTE)),
    Rule({YEAR, MONTH, DAY, HOUR, MINUTE, SECOND, MILLISECOND}, {0}, Go(TZHOUR)),
    Rule({YEAR, MONTH, DAY, HOUR, MINUTE, SECOND, MILLISECOND}, {1}, GoNegative(TZHOUR)),
    Rule({YEAR, MONTH, DAY, HOUR, MINUTE, SECOND, MILLISECOND}, {6}, AcceptAtEnd),
    Rule({YEAR, MONTH, DAY, HOUR, MINUTE, SECOND, MILLISECOND, TZHOUR, TZMINUTE}, {7}, Accept)]

  /** What may follow each part: the grammar that the table encodes. */
  function Transition(part: nat, ch: Byte): (r: Option<Action>) {
    if part > TZMINUTE then None
    else if ch == NUL then Some(Accept)
    else if ch == COLON then
      (if part == HOUR || part == MINUTE || part == TZHOUR then Some(Go(part + 1)) else None)
    else if part > MILLISECOND then None
    else if ch == PLUS then Some(Go(TZHOUR))
    else if ch == UC_Z then Some(AcceptAtEnd)
    else if ch == MINUS then Some(if part <= MONTH then Go(part + 1) else GoNegative(TZHOUR))
    else if ch == UC_T || ch == SPACE then (if part <= DAY then Some(Go(HOUR)) else None)
    else if ch == PERIOD then (if part == SECOND then Some(Go(MILLISECOND)) else None)
    else None
  }

  function FirstMatch(part: nat, sep: nat, i: nat): Option<Action>
    requires i <= |RULES|
    decreases |RULES| - i
  {
    if i == |RULES| then None
    else if part in RULES[i].parts && sep in RULES[i].seps then Some(RULES[i].action)
    else FirstMatch(part, sep, i + 1)
  }

  /** The separator by linear search, then the first rule that matches. */
  method FindAction(part: nat, ch: Byte) returns (r: Option<Action>)
    requires part <= TZMINUTE
    ensures r == Transition(part, ch)
  {
    var i := 0;
    while i < |SEPS|
      invariant 0 <= i <= |SEPS| && ch !in SEPS[..i]
    {
      if SEPS[i] == ch { break; }
      i := i + 1;
    }
    if i == |SEPS| {
      NoSeparator(part, ch);
      return None;
    }
    var sep := i;
    i := 0;
    while i < |RULES|
      invariant 0 <= i <= |RULES| && FirstMatch(part, sep, 0) == FirstMatch(part, sep, i)
    {
      if part in RULES[i].parts && sep in RULES[i].seps {
        TableIsGrammar(part, sep);
        return Some(RULES[i].action);
      }
      i := i + 1;
    }
    TableIsGrammar(part, sep);
    return None;
  }

  lemma NoSeparator(part: nat, ch: Byte)
    requires ch !in SEPS
    ensures Transition(part, ch) == None
  {
    assert SEPS[0] == PLUS && SEPS[1] == MINUS && SEPS[2] == UC_T && SEPS[3] == SPACE;
    assert SEPS[4] == COLON && SEPS[5] == PERIOD && SEPS[6] == UC_Z && SEPS[7] == NUL;
  }

  lemma {:induction false} TableIsGrammar(part: nat, sep: nat)
    requires part <= TZMINUTE && sep < |SEPS|
    ensures FirstMatch(part, sep, 0) == Transition(part, SEPS[sep])
  {
    DateRules(part, sep);
    TimeRules(part, sep);
    LastRules(part, sep);
    hide FirstMatch;
  }

  lemma {:induction false} DateRules(part: nat, sep: nat)
    ensures FirstMatch(part, sep, 0) ==
              if sep == 1 && part <= MONTH then Some(Go(part + 1))
              else if (sep == 2 || sep == 3) && part <= DAY then Some(Go(HOUR))
              else FirstMatch(part, sep, 3)
  {
    RuleStep(part, sep, 0);
    RuleStep(part, sep, 1);
    RuleStep(part, sep, 2);
    hide FirstMatch;
  }

  lemma {:induction false} TimeRules(part: nat, sep: nat)
    ensures FirstMatch(part, sep, 3) ==
              if sep == 4 && (part == HOUR || part == MINUTE || part == TZHOUR) then Some(Go(part + 1))
              else if sep == 5 && part == SECOND then Some(Go(MILLISECOND))
              else FirstMatch(part, sep, 7)
  {
    RuleStep(part, sep, 3);
    RuleStep(part, sep, 4);
    RuleStep(part, sep, 5);
    RuleStep(part, sep, 6);
    hide FirstMatch;
  }

  lemma {:induction false} LastRules(part: nat, sep: nat)
    requires part <= TZMINUTE
    ensures FirstMatch(part, sep, 7) ==
              if sep == 7 then Some(Accept)
              else if part > MILLISECOND then None
              else if sep == 0 then Some(Go(TZHOUR))
              else if sep == 1 then Some(GoNegative(TZHOUR))
              else if sep == 6 then Some(AcceptAtEnd)
              else None
  {
    RuleStep(part, sep, 7);
    RuleStep(part, sep, 8);
    RuleStep(part, sep, 9);
    RuleStep(part, sep, 10);
    RuleStep(part, sep, 11);
    hide FirstMatch;
  }

  lemma RuleStep(part: nat, sep: nat, i: nat)
    requires i <= |RULES|
    ensures FirstMatch(part, sep, i) ==
              if i == |RULES| then None
              else if part in RULES[i].parts && sep in RULES[i].seps then Some(RULES[i].action)
              else FirstMatch(part, sep, i + 1)
  {}

  // ----- The parser -----

  datatype State = State(part: nat, accum: int, ndigits: nat, parts: seq<int>, negative: bool)

  predicate Proper(st: State) {
    st.part <= TZMINUTE && |st.parts| == 9 && st.ndigits <= 9
  }

  /** A string ends with NUL. */
  function Char(s: Text, p: nat): Byte {
    if p < |s| then s[p] else NUL
  }

  predicate IsDigit(ch: Byte) {
    0x30 <= ch <= 0x39
  }

  /** Milliseconds are completed to three digits. */
  function Completed(st: State): int {
    if st.part != MILLISECOND || st.ndigits >= 3 then st.accum
    else if st.ndigits == 2 then st.accum * 10
    else if st.ndigits == 1 then st.accum * 100
    else st.accum * 1000
  }

  function Finished(st: State): State
    requires Proper(st)
  {
    st.(parts := st.parts[st.part := Completed(st)], accum := 0, ndigits := 0)
  }

  /** Reads from position p on; None is a rejection. */
  function Run(s: Text, p: nat, st: State): (r: Option<State>)
    requires Proper(st) && p <= |s|
    ensures r.Some? ==> Proper(r.value)
    decreases |s| - p
  {
    var ch := Char(s, p);
    if IsDigit(ch) then
      if st.ndigits >= 9 then None
      else if st.part == MILLISECOND && st.ndigits >= 3 then Run(s, p + 1, st)
      else Run(s, p + 1, st.(accum := st.accum * 10 + (ch as int - 0x30), ndigits := st.ndigits + 1))
    else if st.ndigits == 0 then None
    else
      var t := Transition(st.part, ch);
      if t.None? then None
      else
        match t.value
        case Accept => Some(Finished(st))
        case AcceptAtEnd => if Char(s, p + 1) == NUL then Some(Finished(st)) else None
        case Go(next) => Run(s, p + 1, Finished(st).(part := next))
        case GoNegative(next) => Run(s, p + 1, Finished(st).(part := next, negative := true))
  }

  const START: State := State(YEAR, 0, 0, [0, 1, 1, 0, 0, 0, 0, 0, 0], false)

  /** The time value that the parts stand for: the offset is applied to hours and minutes. */
  function Value(st: State, negYear: bool): Option<int>
    requires Proper(st)
  {
    var q := st.parts;
    var sign := if st.negative then 1 else -1;
    TimeFromParts(Parts(if negYear then -q[YEAR] else q[YEAR], q[MONTH] - 1, q[DAY] - 1,
                        q[HOUR] + sign * q[TZHOUR], q[MINUTE] + sign * q[TZMINUTE], q[SECOND], q[MILLISECOND], 0))
  }

  /** None if the text is rejected, Some(None) if it is accepted with a value out of range. */
  function Parse(s: Text): Option<Option<int>> {
    var sign := Char(s, 0) == PLUS || Char(s, 0) == MINUS;
    var r := Run(s, if sign then 1 else 0, START);
    if r.None? then None else Some(Value(r.value, Char(s, 0) == MINUS))
  }

  /** duk__parse_string_iso8601_subset */
  method ParseIso(s: Text) returns (r: Option<Option<int>>)
    ensures r == Parse(s)
  {
    hide Run, Value;
    var parts := new int[9](_ => 0);
    parts[MONTH], parts[DAY] := 1, 1;
    var negYear := false;
    var p := 0;
    if Char(s, 0) == PLUS {
      p := 1;
    } else if Char(s, 0) == MINUS {
      negYear := true;
      p := 1;
    }
    assert parts[..] == START.parts;
    var ok, negTz, st := Scan(s, p, parts);
    if !ok { return None; }
    var d := Conclude(parts, negYear, negTz, st);
    return Some(d);
  }

  /** The character loop. */
  method Scan(s: Text, start: nat, parts: array<int>) returns (ok: bool, negTz: bool, ghost st: State)
    requires start <= |s| && parts.Length == 9 && parts[..] == START.parts
    modifies parts
    ensures ok <==> Run(s, start, START).Some?
    ensures ok ==> Proper(st) && Run(s, start, START) == Some(st) && st.parts == parts[..] && st.negative == negTz
  {
    hide Run, Transition, Completed;
    ghost var result := Run(s, start, START);
    var p: nat, part: nat, accum, ndigits: nat := start, YEAR, 0, 0;
    st, negTz := START, false;
    while true
      invariant Proper(st) && p <= |s| && parts[..] == st.parts && st == State(part, accum, ndigits, st.parts, negTz)
      invariant Run(s, p, st) == result
      decreases |s| - p
    {
      var ch := Char(s, p);
      if 0x30 <= ch <= 0x39 {
        DigitStep(s, p, st);
        if ndigits >= 9 { return false, negTz, st; }
        if !(part == MILLISECOND && ndigits >= 3) {
          accum := accum * 10 + (ch as int) - 0x30;
          ndigits := ndigits + 1;
        }
        st := st.(accum := accum, ndigits := ndigits);
      } else {
        SeparatorStep(s, p, st);
        if ndigits <= 0 { return false, negTz, st; }
        var value := Complete(part, accum, ndigits);
        CompletedBy(st);
        parts[part] := value;
        st := Finished(st);
        accum, ndigits := 0, 0;
        var action := FindAction(part, ch);
        if action.None? { return false, negTz, st; }
        match action.value {
          case Accept => return true, negTz, st;
          case AcceptAtEnd => return Char(s, p + 1) == NUL, negTz, st;
          case Go(next) => part := next;
          case GoNegative(next) =>
            negTz := true;
            part := next;
        }
        st := st.(part := part, negative := negTz);
      }
      p := p + 1;
    }
  }

  /** Applies the signs and the offset, and makes month and day count from zero. */
  method Conclude(parts: array<int>, negYear: bool, negTz: bool, ghost st: State) returns (d: Option<int>)
    requires parts.Length == 9 && Proper(st) && st.parts == parts[..] && st.negative == negTz
    modifies parts
    ensures d == Value(st, negYear)
  {
    hide TimeFromParts;
    if negYear { parts[YEAR] := -parts[YEAR]; }
    if negTz {
      parts[HOUR] := parts[HOUR] + parts[TZHOUR];
      parts[MINUTE] := parts[MINUTE] + parts[TZMINUTE];
    } else {
      parts[HOUR] := parts[HOUR] - parts[TZHOUR];
      parts[MINUTE] := parts[MINUTE] - parts[TZMINUTE];
    }
    parts[MONTH] := parts[MONTH] - 1;
    parts[DAY] := parts[DAY] - 1;
    d := TimeFromDparts(Parts(parts[YEAR], parts[MONTH], parts[DAY], parts[HOUR], parts[MINUTE], parts[SECOND],
                              parts[MILLISECOND], 0), None);
  }

  method Complete(part: nat, accum0: int, ndigits0: nat) returns (accum: int)
    ensures accum == Completed(State(part, accum0, ndigits0, [], false))
  {
    accum := accum0;
    var ndigits := ndigits0;
    if part == MILLISECOND {
      while ndigits < 3
        invariant ndigits0 <= ndigits && (ndigits0 < 3 ==> ndigits <= 3) && (ndigits0 >= 3 ==> ndigits == ndigits0)
        invariant Completed(State(part, accum, ndigits, [], false)) == Completed(State(part, accum0, ndigits0, [], false))
      {
        accum := accum * 10;
        ndigits := ndigits + 1;
      }
    }
  }

  lemma CompletedBy(st: State)
    ensures Completed(st) == Completed(State(st.part, st.accum, st.ndigits, [], false))
  {}

  lemma DigitStep(s: Text, p: nat, st: State)
    requires Proper(st) && p <= |s| && IsDigit(Char(s, p))
    ensures p < |s|
    ensures st.ndigits >= 9 ==> Run(s, p, st) == None
    ensures st.ndigits < 9 ==>
              Run(s, p, st) == Run(s, p + 1, if st.part == MILLISECOND && st.ndigits >= 3 then st
                                             else st.(accum := st.accum * 10 + (Char(s, p) as int - 0x30), ndigits := st.ndigits + 1))
  {}

  lemma SeparatorStep(s: Text, p: nat, st: State)
    requires Proper(st) && p <= |s| && !IsDigit(Char(s, p))
    ensures st.ndigits == 0 || Transition(st.part, Char(s, p)).None? ==> Run(s, p, st) == None
    ensures var t := Transition(st.part, Char(s, p));
            st.ndigits > 0 && t.Some? ==>
              && (t.value == Accept ==> Run(s, p, st) == Some(Finished(st)))
              && (t.value == AcceptAtEnd ==> Run(s, p, st) == if Char(s, p + 1) == NUL then Some(Finished(st)) else None)
              && (t.value.Go? || t.value.GoNegative? ==>
                    p < |s| && t.value.next <= TZMINUTE
                    && Run(s, p, st) == Run(s, p + 1, Finished(st).(part := t.value.next, negative := st.negative || t.value.GoNegative?)))
  {}

  // ----- The formatter -----

  /** printf with %02d, %03d, %04d and %06d. */
  function D2(x: int): Text
    requires 0 <= x < 100
  {
    [0x30 + x / 10, 0x30 + x % 10]
  }

  function D3(x: int): Text
    requires 0 <= x < 1000
  {
    [0x30 + x / 100] + D2(x % 100)
  }

  function D4(x: int): Text
    requires 0 <= x < 10_000
  {
    D2(x / 100) + D2(x % 100)
  }

  function D6(x: int): Text
    requires 0 <= x < 1_000_000
  {
    D2(x / 10_000) + D4(x % 10_000)
  }

  function YearDigits(year: int): Text
    requires -999_999 <= year <= 999_999
  {
    if 0 <= year <= 9999 then D4(year) else if year >= 0 then D6(year) else D6(-year)
  }

  function YearSign(year: int): Text {
    if 0 <= year <= 9999 then [] else if year >= 0 then [PLUS] else [MINUS]
  }

  predicate ZoneRange(tz: Option<int>) {
    tz.Some? ==> -86_400 < tz.value < 86_400
  }

  function Minutes(tz: int): (m: nat)
    requires -86_400 < tz < 86_400
    ensures m < 1440
  {
    (if tz >= 0 then tz else -tz) / 60
  }

  function ZoneSign(tz: int): Byte {
    if tz >= 0 then PLUS else MINUS
  }

  /** The offset in whole minutes; its seconds are dropped. */
  function Zone(tz: Option<int>): Text
    requires ZoneRange(tz)
  {
    if tz.None? then [UC_Z]
    else
      var m := Minutes(tz.value);
      [ZoneSign(tz.value)] + (D2(m / 60) + [COLON]) + D2(m % 60)
  }

  predicate Printable(p: Parts) {
    && -999_999 <= p.year <= 999_999 && 0 <= p.month < 12 && 0 <= p.day < 31
    && 0 <= p.hour < 24 && 0 <= p.minute < 60 && 0 <= p.second < 60 && 0 <= p.millisecond < 1000
  }

  function DateEnd(sepT: bool): Byte {
    if sepT then UC_T else SPACE
  }

  /** duk__format_parts_iso8601 for date and time; tz is the offset of local time, in seconds. */
  function Format(p: Parts, sepT: bool, tz: Option<int>): Text
    requires Printable(p) && ZoneRange(tz)
  {
    YearSign(p.year) + (YearDigits(p.year) + [MINUS]) + (D2(p.month + 1) + [MINUS])
    + (D2(p.day + 1) + [DateEnd(sepT)])
    + (D2(p.hour) + [COLON]) + (D2(p.minute) + [COLON]) + (D2(p.second) + [PERIOD]) + (D3(p.millisecond) + Zone(tz))
  }

  // ----- Parsing what was formatted -----

  function Number(accum: int, t: Text): int
    decreases |t|
  {
    if t == [] then accum else Number(accum * 10 + (t[0] as int - 0x30), t[1..])
  }

  predicate Digits(t: Text) {
    forall i :: 0 <= i < |t| ==> IsDigit(t[i])
  }

  lemma {:induction false} NumberAppend(accum: int, t: Text, u: Text)
    ensures Number(accum, t + u) == Number(Number(accum, t), u)
    decreases |t|
  {
    if t == [] {
      Identity(u);
    } else {
      HeadTail(t, u);
      NumberAppend(accum * 10 + (t[0] as int - 0x30), t[1..], u);
    }
  }

  lemma {:induction false} NumberD2(accum: int, x: int)
    requires 0 <= x < 100
    ensures Digits(D2(x)) && Number(accum, D2(x)) == accum * 100 + x
  {
    var t := D2(x);
    assert t[1..][1..] == [];
    assert Number(accum, t) == Number(accum * 10 + x / 10, t[1..]);
  }

  lemma {:induction false} NumberD3(x: int)
    requires 0 <= x < 1000
    ensures Digits(D3(x)) && Number(0, D3(x)) == x
  {
    HeadTail([0x30 + x / 100], D2(x % 100));
    Identity(D2(x % 100));
    NumberD2(x / 100, x % 100);
  }

  lemma {:induction false} NumberD4(accum: int, x: int)
    requires 0 <= x < 10_000
    ensures |D4(x)| == 4 && Digits(D4(x)) && Number(accum, D4(x)) == accum * 10_000 + x
  {
    NumberAppend(accum, D2(x / 100), D2(x % 100));
    NumberD2(accum, x / 100);
    NumberD2(accum * 100 + x / 100, x % 100);
  }

  lemma {:induction false} NumberD6(x: int)
    requires 0 <= x < 1_000_000
    ensures |D6(x)| == 6 && Digits(D6(x)) && Number(0, D6(x)) == x
  {
    NumberAppend(0, D2(x / 10_000), D4(x % 10_000));
    NumberD2(0, x / 10_000);
    NumberD4(x / 10_000, x % 10_000);
  }

  lemma {:induction false} DigitsRun(s: Text, p: nat, st: State, t: Text)
    requires Proper(st) && At(s, p, t) && Digits(t) && st.ndigits + |t| <= 9 && (st.part == MILLISECOND ==> st.ndigits + |t| <= 3)
    ensures Run(s, p, st) == Run(s, p + |t|, st.(accum := Number(st.accum, t), ndigits := st.ndigits + |t|))
    decreases |t|
  {
    hide Run;
    if t != [] {
      AtIndex(s, p, t, 0);
      DigitStep(s, p, st);
      Cons(t);
      AtAppend(s, p, [t[0]], t[1..]);
      DigitsRun(s, p + 1, st.(accum := st.accum * 10 + (t[0] as int - 0x30), ndigits := st.ndigits + 1), t[1..]);
    }
  }

  /** A field and the separator that leads to the next one. */
  lemma {:induction false} Field(s: Text, p: nat, st: State, t: Text, sep: Byte, x: int)
    requires Proper(st) && st.accum == 0 && st.ndigits == 0 && t != [] && Digits(t) && Number(0, t) == x
    requires |t| <= 6 && (st.part == MILLISECOND ==> |t| == 3)
    requires At(s, p, t + [sep]) && !IsDigit(sep)
    requires var a := Transition(st.part, sep); a.Some? && (a.value.Go? || a.value.GoNegative?)
    ensures var a := Transition(st.part, sep).value;
            a.next <= TZMINUTE
            && Run(s, p, st) == Run(s, p + |t| + 1, State(a.next, 0, 0, st.parts[st.part := x], st.negative || a.GoNegative?))
  {
    hide Run, Transition;
    AtAppend(s, p, t, [sep]);
    DigitsRun(s, p, st, t);
    AtOne(s, p + |t|, sep);
    SeparatorStep(s, p + |t|, st.(accum := x, ndigits := |t|));
  }

  /** The last field, at the end of the text or before a final Z. */
  lemma {:induction false} LastField(s: Text, p: nat, st: State, t: Text, z: Text, x: int)
    requires Proper(st) && st.accum == 0 && st.ndigits == 0 && t != [] && Digits(t) && Number(0, t) == x
    requires |t| <= 6 && (st.part == MILLISECOND ==> |t| == 3)
    requires At(s, p, t + z) && p + |t| + |z| == |s| && (z == [] || (z == [UC_Z] && st.part <= MILLISECOND))
    ensures Run(s, p, st) == Some(State(st.part, 0, 0, st.parts[st.part := x], st.negative))
  {
    hide Run;
    AtAppend(s, p, t, z);
    DigitsRun(s, p, st, t);
    if z != [] { AtOne(s, p + |t|, UC_Z); }
    SeparatorStep(s, p + |t|, st.(accum := x, ndigits := |t|));
  }

  lemma AtEight(s: Text, a: Text, b: Text, c: Text, d: Text, e: Text, f: Text, g: Text, h: Text)
    requires s == a + b + c + d + e + f + g + h
    ensures At(s, |a|, b) && At(s, |a| + |b|, c) && At(s, |a| + |b| + |c|, d) && At(s, |a| + |b| + |c| + |d|, e)
    ensures At(s, |a| + |b| + |c| + |d| + |e|, f) && At(s, |a| + |b| + |c| + |d| + |e| + |f|, g)
    ensures At(s, |a| + |b| + |c| + |d| + |e| + |f| + |g|, h) && |s| == |a| + |b| + |c| + |d| + |e| + |f| + |g| + |h|
  {
    assert At(s, 0, s);
    AtAppend(s, 0, a + b + c + d + e + f + g, h);
    AtAppend(s, 0, a + b + c + d + e + f, g);
    AtAppend(s, 0, a + b + c + d + e, f);
    AtAppend(s, 0, a + b + c + d, e);
    AtAppend(s, 0, a + b + c, d);
    AtAppend(s, 0, a + b, c);
    AtAppend(s, 0, a, b);
  }

  /** The absolute value of the year is read back. */
  lemma {:induction false} YearNumber(year: int)
    requires -999_999 <= year <= 999_999
    ensures 4 <= |YearDigits(year)| <= 6 && Digits(YearDigits(year)) && Number(0, YearDigits(year)) == if year < 0 then -year else year
  {
    hide Digits, D4, D6;
    if 0 <= year <= 9999 { NumberD4(0, year); } else if year >= 0 { NumberD6(year); } else { NumberD6(-year); }
  }

  function AbsYear(p: Parts): int {
    if p.year < 0 then -p.year else p.year
  }

  /** A state at the start of a part. */
  function Fresh(part: nat, parts: seq<int>, negative: bool): State {
    State(part, 0, 0, parts, negative)
  }

  lemma {:induction false} YearField(s: Text, q: nat, p: Parts)
    requires Printable(p) && At(s, q, YearDigits(p.year) + [MINUS])
    ensures q + |YearDigits(p.year)| + 1 <= |s|
    ensures Run(s, q, START) == Run(s, q + |YearDigits(p.year)| + 1, Fresh(MONTH, [AbsYear(p), 1, 1, 0, 0, 0, 0, 0, 0], false))
  {
    AtBound(s, q, YearDigits(p.year) + [MINUS]);
    YearNumber(p.year);
    hide Run, At, Digits, Number, YearDigits;
    Field(s, q, START, YearDigits(p.year), MINUS, AbsYear(p));
    assert START.parts[YEAR := AbsYear(p)] == [AbsYear(p), 1, 1, 0, 0, 0, 0, 0, 0];
  }

  /** A field of two digits. */
  lemma {:induction false} TwoDigits(s: Text, q: nat, part: nat, parts: seq<int>, negative: bool, x: int, sep: Byte)
    requires part <= TZMINUTE && part != MILLISECOND && |parts| == 9 && 0 <= x < 100
    requires At(s, q, D2(x) + [sep]) && !IsDigit(sep)
    requires var a := Transition(part, sep); a.Some? && a.value.Go?
    ensures q + 3 <= |s| && Transition(part, sep).value.next <= TZMINUTE
    ensures Run(s, q, Fresh(part, parts, negative))
            == Run(s, q + 3, Fresh(Transition(part, sep).value.next, parts[part := x], negative))
  {
    AtBound(s, q, D2(x) + [sep]);
    NumberD2(0, x);
    hide Run, At, Digits, Number, Transition;
    Field(s, q, Fresh(part, parts, negative), D2(x), sep, x);
  }

  lemma AtBound(s: Text, p: nat, t: Text)
    requires At(s, p, t)
    ensures p + |t| <= |s|
  {}

  lemma {:induction false} DateFields(s: Text, p: Parts, q: nat, sep: Byte)
    requires Printable(p) && (sep == UC_T || sep == SPACE)
    requires At(s, q, YearDigits(p.year) + [MINUS])
    requires At(s, q + |YearDigits(p.year)| + 1, D2(p.month + 1) + [MINUS])
    requires At(s, q + |YearDigits(p.year)| + 4, D2(p.day + 1) + [sep])
    ensures q + |YearDigits(p.year)| + 7 <= |s|
    ensures Run(s, q, START)
            == Run(s, q + |YearDigits(p.year)| + 7, Fresh(HOUR, [AbsYear(p), p.month + 1, p.day + 1, 0, 0, 0, 0, 0, 0], false))
  {
    hide Run, At, YearDigits, D2, AbsYear;
    var y, r := AbsYear(p), q + |YearDigits(p.year)|;
    YearField(s, q, p);
    TwoDigits(s, r + 1, MONTH, [y, 1, 1, 0, 0, 0, 0, 0, 0], false, p.month + 1, MINUS);
    assert [y, 1, 1, 0, 0, 0, 0, 0, 0][MONTH := p.month + 1] == [y, p.month + 1, 1, 0, 0, 0, 0, 0, 0];
    TwoDigits(s, r + 4, DAY, [y, p.month + 1, 1, 0, 0, 0, 0, 0, 0], false, p.day + 1, sep);
    assert [y, p.month + 1, 1, 0, 0, 0, 0, 0, 0][DAY := p.day + 1] == [y, p.month + 1, p.day + 1, 0, 0, 0, 0, 0, 0];
  }

  lemma {:induction false} ClockFields(s: Text, p: Parts, q: nat, y: int, m: int, d: int)
    requires Printable(p)
    requires At(s, q, D2(p.hour) + [COLON]) && At(s, q + 3, D2(p.minute) + [COLON]) && At(s, q + 6, D2(p.second) + [PERIOD])
    ensures q + 9 <= |s|
    ensures Run(s, q, Fresh(HOUR, [y, m, d, 0, 0, 0, 0, 0, 0], false))
            == Run(s, q + 9, Fresh(MILLISECOND, [y, m, d, p.hour, p.minute, p.second, 0, 0, 0], false))
  {
    hide Run, At, D2;
    TwoDigits(s, q, HOUR, [y, m, d, 0, 0, 0, 0, 0, 0], false, p.hour, COLON);
    assert [y, m, d, 0, 0, 0, 0, 0, 0][HOUR := p.hour] == [y, m, d, p.hour, 0, 0, 0, 0, 0];
    TwoDigits(s, q + 3, MINUTE, [y, m, d, p.hour, 0, 0, 0, 0, 0], false, p.minute, COLON);
    assert [y, m, d, p.hour, 0, 0, 0, 0, 0][MINUTE := p.minute] == [y, m, d, p.hour, p.minute, 0, 0, 0, 0];
    TwoDigits(s, q + 6, SECOND, [y, m, d, p.hour, p.minute, 0, 0, 0, 0], false, p.second, PERIOD);
    assert [y, m, d, p.hour, p.minute, 0, 0, 0, 0][SECOND := p.second] == [y, m, d, p.hour, p.minute, p.second, 0, 0, 0];
  }

  /** Where the parts of a formatted text stand. */
  lemma {:induction false} FormatParts(p: Parts, sepT: bool, tz: Option<int>)
    requires Printable(p) && ZoneRange(tz)
    ensures var s, q := Format(p, sepT, tz), |YearSign(p.year)|;
            var r := q + |YearDigits(p.year)|;
            && At(s, q, YearDigits(p.year) + [MINUS]) && At(s, r + 1, D2(p.month + 1) + [MINUS])
            && At(s, r + 4, D2(p.day + 1) + [DateEnd(sepT)])
            && At(s, r + 7, D2(p.hour) + [COLON]) && At(s, r + 10, D2(p.minute) + [COLON])
            && At(s, r + 13, D2(p.second) + [PERIOD]) && At(s, r + 16, D3(p.millisecond) + Zone(tz))
            && |s| == r + 19 + |Zone(tz)|
  {
    hide At, Zone, YearDigits, YearSign, D2, D3;
    var sep := DateEnd(sepT);
    D3Length(p.millisecond);
    D2Length(p.month + 1);
    D2Length(p.day + 1);
    D2Length(p.hour);
    D2Length(p.minute);
    D2Length(p.second);
    AtEight(Format(p, sepT, tz), YearSign(p.year), YearDigits(p.year) + [MINUS], D2(p.month + 1) + [MINUS], D2(p.day + 1) + [sep],
      D2(p.hour) + [COLON], D2(p.minute) + [COLON], D2(p.second) + [PERIOD], D3(p.millisecond) + Zone(tz));
  }

  /** Up to the milliseconds. */
  lemma {:induction false} FieldsRun(p: Parts, sepT: bool, tz: Option<int>)
    requires Printable(p) && ZoneRange(tz)
    ensures var s := Format(p, sepT, tz);
            var q := |YearSign(p.year)| + |YearDigits(p.year)| + 16;
            && q <= |s| && At(s, q, D3(p.millisecond) + Zone(tz)) && |s| == q + 3 + |Zone(tz)|
            && Run(s, |YearSign(p.year)|, START) == Run(s, q, Before(p))
  {
    hide Run, At, Zone, YearDigits, YearSign, Format, D2, D3, AbsYear;
    var s, sep := Format(p, sepT, tz), DateEnd(sepT);
    FormatParts(p, sepT, tz);
    DateFields(s, p, |YearSign(p.year)|, sep);
    ClockFields(s, p, |YearSign(p.year)| + |YearDigits(p.year)| + 7, AbsYear(p), p.month + 1, p.day + 1);
  }

  /** What has been read before the milliseconds. */
  function Before(p: Parts): State {
    Fresh(MILLISECOND, [AbsYear(p), p.month + 1, p.day + 1, p.hour, p.minute, p.second, 0, 0, 0], false)
  }

  /** What has been read when a UTC time ends. */
  function AtEndUtc(p: Parts): State {
    Fresh(MILLISECOND, [AbsYear(p), p.month + 1, p.day + 1, p.hour, p.minute, p.second, p.millisecond, 0, 0], false)
  }

  lemma {:induction false} UtcRun(p: Parts, sepT: bool)
    requires Printable(p)
    ensures ZoneRange(None) && |YearSign(p.year)| <= |Format(p, sepT, None)|
    ensures Run(Format(p, sepT, None), |YearSign(p.year)|, START) == Some(AtEndUtc(p))
  {
    FieldsRun(p, sepT, None);
    hide Run, At, Digits, Number, D3, YearDigits, YearSign, Format;
    NumberD3(p.millisecond);
    D3Length(p.millisecond);
    LastField(Format(p, sepT, None), |YearSign(p.year)| + |YearDigits(p.year)| + 16, Before(p), D3(p.millisecond), [UC_Z], p.millisecond);
    assert Before(p).parts[MILLISECOND := p.millisecond] == AtEndUtc(p).parts;
  }

  lemma D3Length(x: int)
    requires 0 <= x < 1000
    ensures |D3(x)| == 3
  {}

  /** What has been read when a local time ends. */
  function AtEnd(p: Parts, tz: int): State
    requires -86_400 < tz < 86_400
  {
    var m := Minutes(tz);
    Fresh(TZMINUTE, [AbsYear(p), p.month + 1, p.day + 1, p.hour, p.minute, p.second, p.millisecond, m / 60, m % 60], tz < 0)
  }

  lemma {:induction false} LocalRun(p: Parts, sepT: bool, tz: int)
    requires Printable(p) && -86_400 < tz < 86_400
    ensures ZoneRange(Some(tz)) && |YearSign(p.year)| <= |Format(p, sepT, Some(tz))|
    ensures Run(Format(p, sepT, Some(tz)), |YearSign(p.year)|, START) == Some(AtEnd(p, tz))
  {
    hide Run, At, D2, D3, YearDigits, YearSign, Format, AtEnd;
    FieldsRun(p, sepT, Some(tz));
    ZoneRun(Format(p, sepT, Some(tz)), |YearSign(p.year)| + |YearDigits(p.year)| + 16, p, tz);
  }

  lemma {:induction false} ZoneRun(s: Text, q: nat, p: Parts, tz: int)
    requires Printable(p) && -86_400 < tz < 86_400 && At(s, q, D3(p.millisecond) + Zone(Some(tz))) && |s| == q + 3 + |Zone(Some(tz))|
    ensures Run(s, q, Before(p)) == Some(AtEnd(p, tz))
  {
    var m, ms, sign := Minutes(tz), p.millisecond, ZoneSign(tz);
    hide Run, At, D2, D3, AbsYear, Minutes, Zone;
    ZoneLayout(s, q, ms, tz);
    var parts := [AbsYear(p), p.month + 1, p.day + 1, p.hour, p.minute, p.second, ms, 0, 0];
    MillisecondField(s, q, p, sign);
    TwoDigits(s, q + 4, TZHOUR, parts, tz < 0, m / 60, COLON);
    LastTwo(s, q + 7, parts[TZHOUR := m / 60], tz < 0, m % 60);
    assert parts[TZHOUR := m / 60][TZMINUTE := m % 60] == AtEnd(p, tz).parts;
  }

  lemma {:induction false} ZoneLayout(s: Text, q: nat, ms: int, tz: int)
    requires 0 <= ms < 1000 && -86_400 < tz < 86_400 && At(s, q, D3(ms) + Zone(Some(tz))) && |s| == q + 3 + |Zone(Some(tz))|
    ensures At(s, q, D3(ms) + [ZoneSign(tz)]) && At(s, q + 4, D2(Minutes(tz) / 60) + [COLON]) && At(s, q + 7, D2(Minutes(tz) % 60))
    ensures |s| == q + 9
  {
    hide At, D2, D3, Minutes;
    var a, sign, b, c := D3(ms), ZoneSign(tz), D2(Minutes(tz) / 60) + [COLON], D2(Minutes(tz) % 60);
    D3Length(ms);
    D2Length(Minutes(tz) / 60);
    D2Length(Minutes(tz) % 60);
    ZoneParts(a, sign, b, c);
    AtAppend(s, q, a + [sign] + b, c);
    AtAppend(s, q, a + [sign], b);
  }

  lemma D2Length(x: int)
    requires 0 <= x < 100
    ensures |D2(x)| == 2
  {}

  lemma {:induction false} MillisecondField(s: Text, q: nat, p: Parts, sign: Byte)
    requires Printable(p) && (sign == PLUS || sign == MINUS) && At(s, q, D3(p.millisecond) + [sign])
    ensures q + 4 <= |s|
    ensures Run(s, q, Before(p)) == Run(s, q + 4, Fresh(TZHOUR, [AbsYear(p), p.month + 1, p.day + 1, p.hour, p.minute, p.second, p.millisecond, 0, 0], sign == MINUS))
  {
    AtBound(s, q, D3(p.millisecond) + [sign]);
    D3Length(p.millisecond);
    NumberD3(p.millisecond);
    hide Run, At, Digits, Number, D3;
    Field(s, q, Before(p), D3(p.millisecond), sign, p.millisecond);
    assert Before(p).parts[MILLISECOND := p.millisecond]
        == [AbsYear(p), p.month + 1, p.day + 1, p.hour, p.minute, p.second, p.millisecond, 0, 0];
  }

  lemma {:induction false} LastTwo(s: Text, q: nat, parts: seq<int>, negative: bool, x: int)
    requires |parts| == 9 && 0 <= x < 100 && At(s, q, D2(x)) && q + 2 == |s|
    ensures Run(s, q, Fresh(TZMINUTE, parts, negative)) == Some(Fresh(TZMINUTE, parts[TZMINUTE := x], negative))
  {
    NumberD2(0, x);
    hide Run, At, Digits, Number;
    Identity(D2(x));
    LastField(s, q, Fresh(TZMINUTE, parts, negative), D2(x), [], x);
  }

  lemma ZoneParts(a: Text, sign: Byte, b: Text, c: Text)
    ensures a + ([sign] + b + c) == a + [sign] + b + c
  {}

  /** The sign of the year is the first character, if there is one. */
  lemma SignRead(p: Parts, sepT: bool, tz: Option<int>)
    requires Printable(p) && ZoneRange(tz)
    ensures var c := Char(Format(p, sepT, tz), 0);
            && (c == PLUS || c == MINUS <==> YearSign(p.year) != []) && (c == MINUS <==> p.year < 0)
  {
    var s := Format(p, sepT, tz);
    hide Zone;
    var y := YearDigits(p.year);
    YearNumber(p.year);
    assert Char(s, 0) == if YearSign(p.year) != [] then YearSign(p.year)[0] else y[0];
    assert IsDigit(y[0]);
  }

  // ----- The main results -----

  lemma {:induction false} ParsedAs(p: Parts, sepT: bool, tz: Option<int>, st: State)
    requires Printable(p) && ZoneRange(tz) && Proper(st)
    requires |YearSign(p.year)| <= |Format(p, sepT, tz)| && Run(Format(p, sepT, tz), |YearSign(p.year)|, START) == Some(st)
    ensures Parse(Format(p, sepT, tz)) == Some(Value(st, p.year < 0))
  {
    SignRead(p, sepT, tz);
    hide Run, Format, Printable, Value;
  }

  lemma Sane(p: Parts)
    requires ValidParts(p) && MIN_YEAR <= p.year <= MAX_YEAR
    ensures Printable(p)
  {}

  /** Formatting a time value in UTC and parsing the text gives the time value back. */
  lemma {:induction false} ParseFormatUtc(d: int, p: Parts, sepT: bool)
    requires InRange(d) && ValidParts(p) && TimeOf(p) == d
    ensures Printable(p) && Parse(Format(p, sepT, None)) == Some(Some(d))
  {
    hide *;
    WithinLeeway(d);
    YearRange(d, p);
    Sane(p);
    UtcRun(p, sepT);
    ValueUtc(p);
    ParsedAs(p, sepT, None, AtEndUtc(p));
    RebuildSplit(d, p);
  }

  lemma WithinLeeway(d: int)
    requires InRange(d)
    ensures InLeeway(d)
  {}

  lemma ValueUtc(p: Parts)
    ensures Proper(AtEndUtc(p)) && Value(AtEndUtc(p), p.year < 0) == TimeFromParts(p)
  {
    hide MakeDaySpec;
  }

  /** The parser applies the offset that the text carries. */
  lemma {:induction false} ValueLocal(p: Parts, tz: int)
    requires -86_400 < tz < 86_400 && MakeDaySpec(p.year, p.month, p.day).Some?
    ensures Proper(AtEnd(p, tz))
    ensures var day := MakeDaySpec(p.year, p.month, p.day).value;
            Value(AtEnd(p, tz), p.year < 0) == Clip(day * MSEC_DAY + TimeInDay(p) + 1000 * (CMod(tz, 60) - tz))
  {
    hide MakeDaySpec;
    var m: int := Minutes(tz);
    assert CMod(tz, 60) - tz == if tz < 0 then 60 * m else -60 * m;
    assert m == 60 * (m / 60) + m % 60;
  }

  lemma LocalDay(p: Parts)
    requires ValidParts(p) && MIN_YEAR <= p.year <= MAX_YEAR
    ensures MakeDaySpec(p.year, p.month, p.day) == Some(DayNumber(p.year, p.month, p.day))
    ensures TimeOf(p) == DayNumber(p.year, p.month, p.day) * MSEC_DAY + TimeInDay(p)
  {
    MonthInYear(p.month);
    hide MonthStart, IsLeap, DayFromYear, WeekDay, MonthLength;
  }

  /**
   * In local time the seconds of the offset are dropped, and come back as a shift of the time value.
   * p are the parts of the local time d + 1000 * tz.
   */
  lemma {:induction false} ParseFormatLocal(d: int, tz: int, p: Parts, sepT: bool)
    requires InRange(d) && -86_400 < tz < 86_400 && ValidParts(p) && TimeOf(p) == d + 1000 * tz
    ensures Printable(p) && Parse(Format(p, sepT, Some(tz))) == Some(Clip(d + 1000 * CMod(tz, 60)))
  {
    hide *;
    LocalLeeway(d, tz);
    YearRange(d + 1000 * tz, p);
    Sane(p);
    LocalDay(p);
    LocalRun(p, sepT, tz);
    ValueLocal(p, tz);
    ParsedAs(p, sepT, Some(tz), AtEnd(p, tz));
  }

  lemma LocalLeeway(d: int, tz: int)
    requires InRange(d) && -86_400 < tz < 86_400
    ensures InLeeway(d + 1000 * tz) && ZoneRange(Some(tz))
  {}

  /** So the round trip in local time is exact if and only if the offset is a whole number of minutes. */
  lemma {:induction false} LocalExact(d: int, tz: int, p: Parts, sepT: bool)
    requires InRange(d) && -86_400 < tz < 86_400 && ValidParts(p) && TimeOf(p) == d + 1000 * tz
    ensures Printable(p) && (Parse(Format(p, sepT, Some(tz))) == Some(Some(d)) <==> tz % 60 == 0)
  {
    hide *;
    LocalLeeway(d, tz);
    ParseFormatLocal(d, tz, p, sepT);
    Shift(d, tz);
  }

  lemma Shift(d: int, tz: int)
    requires InRange(d)
    ensures Clip(d + 1000 * CMod(tz, 60)) == Some(d) <==> tz % 60 == 0
  {}
}
