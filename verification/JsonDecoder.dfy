/** The JSON parser of duk_bi_json.c in its own form: a cursor and a recursion counter that methods move. */
module JsonDecoder {
  import opened Bytes
  import opened Seqs
  import opened JsonTree
  import opened JsonParse
  import Xutf8

  /** A value, or the error thrown. */
  datatype Outcome<+T> = Value(value: T) | Thrown(error: Error)

  datatype Begin = Closed(next: nat) | Quoted(next: nat) | Rejected

  class Decoder {
    const s: Text      // the input, with its NUL at p_end == |s| - 1
    const limit: nat   // recursion_limit
    var p: nat
    var depth: nat     // recursion_depth

    /** The cursor is at most at the NUL. */
    predicate Valid()
      reads this
    {
      Terminated(s) && p < |s| && depth <= limit
    }

    /** The outcome and the new state are what the parser function says; depth d is restored. */
    ghost predicate Agrees<T>(r: Outcome<T>, spec: Result<T>, d: nat)
      reads this
    {
      match spec
      case Ok(v, n) => r == Value(v) && p == n && depth == d
      case Fail(e) => r == Thrown(e)
    }

    constructor (text: Text, limit: nat)
      ensures Valid() && s == text + [0] && this.limit == limit && p == 0 && depth == 0
    {
      s := text + [0];
      this.limit := limit;
      p := 0;
      depth := 0;
    }

    /** duk__dec_eat_white. */
    method EatWhite()
      requires Valid()
      modifies this`p
      ensures p == SkipWhite(s, old(p))
    {
      var q := p;
      while White(s[q])
        invariant p <= q < |s| && SkipWhite(s, p) == SkipWhite(s, q)
        decreases |s| - q
      {
        q := q + 1;
      }
      p := q;
    }

    /** duk__dec_get: the only way the cursor passes the NUL, after which no method may read. */
    method Get() returns (x: Byte)
      requires p < |s|
      modifies this`p
      ensures x == s[old(p)] && p == old(p) + 1
    {
      x := s[p];
      p := p + 1;
    }

    method GetNonwhite() returns (x: Byte)
      requires Valid()
      modifies this`p
      ensures p == SkipWhite(s, old(p)) + 1 && x == s[p - 1]
    {
      EatWhite();
      x := Get();
    }

    /** duk__dec_req_stridx: match the rest of a literal up to its own NUL. */
    method RequireLiteral(lit: Text) returns (r: Outcome<()>)
      requires Valid() && lit != [] && 0 !in lit
      modifies this`p
      ensures Agrees(r, ParseLiteral(s, old(p), lit[1..]), depth)
    {
      var k := 1;
      while k < |lit|
        invariant 1 <= k <= |lit| && p < |s|
        invariant ParseLiteral(s, p, lit[k..]) == ParseLiteral(s, old(p), lit[1..])
      {
        DropDrop(lit, k, 1);
        var y := Get();
        if lit[k] != y { return Thrown(SyntaxError); }
        k := k + 1;
      }
      return Value(());
    }

    /** duk__dec_decode_hex_escape for four digits. */
    method HexEscape() returns (r: Outcome<int>)
      requires Valid()
      modifies this`p
      ensures match HexAt(s, old(p))
              case Ok(v, n) => r == Value(v) && p == n
              case Fail(e) => r == Thrown(e)
    {
      ghost var p0 := p;
      var i, res := 0, 0;
      while i < 4
        invariant 0 <= i <= 4 && p == p0 + i < |s|
        invariant forall k :: p0 <= k < p ==> HexDigit(s[k]) >= 0
        invariant res == HexFold(s, p0, p)
      {
        var x := Get();
        var t := HexDigit(x);
        if t < 0 { return Thrown(SyntaxError); }
        res := res * 16 + t;
        i := i + 1;
      }
      assert ValidHex(s[p0..p0 + 4]);
      HexFoldFour(s, p0);
      hide HexDigit, HexFold, HexValue;
      return Value(res);
    }

    /** duk__dec_string_escape: the bytes that are written for an escape. */
    method StringEscape() returns (r: Outcome<Text>)
      requires Valid()
      modifies this`p
      ensures Agrees(r, ParseEscape(s, old(p)), depth)
    {
      hide HexAt, Xutf8.Encode;
      var x := Get();
      if x == 0x75 {
        var h := HexEscape();
        if h.Thrown? { return Thrown(h.error); }
        return Value(Xutf8.Encode(h.value));
      }
      var e := EscapeByte(x);
      if e.None? { return Thrown(SyntaxError); }
      return Value([e.value]);
    }

    /** duk__dec_string with its chunks of 64 bytes that need no check for output space. */
    method DecodeString() returns (r: Outcome<Text>)
      requires Valid()
      modifies this`p
      ensures Agrees(r, ParseString(s, old(p)), depth)
    {
      hide ParseString, ParseEscape;
      ghost var spec := ParseString(s, p);
      var q: Text := [];
      NothingBefore(spec);
      while true
        invariant p < |s| && spec == Prefixed(q, ParseString(s, p))
        decreases |s| - p
      {
        var safe := 64;
        ghost var p1 := p;
        while true
          invariant p < |s| && spec == Prefixed(q, ParseString(s, p))
          invariant 0 <= safe <= 64 && p == p1 + 64 - safe
          decreases safe
        {
          if safe == 0 { break; }
          safe := safe - 1;
          StringStep(s, p, q);
          var b := s[p];
          p := p + 1;
          if Plain(b) {
            q := q + [b];
          } else if b == QUOTE {
            return Value(q);
          } else if b == BACKSLASH {
            var e := StringEscape();
            if e.Thrown? { return Thrown(e.error); }
            q := q + e.value;
            break;
          } else {
            return Thrown(SyntaxError);
          }
        }
      }
    }

    /** duk__dec_number: collect every byte a number could have, then convert strictly. */
    method DecodeNumber() returns (r: Outcome<Number>)
      requires Valid() && NumberByte(s[p])
      modifies this`p
      ensures Agrees(r, ParseNumber(s, old(p)), depth)
    {
      var start, q := p, p;
      while NumberByte(s[q])
        invariant start <= q < |s| && NumberEnd(s, q) == NumberEnd(s, start)
        decreases |s| - q
      {
        q := q + 1;
      }
      p := q;
      var n := NumberOf(s[start..q]);
      if n.None? { return Thrown(SyntaxError); }
      return Value(n.value);
    }

    /** duk__dec_value. */
    method DecodeValue() returns (r: Outcome<Json>)
      requires Valid()
      modifies this
      ensures Agrees(r, ParseValue(s, old(p), old(depth), limit), old(depth))
      decreases |s| - p, 1
    {
      hide ParseBody;
      var x := GetNonwhite();
      r := DecodeBody(x);
      if r.Value? { EatWhite(); }
    }

    /** The choice on the first character that is not white space, which has been read. */
    method DecodeBody(x: Byte) returns (r: Outcome<Json>)
      requires Terminated(s) && 1 <= p <= |s| && depth <= limit && x == s[p - 1]
      modifies this
      ensures Agrees(r, ParseBody(s, old(p) - 1, old(depth), limit), old(depth))
      decreases |s| - p + 1, 0
    {
      hide ParseString, ParseNumber, ParseLiteral, ParseItems, ParseMembers;
      if x == QUOTE {
        var t := DecodeString();
        return if t.Thrown? then Thrown(t.error) else Value(Str(t.value));
      } else if Digit(x) || x == MINUS {
        p := p - 1;
        var n := DecodeNumber();
        return if n.Thrown? then Thrown(n.error) else Value(Num(n.value));
      } else if x == 0x74 {
        var t := RequireLiteral(TRUE);
        return if t.Thrown? then Thrown(t.error) else Value(Bool(true));
      } else if x == 0x66 {
        var t := RequireLiteral(FALSE);
        return if t.Thrown? then Thrown(t.error) else Value(Bool(false));
      } else if x == 0x6e {
        var t := RequireLiteral(NULL);
        return if t.Thrown? then Thrown(t.error) else Value(Null);
      } else if x == LCURLY {
        var o := DecodeObject();
        return if o.Thrown? then Thrown(o.error) else Value(Obj(o.value));
      } else if x == LBRACKET {
        var a := DecodeArray();
        return if a.Thrown? then Thrown(a.error) else Value(Arr(a.value));
      } else {
        return Thrown(SyntaxError);
      }
    }

    /** duk__dec_array; the '[' has been read. */
    method DecodeArray() returns (r: Outcome<seq<Json>>)
      requires Valid()
      modifies this
      ensures Agrees(r, ParseItems(s, old(p), old(depth), limit), old(depth))
      decreases |s| - p, 3
    {
      hide ParseValue;
      ghost var p0, d0 := p, depth;
      if depth >= limit { return Thrown(RangeError); }
      depth := depth + 1;
      var items: seq<Json> := [];
      var arrIdx := 0;
      while true
        invariant p0 <= p < |s| && depth == d0 + 1 <= limit && arrIdx == |items|
        invariant ItemsLoop(s, p, depth, limit, items) == ParseItems(s, p0, d0, limit)
        decreases |s| - p
      {
        var x := GetNonwhite();
        if x == COMMA && arrIdx != 0 {
          // accept the comma, expect a new value
        } else if x == RBRACKET {
          break;
        } else if arrIdx == 0 {
          p := p - 1;
        } else {
          return Thrown(SyntaxError);
        }
        var v := DecodeValue();
        if v.Thrown? { return Thrown(v.error); }
        items := items + [v.value];
        arrIdx := arrIdx + 1;
      }
      depth := depth - 1;
      return Value(items);
    }

    /** duk__dec_object; the '{' has been read. */
    method DecodeObject() returns (r: Outcome<seq<Member>>)
      requires Valid()
      modifies this
      ensures Agrees(r, ParseMembers(s, old(p), old(depth), limit), old(depth))
      decreases |s| - p, 3
    {
      hide ParsePair, Define, MembersLoop, MemberStart;
      ghost var p0, d0 := p, depth;
      if depth >= limit { return Thrown(RangeError); }
      depth := depth + 1;
      var ms: seq<Member> := [];
      var keyCount := 0;
      while true
        invariant p0 <= p < |s| && depth == d0 + 1 <= limit && (keyCount == 0 <==> ms == []) && 0 <= keyCount
        invariant MembersLoop(s, p, depth, limit, ms) == ParseMembers(s, p0, d0, limit)
        decreases |s| - p
      {
        MembersStep(s, p, depth, limit, ms);
        var next := BeginMember(keyCount == 0);
        if next.Closed? { break; }
        if next.Rejected? { return Thrown(SyntaxError); }
        var m := DecodeMember();
        if m.Thrown? { return Thrown(m.error); }
        ms := Define(ms, m.value.key, m.value.value);
        keyCount := keyCount + 1;
      }
      depth := depth - 1;
      return Value(ms);
    }

    /** Handle the comma and the closing brace, and read the quote of the next key. */
    method BeginMember(first: bool) returns (r: Begin)
      requires Valid()
      modifies this`p
      ensures r == MemberStart(s, old(p), first) && (r.Rejected? || p == r.next)
    {
      var x := GetNonwhite();
      if x == COMMA && !first {
        x := GetNonwhite();
      } else if x == RCURLY {
        return Closed(p);
      } else if first {
        // accept anything, expect the first key
      } else {
        return Rejected;
      }
      return if x == QUOTE then Quoted(p) else Rejected;
    }

    /** A key whose opening quote has been read, a colon and a value. */
    method DecodeMember() returns (r: Outcome<Member>)
      requires Terminated(s) && 1 <= p <= |s| && depth <= limit && s[p - 1] == QUOTE
      modifies this
      ensures Agrees(r, ParsePair(s, old(p) - 1, old(depth), limit), old(depth))
      decreases |s| - p, 3
    {
      hide ParseValue, ParseString;
      ghost var q := p - 1;
      assert SkipWhite(s, q) == q;
      var key := DecodeString();
      if key.Thrown? { return Thrown(key.error); }
      var x := GetNonwhite();
      if x != COLON { return Thrown(SyntaxError); }
      var v := DecodeValue();
      return if v.Thrown? then Thrown(v.error) else Value(Member(key.value, v.value));
    }
  }

  function MemberStart(s: Text, p: nat, first: bool): (r: Begin)
    requires Terminated(s) && p < |s|
    ensures !r.Rejected? ==> p < r.next < |s| && (r.Quoted? ==> s[r.next - 1] == QUOTE)
  {
    var q := SkipWhite(s, p);
    if s[q] == RCURLY then Closed(q + 1)
    else if s[q] != COMMA && !first then Rejected
    else
      var k := if first then q else SkipWhite(s, q + 1);
      if s[k] == QUOTE then Quoted(k + 1) else Rejected
  }

  /** The loop over members in the steps of the method: a member is read from its quote. */
  lemma MembersStep(s: Text, p: nat, depth: nat, limit: nat, ms: seq<Member>)
    requires Terminated(s) && p < |s| && depth <= limit
    ensures MembersLoop(s, p, depth, limit, ms)
            == match MemberStart(s, p, ms == [])
               case Closed(n) => Ok(ms, n)
               case Rejected => Fail(SyntaxError)
               case Quoted(n) =>
                 var m := ParsePair(s, n - 1, depth, limit);
                 if m.Fail? then Fail(m.error)
                 else MembersLoop(s, m.next, depth, limit, Define(ms, m.value.key, m.value.value))
  {
    hide ParsePair, Define;
    var q := SkipWhite(s, p);
    PairStart(s, q, depth, limit);
    assert SkipWhite(s, q) == q;
    if s[q] == COMMA { PairStart(s, q + 1, depth, limit); }
  }

  lemma PairStart(s: Text, p: nat, depth: nat, limit: nat)
    requires Terminated(s) && p < |s| && depth <= limit
    ensures var q := SkipWhite(s, p);
            && ParsePair(s, p, depth, limit) == ParsePair(s, q, depth, limit)
            && (s[q] != QUOTE ==> ParsePair(s, p, depth, limit) == Fail(SyntaxError))
  {
    hide ParseString, ParseValue;
    assert SkipWhite(s, SkipWhite(s, p)) == SkipWhite(s, p);
  }

  function HexFold(s: Text, i: nat, j: nat): (v: int)
    requires i <= j <= |s|
  {
    if i == j then 0 else HexFold(s, i, j - 1) * 16 + HexDigit(s[j - 1])
  }

  lemma HexFoldFour(s: Text, p: nat)
    requires p + 4 <= |s| && ValidHex(s[p..p + 4])
    ensures HexFold(s, p, p + 4) == HexValue(s[p..p + 4])
  {
    hide HexDigit;
    assert HexFold(s, p, p + 1) == HexDigit(s[p]);
    assert HexFold(s, p, p + 2) == HexFold(s, p, p + 1) * 16 + HexDigit(s[p + 1]);
  }

  /** What one more character does to a string read so far. */
  lemma StringStep(s: Text, p: nat, q: Text)
    requires Terminated(s) && p < |s|
    ensures var r := Prefixed(q, ParseString(s, p));
            if s[p] == QUOTE then r == Ok(q, p + 1)
            else if s[p] == BACKSLASH then
              var e := ParseEscape(s, p + 1);
              r == if e.Fail? then Fail(e.error) else Prefixed(q + e.value, ParseString(s, e.next))
            else if Plain(s[p]) then r == Prefixed(q + [s[p]], ParseString(s, p + 1))
            else r == Fail(SyntaxError)
  {
    hide ParseEscape;
    if s[p] == QUOTE {
      Identity(q);
    } else {
      var c := ParseChr(s, p);
      if c.Ok? && ParseString(s, c.next).Ok? { Assoc(q, c.value, ParseString(s, c.next).value); }
    }
  }

  /** duk_bi_json_parse_helper without a reviver. */
  method Parse(text: Text, limit: nat) returns (r: Outcome<Json>)
    ensures match ParseText(text, limit)
            case Ok(v, _) => r == Value(v)
            case Fail(e) => r == Thrown(e)
  {
    hide ParseValue;
    var d := new Decoder(text, limit);
    r := d.DecodeValue();
    if r.Value? && d.p != |text| { return Thrown(SyntaxError); }
  }
}
