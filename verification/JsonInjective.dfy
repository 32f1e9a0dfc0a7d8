/** Printed JSON values are told apart by their text, whatever the gap is. */
module JsonInjective {
  import opened Bytes
  import opened Seqs
  import opened JsonTree
  import opened JsonParse
  import opened JsonPrint

  /** What may follow a value: not more of a number. */
  predicate Delimited(x: Text) {
    x == [] || !NumberByte(x[0])
  }

  /** What follows the last item or member. */
  predicate Closing(x: Text) {
    x != [] && x[0] != COMMA && !NumberByte(x[0])
  }

  lemma Cancel(t: Text, x: Text, y: Text)
    requires t + x == t + y
    ensures x == y
  {
    AppendSplit(t, x);
    AppendSplit(t, y);
  }

  lemma {:induction false} SpanUnique(a: Text, b: Text, x: Text, y: Text)
    requires a + x == b + y && Delimited(x) && Delimited(y)
    requires (forall i :: 0 <= i < |a| ==> NumberByte(a[i])) && (forall i :: 0 <= i < |b| ==> NumberByte(b[i]))
    ensures a == b && x == y
  {
    hide NumberByte;
    var s := a + x;
    assert forall i :: 0 <= i < |a| ==> s[i] == a[i];
    assert forall i :: 0 <= i < |b| ==> s[i] == b[i];
    assert |a| < |s| ==> s[|a|] == x[0];
    assert |b| < |s| ==> s[|b|] == y[0];
    assert |a| == |b|;
    AppendSplit(a, x);
    AppendSplit(b, y);
  }

  lemma NumberUnique(m: Number, n: Number, x: Text, y: Text)
    requires Readable(m) && Readable(n) && Delimited(x) && Delimited(y) && NumberText(m) + x == NumberText(n) + y
    ensures m == n && x == y
  {
    if m.Integer? { IntegerReads(m.n); }
    if n.Integer? { IntegerReads(n.n); }
    hide NumberOf, Digits, NumberByte;
    SpanUnique(NumberText(m), NumberText(n), x, y);
    assert NumberOf(NumberText(m)) == Some(m) && NumberOf(NumberText(n)) == Some(n);
  }

  lemma {:induction false} QuoteUnique(s: Text, t: Text, x: Text, y: Text)
    requires Canonical(s) && Canonical(t) && Quote(s) + x == Quote(t) + y
    ensures s == t && x == y
  {
    hide Canonical, QuoteBody, ParseString;
    QuoteRead(s, x);
    QuoteRead(t, y);
    Cancel(Quote(s), x, y);
  }

  lemma {:induction false} QuoteRead(s: Text, x: Text)
    requires Canonical(s)
    ensures var all := Quote(s) + x + [0]; Terminated(all) && 1 <= |all| && ParseString(all, 1) == Ok(s, |QuoteBody(s)| + 2)
  {
    hide Canonical, QuoteBody, ParseString;
    var all := Quote(s) + x + [0];
    assert all == [QUOTE] + (QuoteBody(s) + [QUOTE]) + (x + [0]);
    assert all[1..1 + |QuoteBody(s)| + 1] == QuoteBody(s) + [QUOTE];
    QuoteParses(s, all, 1);
  }

  // ----- First bytes -----

  /** The kind of value that a first byte announces. */
  function Announces(b: Byte): nat {
    if b == 0x6e then 0 else if b == 0x74 then 1 else if b == 0x66 then 2 else if NumberByte(b) then 3
    else if b == QUOTE then 4 else if b == LBRACKET then 5 else if b == LCURLY then 6 else 7
  }

  function Kind(v: Json): nat {
    match v
    case Null => 0
    case Bool(b) => if b then 1 else 2
    case Num(_) => 3
    case Str(_) => 4
    case Arr(_) => 5
    case Obj(_) => 6
  }

  lemma {:induction false} FirstByte(v: Json, gap: Text, d: nat)
    requires Printable(v)
    ensures Print(v, gap, d) != [] && Announces(Print(v, gap, d)[0]) == Kind(v)
  {
    if v.Num? {
      if v.num.Integer? { IntegerReads(v.num.n); }
      hide Digits, NumberByte;
      var t := NumberText(v.num);
      assert NumberOf(t) == Some(v.num);
      assert t != [] && NumberByte(t[0]);
      NumberAnnounces(t[0]);
    }
  }

  lemma NumberAnnounces(b: Byte)
    requires NumberByte(b)
    ensures Announces(b) == 3
  {}

  /** What an item begins with is not what closes the list. */
  lemma {:induction false} ItemStarts(v: Json, gap: Text, d: nat, close: Byte)
    requires Printable(v) && (close == RBRACKET || close == RCURLY)
    ensures PrintItem(v, gap, d) != [] && PrintItem(v, gap, d)[0] != close
  {
    FirstByte(v, gap, d);
    hide Print;
  }

  lemma {:induction false} MemberStarts(m: Member, gap: Text, d: nat)
    ensures PrintMember(m, gap, d) != [] && PrintMember(m, gap, d)[0] != RCURLY
  {
    hide Print, QuoteBody, Colon;
  }

  // ----- Values, items and members -----

  /** No text of a value is the beginning of another one's, up to more of a number. */
  lemma {:induction false} PrintUnique(a: Json, b: Json, gap: Text, d: nat, x: Text, y: Text)
    requires Printable(a) && Printable(b) && Delimited(x) && Delimited(y)
    requires Print(a, gap, d) + x == Print(b, gap, d) + y
    ensures a == b && x == y
    decreases a, 1
  {
    SameKind(a, b, gap, d, x, y);
    match a
    case Null => Cancel(NULL, x, y);
    case Bool(t) => Cancel(if t then TRUE else FALSE, x, y);
    case Num(n) => NumberUnique(n, b.num, x, y);
    case Str(s) => QuoteUnique(s, b.s, x, y);
    case Arr(items) => ArrayUnique(a, b, gap, d, x, y);
    case Obj(ms) => ObjectUnique(a, b, gap, d, x, y);
  }

  lemma SameKind(a: Json, b: Json, gap: Text, d: nat, x: Text, y: Text)
    requires Printable(a) && Printable(b) && Print(a, gap, d) + x == Print(b, gap, d) + y
    ensures Kind(a) == Kind(b)
  {
    FirstByte(a, gap, d);
    FirstByte(b, gap, d);
    hide Print, Printable, Announces;
    assert (Print(a, gap, d) + x)[0] == Print(a, gap, d)[0] && (Print(b, gap, d) + y)[0] == Print(b, gap, d)[0];
  }

  /** The end of an array or object. */
  function Tail(gap: Text, d: nat, close: Byte, x: Text): Text {
    Break(gap, d) + [close] + x
  }

  lemma {:induction false} TailCloses(gap: Text, d: nat, close: Byte, x: Text, y: Text)
    requires close == RBRACKET || close == RCURLY
    ensures Closing(Tail(gap, d, close, x)) && (Tail(gap, d, close, x) == Tail(gap, d, close, y) ==> x == y)
  {
    if Tail(gap, d, close, x) == Tail(gap, d, close, y) { Cancel(Break(gap, d) + [close], x, y); }
  }

  lemma {:induction false} ArrayTail(items: seq<Json>, gap: Text, d: nat, x: Text)
    requires items != []
    ensures Print(Arr(items), gap, d) + x
            == [LBRACKET] + (PrintItem(items[0], gap, d + 1) + (PrintItems(items[1..], gap, d + 1) + Tail(gap, d, RBRACKET, x)))
  {
    hide PrintItem, PrintItems, Break;
    Regroup(LBRACKET, PrintItem(items[0], gap, d + 1), PrintItems(items[1..], gap, d + 1), Break(gap, d), RBRACKET, x);
  }

  lemma {:induction false} ObjectTail(ms: seq<Member>, gap: Text, d: nat, x: Text)
    requires ms != []
    ensures Print(Obj(ms), gap, d) + x
            == [LCURLY] + (PrintMember(ms[0], gap, d + 1) + (PrintMembers(ms[1..], gap, d + 1) + Tail(gap, d, RCURLY, x)))
  {
    hide PrintMember, PrintMembers, Break;
    Regroup(LCURLY, PrintMember(ms[0], gap, d + 1), PrintMembers(ms[1..], gap, d + 1), Break(gap, d), RCURLY, x);
  }

  lemma Regroup(open: Byte, a: Text, b: Text, c: Text, close: Byte, x: Text)
    ensures [open] + a + b + c + [close] + x == [open] + (a + (b + (c + [close] + x)))
  {}

  lemma {:induction false} ArrayUnique(a: Json, b: Json, gap: Text, d: nat, x: Text, y: Text)
    requires a.Arr? && b.Arr? && Printable(a) && Printable(b) && Delimited(x) && Delimited(y)
    requires Print(a, gap, d) + x == Print(b, gap, d) + y
    ensures a == b && x == y
    decreases a, 0
  {
    hide PrintItem, PrintItems, Tail;
    if a.items == [] || b.items == [] {
      EmptyArray(a.items, b.items, gap, d, x, y);
    } else {
      ArrayTail(a.items, gap, d, x);
      ArrayTail(b.items, gap, d, y);
      TailCloses(gap, d, RBRACKET, x, y);
      TailCloses(gap, d, RBRACKET, y, x);
      hide Print;
      var r, s := PrintItems(a.items[1..], gap, d + 1) + Tail(gap, d, RBRACKET, x), PrintItems(b.items[1..], gap, d + 1) + Tail(gap, d, RBRACKET, y);
      Cancel([LBRACKET], PrintItem(a.items[0], gap, d + 1) + r, PrintItem(b.items[0], gap, d + 1) + s);
      ItemsDelimited(a.items[1..], gap, d + 1, Tail(gap, d, RBRACKET, x));
      ItemsDelimited(b.items[1..], gap, d + 1, Tail(gap, d, RBRACKET, y));
      ItemUnique(a.items[0], b.items[0], gap, d + 1, r, s);
      ItemsUnique(a.items[1..], b.items[1..], gap, d + 1, Tail(gap, d, RBRACKET, x), Tail(gap, d, RBRACKET, y));
      Cons(a.items);
      Cons(b.items);
    }
  }

  lemma {:induction false} ItemUnique(v: Json, w: Json, gap: Text, d: nat, r: Text, s: Text)
    requires Printable(v) && Printable(w) && Delimited(r) && Delimited(s)
    requires PrintItem(v, gap, d) + r == PrintItem(w, gap, d) + s
    ensures v == w && r == s
    decreases v, 2
  {
    ItemParts(v, gap, d, r);
    ItemParts(w, gap, d, s);
    hide PrintItem, Print, Break, Printable;
    Cancel(Break(gap, d), Print(v, gap, d) + r, Print(w, gap, d) + s);
    PrintUnique(v, w, gap, d, r, s);
  }

  lemma ItemParts(v: Json, gap: Text, d: nat, r: Text)
    ensures PrintItem(v, gap, d) + r == Break(gap, d) + (Print(v, gap, d) + r)
  {
    hide Print, Break;
    Assoc(Break(gap, d), Print(v, gap, d), r);
  }

  lemma {:induction false} EmptyArray(p: seq<Json>, q: seq<Json>, gap: Text, d: nat, x: Text, y: Text)
    requires Printable(Arr(p)) && Printable(Arr(q)) && (p == [] || q == [])
    requires Print(Arr(p), gap, d) + x == Print(Arr(q), gap, d) + y
    ensures p == q && x == y
  {
    SecondByte(p, gap, d, x);
    SecondByte(q, gap, d, y);
    Cancel([LBRACKET, RBRACKET], x, y);
  }

  lemma {:induction false} SecondByte(p: seq<Json>, gap: Text, d: nat, x: Text)
    requires Printable(Arr(p))
    ensures var s := Print(Arr(p), gap, d) + x; |s| > 1 && (s[1] == RBRACKET <==> p == [])
  {
    if p != [] {
      ArrayTail(p, gap, d, x);
      ItemStarts(p[0], gap, d + 1, RBRACKET);
      hide Print, PrintItem;
    }
  }

  lemma ItemsDelimited(items: seq<Json>, gap: Text, d: nat, z: Text)
    requires Closing(z)
    ensures Delimited(PrintItems(items, gap, d) + z)
  {
    hide PrintItem;
  }

  lemma {:induction false} ItemsUnique(p: seq<Json>, q: seq<Json>, gap: Text, d: nat, x: Text, y: Text)
    requires (forall i :: 0 <= i < |p| ==> Printable(p[i])) && (forall i :: 0 <= i < |q| ==> Printable(q[i]))
    requires Closing(x) && Closing(y) && PrintItems(p, gap, d) + x == PrintItems(q, gap, d) + y
    ensures p == q && x == y
    decreases p
  {
    hide PrintItem, Printable;
    SameEnd(p, q, gap, d, x, y);
    if p != [] {
      PrintItemsStep(p, gap, d);
      PrintItemsStep(q, gap, d);
      hide PrintItems;
      var r, s := PrintItems(p[1..], gap, d) + x, PrintItems(q[1..], gap, d) + y;
      ListParts(PrintItem(p[0], gap, d), PrintItems(p[1..], gap, d), x);
      ListParts(PrintItem(q[0], gap, d), PrintItems(q[1..], gap, d), y);
      Cancel([COMMA], PrintItem(p[0], gap, d) + r, PrintItem(q[0], gap, d) + s);
      ItemsDelimited(p[1..], gap, d, x);
      ItemsDelimited(q[1..], gap, d, y);
      ItemUnique(p[0], q[0], gap, d, r, s);
      ItemsUnique(p[1..], q[1..], gap, d, x, y);
      Cons(p);
      Cons(q);
    } else {
      Identity(x);
      Identity(y);
    }
  }

  lemma ListParts(a: Text, b: Text, x: Text)
    ensures [COMMA] + a + b + x == [COMMA] + (a + (b + x))
  {}

  /** A comma tells whether there are more. */
  lemma SameEnd(p: seq<Json>, q: seq<Json>, gap: Text, d: nat, x: Text, y: Text)
    requires Closing(x) && Closing(y) && PrintItems(p, gap, d) + x == PrintItems(q, gap, d) + y
    ensures p == [] <==> q == []
  {
    hide PrintItem;
    var s := PrintItems(p, gap, d) + x;
    assert s[0] == if p == [] then x[0] else COMMA;
    assert s[0] == if q == [] then y[0] else COMMA;
  }

  lemma {:induction false} ObjectUnique(a: Json, b: Json, gap: Text, d: nat, x: Text, y: Text)
    requires a.Obj? && b.Obj? && Printable(a) && Printable(b) && Delimited(x) && Delimited(y)
    requires Print(a, gap, d) + x == Print(b, gap, d) + y
    ensures a == b && x == y
    decreases a, 0
  {
    hide PrintMember, PrintMembers, Tail;
    var p, q := a.members, b.members;
    if p == [] || q == [] {
      EmptyObject(p, q, gap, d, x, y);
    } else {
      ObjectTail(p, gap, d, x);
      ObjectTail(q, gap, d, y);
      TailCloses(gap, d, RCURLY, x, y);
      TailCloses(gap, d, RCURLY, y, x);
      hide Print;
      var r, s := PrintMembers(p[1..], gap, d + 1) + Tail(gap, d, RCURLY, x), PrintMembers(q[1..], gap, d + 1) + Tail(gap, d, RCURLY, y);
      Cancel([LCURLY], PrintMember(p[0], gap, d + 1) + r, PrintMember(q[0], gap, d + 1) + s);
      MembersDelimited(p[1..], gap, d + 1, Tail(gap, d, RCURLY, x));
      MembersDelimited(q[1..], gap, d + 1, Tail(gap, d, RCURLY, y));
      assert PrintableMember(p[0]) && PrintableMember(q[0]);
      MemberUnique(p[0], q[0], gap, d + 1, r, s);
      MembersUnique(p[1..], q[1..], gap, d + 1, Tail(gap, d, RCURLY, x), Tail(gap, d, RCURLY, y));
      Cons(p);
      Cons(q);
    }
  }

  lemma {:induction false} MemberUnique(m: Member, n: Member, gap: Text, d: nat, r: Text, s: Text)
    requires PrintableMember(m) && PrintableMember(n) && Delimited(r) && Delimited(s)
    requires PrintMember(m, gap, d) + r == PrintMember(n, gap, d) + s
    ensures m == n && r == s
    decreases m
  {
    MemberParts(m, gap, d, r);
    MemberParts(n, gap, d, s);
    hide PrintMember, Print, Break, Quote, Colon, Canonical, Printable;
    var u, v := Colon(gap) + (Print(m.value, gap, d) + r), Colon(gap) + (Print(n.value, gap, d) + s);
    Cancel(Break(gap, d), Quote(m.key) + u, Quote(n.key) + v);
    QuoteUnique(m.key, n.key, u, v);
    Cancel(Colon(gap), Print(m.value, gap, d) + r, Print(n.value, gap, d) + s);
    PrintUnique(m.value, n.value, gap, d, r, s);
  }

  lemma MemberParts(m: Member, gap: Text, d: nat, r: Text)
    ensures PrintMember(m, gap, d) + r == Break(gap, d) + (Quote(m.key) + (Colon(gap) + (Print(m.value, gap, d) + r)))
  {
    hide Print, Break, Quote, Colon;
    FourParts(Break(gap, d), Quote(m.key), Colon(gap), Print(m.value, gap, d), r);
  }

  lemma FourParts(a: Text, b: Text, c: Text, d: Text, r: Text)
    ensures a + b + c + d + r == a + (b + (c + (d + r)))
  {}

  lemma {:induction false} EmptyObject(p: seq<Member>, q: seq<Member>, gap: Text, d: nat, x: Text, y: Text)
    requires (p == [] || q == []) && Print(Obj(p), gap, d) + x == Print(Obj(q), gap, d) + y
    ensures p == q && x == y
  {
    SecondByteOfObject(p, gap, d, x);
    SecondByteOfObject(q, gap, d, y);
    Cancel([LCURLY, RCURLY], x, y);
  }

  lemma {:induction false} SecondByteOfObject(p: seq<Member>, gap: Text, d: nat, x: Text)
    ensures var s := Print(Obj(p), gap, d) + x; |s| > 1 && (s[1] == RCURLY <==> p == [])
  {
    if p != [] {
      ObjectTail(p, gap, d, x);
      MemberStarts(p[0], gap, d + 1);
      hide Print, PrintMember;
    }
  }

  lemma MembersDelimited(ms: seq<Member>, gap: Text, d: nat, z: Text)
    requires Closing(z)
    ensures Delimited(PrintMembers(ms, gap, d) + z)
  {
    hide PrintMember;
  }

  lemma {:induction false} MembersUnique(p: seq<Member>, q: seq<Member>, gap: Text, d: nat, x: Text, y: Text)
    requires (forall i :: 0 <= i < |p| ==> PrintableMember(p[i])) && (forall i :: 0 <= i < |q| ==> PrintableMember(q[i]))
    requires Closing(x) && Closing(y) && PrintMembers(p, gap, d) + x == PrintMembers(q, gap, d) + y
    ensures p == q && x == y
    decreases p
  {
    hide PrintMember, PrintableMember;
    SameLast(p, q, gap, d, x, y);
    if p != [] {
      PrintMembersStep(p, gap, d);
      PrintMembersStep(q, gap, d);
      hide PrintMembers;
      var r, s := PrintMembers(p[1..], gap, d) + x, PrintMembers(q[1..], gap, d) + y;
      ListParts(PrintMember(p[0], gap, d), PrintMembers(p[1..], gap, d), x);
      ListParts(PrintMember(q[0], gap, d), PrintMembers(q[1..], gap, d), y);
      Cancel([COMMA], PrintMember(p[0], gap, d) + r, PrintMember(q[0], gap, d) + s);
      MembersDelimited(p[1..], gap, d, x);
      MembersDelimited(q[1..], gap, d, y);
      MemberUnique(p[0], q[0], gap, d, r, s);
      MembersUnique(p[1..], q[1..], gap, d, x, y);
      Cons(p);
      Cons(q);
    } else {
      Identity(x);
      Identity(y);
    }
  }

  lemma SameLast(p: seq<Member>, q: seq<Member>, gap: Text, d: nat, x: Text, y: Text)
    requires Closing(x) && Closing(y) && PrintMembers(p, gap, d) + x == PrintMembers(q, gap, d) + y
    ensures p == [] <==> q == []
  {
    hide PrintMember;
    var s := PrintMembers(p, gap, d) + x;
    assert s[0] == if p == [] then x[0] else COMMA;
    assert s[0] == if q == [] then y[0] else COMMA;
  }

  /** Different values never have the same text, under any gap. */
  lemma PrintInjective(a: Json, b: Json, gap: Text)
    requires Printable(a) && Printable(b) && Print(a, gap, 0) == Print(b, gap, 0)
    ensures a == b
  {
    hide Printable, Print;
    Identity(Print(a, gap, 0));
    PrintUnique(a, b, gap, 0, [], []);
  }
}
