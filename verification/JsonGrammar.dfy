/** The parser accepts exactly the texts of the JSON grammar, and gives each of them its value. */
module JsonGrammar {
  import opened Bytes
  import opened Seqs
  import opened JsonTree
  import opened JsonParse
  import JsonNumber
  import Xutf8

  // ----- Every text of the grammar is accepted -----

  lemma ChrComplete(c: Chr, s: Text, p: nat)
    requires Terminated(s) && ValidChr(c) && At(s, p, RenderChr(c)) && p + |RenderChr(c)| < |s|
    ensures s[p] != QUOTE && ParseChr(s, p) == Ok(ChrBytes(c), p + |RenderChr(c)|)
  {
    AtIndex(s, p, RenderChr(c), 0);
    if c.Esc? {
      AtIndex(s, p, RenderChr(c), 1);
    } else if c.Uni? {
      AtIndex(s, p, RenderChr(c), 1);
      AtAppend(s, p, [BACKSLASH, 0x75], c.hex);
      hide Xutf8.Encode, HexValue;
    }
  }

  lemma {:induction false} StringComplete(cs: seq<Chr>, s: Text, p: nat)
    requires Terminated(s) && ValidChars(cs)
    requires At(s, p, RenderChars(cs) + [QUOTE]) && p + |RenderChars(cs)| + 1 < |s|
    ensures ParseString(s, p) == Ok(CharsBytes(cs), p + |RenderChars(cs)| + 1)
    decreases cs
  {
    hide ParseChr, ChrBytes, RenderChr, ValidChr;
    AtAppend(s, p, RenderChars(cs), [QUOTE]);
    if cs == [] {
      AtOne(s, p, QUOTE);
    } else {
      AtAppend(s, p, RenderChr(cs[0]), RenderChars(cs[1..]));
      AtAppend(s, p + |RenderChr(cs[0])|, RenderChars(cs[1..]), [QUOTE]);
      ChrComplete(cs[0], s, p);
      StringComplete(cs[1..], s, p + |RenderChr(cs[0])|);
    }
  }

  /** No value starts with white space, and each kind starts with its own character. */
  lemma FirstByte(b: Body)
    requires ValidBody(b)
    ensures RenderBody(b) != [] && !White(RenderBody(b)[0])
    ensures b.NumBody? ==> Digit(RenderBody(b)[0]) || RenderBody(b)[0] == MINUS
    ensures b.StrBody? ==> RenderBody(b)[0] == QUOTE
    ensures b.ArrBody? ==> RenderBody(b)[0] == LBRACKET
    ensures b.ObjBody? ==> RenderBody(b)[0] == LCURLY
  {
    hide RenderItems, RenderPairs, RenderPair, Render, RenderChars, Valid, ValidPair, ValidChars;
  }

  lemma {:induction false} ValueComplete(t: Syntax, s: Text, p: nat, depth: nat, limit: nat)
    requires Terminated(s) && Valid(t) && At(s, p, Render(t)) && p + |Render(t)| < |s|
    requires !White(s[p + |Render(t)|]) && !NumberByte(s[p + |Render(t)|])
    requires depth + Depth(t) <= limit
    ensures ParseValue(s, p, depth, limit) == Ok(Meaning(t), p + |Render(t)|)
    decreases t, 2
  {
    hide ParseBody, ValidBody, RenderBody, Meaning, Depth;
    var q, r, e := p + |t.lead|, p + |t.lead| + |RenderBody(t.body)|, p + |Render(t)|;
    AtAppend(s, p, t.lead + RenderBody(t.body), t.trail);
    AtAppend(s, p, t.lead, RenderBody(t.body));
    FirstByte(t.body);
    AtIndex(s, q, RenderBody(t.body), 0);
    WhiteAt(s, p, t.lead);
    WhiteAt(s, r, t.trail);
    assert SkipWhite(s, p) == q;
    BodyComplete(t, s, q, depth, limit);
  }

  lemma WhiteAt(s: Text, p: nat, w: Text)
    requires At(s, p, w) && AllWhite(w)
    ensures forall i :: p <= i < p + |w| ==> White(s[i])
  {
    forall i | p <= i < p + |w| ensures White(s[i]) { AtIndex(s, p, w, i - p); }
  }

  lemma LiteralComplete(s: Text, q: nat, lit: Text, depth: nat, limit: nat)
    requires Terminated(s) && At(s, q, lit) && q + |lit| < |s| && depth <= limit
    requires lit == NULL || lit == TRUE || lit == FALSE
    ensures ParseBody(s, q, depth, limit) == Ok(if lit == NULL then Null else Bool(lit == TRUE), q + |lit|)
  {
    hide ParseLiteral;
    AtIndex(s, q, lit, 0);
    AtAppend(s, q, lit[..1], lit[1..]);
    TakeDrop(lit, 1);
  }

  lemma NumberComplete(s: Text, q: nat, n: NumberSyntax, depth: nat, limit: nat)
    requires Terminated(s) && ValidNumber(n) && At(s, q, RenderNumber(n)) && q + |RenderNumber(n)| < |s| && depth <= limit
    requires !NumberByte(s[q + |RenderNumber(n)|])
    ensures ParseBody(s, q, depth, limit) == Ok(Num(NumberMeaning(n)), q + |RenderNumber(n)|)
  {
    hide NumberOf, NumberEnd, RenderNumber, NumberMeaning, ValidNumber;
    var token := RenderNumber(n);
    FirstByte(NumBody(n));
    JsonNumber.TokenComplete(n);
    AtIndex(s, q, token, 0);
    forall i | q <= i < q + |token| ensures NumberByte(s[i]) { AtIndex(s, q, token, i - q); }
    assert NumberEnd(s, q) == q + |token|;
  }

  lemma QuotedComplete(s: Text, q: nat, cs: seq<Chr>, depth: nat, limit: nat)
    requires Terminated(s) && ValidChars(cs) && At(s, q, Quoted(cs)) && q + |Quoted(cs)| < |s| && depth <= limit
    ensures ParseBody(s, q, depth, limit) == Ok(Str(CharsBytes(cs)), q + |Quoted(cs)|)
  {
    hide ParseString, RenderChars, CharsBytes;
    Assoc([QUOTE], RenderChars(cs), [QUOTE]);
    AtAppend(s, q, [QUOTE], RenderChars(cs) + [QUOTE]);
    AtOne(s, q, QUOTE);
    StringComplete(cs, s, q + 1);
  }

  lemma {:induction false} BodyComplete(t: Syntax, s: Text, q: nat, depth: nat, limit: nat)
    requires Terminated(s) && ValidBody(t.body) && At(s, q, RenderBody(t.body)) && q + |RenderBody(t.body)| < |s|
    requires !NumberByte(s[q + |RenderBody(t.body)|])
    requires depth + Depth(t) <= limit
    ensures ParseBody(s, q, depth, limit) == Ok(Meaning(t), q + |RenderBody(t.body)|)
    decreases t, 1
  {
    hide ParseBody, Quoted, RenderNumber, ValidNumber, NumberMeaning;
    match t.body
    case NullBody => LiteralComplete(s, q, NULL, depth, limit);
    case BoolBody(v) => LiteralComplete(s, q, if v then TRUE else FALSE, depth, limit);
    case NumBody(number) => NumberComplete(s, q, number, depth, limit);
    case StrBody(chars) => QuotedComplete(s, q, chars, depth, limit);
    case ArrBody(inner, items) => ArrayComplete(t, s, q, depth, limit);
    case ObjBody(inner, pairs) => ObjectComplete(t, s, q, depth, limit);
  }

  lemma {:induction false} ArrayComplete(t: Syntax, s: Text, q: nat, depth: nat, limit: nat)
    requires t.body.ArrBody? && Terminated(s) && ValidBody(t.body)
    requires At(s, q, RenderBody(t.body)) && q + |RenderBody(t.body)| < |s| && depth + Depth(t) <= limit
    ensures ParseBody(s, q, depth, limit) == Ok(Meaning(t), q + |RenderBody(t.body)|)
    decreases t, 0
  {
    hide Render, RenderItems, ItemsLoop, ItemsMeaning, Valid;
    var inner, items := t.body.inner, t.body.items;
    var content := if items == [] then inner else Render(items[0]) + RenderItems(items[1..]);
    AtAppend(s, q, [LBRACKET] + content, [RBRACKET]);
    AtAppend(s, q, [LBRACKET], content);
    AtOne(s, q, LBRACKET);
    AtOne(s, q + 1 + |content|, RBRACKET);
    if items == [] {
      WhiteAt(s, q + 1, inner);
      EmptyItems(s, q + 1, q + 1 + |inner|, depth + 1, limit);
      NoItems();
    } else {
      FirstItem(items, s, q + 1, depth + 1, limit);
    }
  }

  lemma NoItems()
    ensures ItemsMeaning([]) == [] && RenderItems([]) == [] && ItemsDepth([]) == 0
  {}

  lemma ItemPlaces(items: seq<Syntax>, s: Text, p: nat)
    requires items != [] && At(s, p, RenderItems(items))
    ensures |RenderItems(items)| == 1 + |Render(items[0])| + |RenderItems(items[1..])|
    ensures At(s, p + 1, Render(items[0])) && At(s, p + 1 + |Render(items[0])|, RenderItems(items[1..]))
  {
    hide Render;
    AtAppend(s, p, [COMMA] + Render(items[0]), RenderItems(items[1..]));
    AtAppend(s, p, [COMMA], Render(items[0]));
  }

  lemma EmptyItems(s: Text, p: nat, q: nat, depth: nat, limit: nat)
    requires Terminated(s) && p <= q < |s| && s[q] == RBRACKET && depth <= limit
    requires forall i :: p <= i < q ==> White(s[i])
    ensures ItemsLoop(s, p, depth, limit, []) == Ok([], q + 1)
  {}

  lemma {:induction false} FirstItem(items: seq<Syntax>, s: Text, p: nat, depth: nat, limit: nat)
    requires items != [] && Terminated(s) && (forall i :: 0 <= i < |items| ==> Valid(items[i]))
    requires At(s, p, Render(items[0]) + RenderItems(items[1..]))
    requires var e := p + |Render(items[0])| + |RenderItems(items[1..])|; e + 1 < |s| && s[e] == RBRACKET
    requires depth + ItemsDepth(items) <= limit
    ensures ItemsLoop(s, p, depth, limit, [])
            == Ok(ItemsMeaning(items), p + |Render(items[0])| + |RenderItems(items[1..])| + 1)
    decreases items, 1
  {
    hide Valid, ParseValue, ItemsMeaning, Meaning, Depth, ItemsLoop, Render;
    var first, rest := items[0], items[1..];
    var r := p + |Render(first)|;
    AtAppend(s, p, Render(first), RenderItems(rest));
    AfterItem(rest, s, r);
    ValueComplete(first, s, p, depth, limit);
    ItemsComplete(rest, s, r, depth, limit, [Meaning(first)]);
    StartItems(s, p, depth, limit);
    ItemsMeaningCons(items);
  }

  lemma ItemsMeaningCons(items: seq<Syntax>)
    requires items != []
    ensures ItemsMeaning(items) == [Meaning(items[0])] + ItemsMeaning(items[1..])
  {}

  /** The byte after an item is a comma or the closing bracket. */
  lemma AfterItem(rest: seq<Syntax>, s: Text, r: nat)
    requires At(s, r, RenderItems(rest)) && r + |RenderItems(rest)| < |s| && s[r + |RenderItems(rest)|] == RBRACKET
    ensures r < |s| && (if rest == [] then s[r] == RBRACKET else s[r] == COMMA)
  {
    hide Render;
    if rest != [] { AtIndex(s, r, RenderItems(rest), 0); }
  }

  lemma ValueSkipsWhite(s: Text, p: nat, depth: nat, limit: nat)
    requires Terminated(s) && p < |s| && depth <= limit
    ensures ParseValue(s, SkipWhite(s, p), depth, limit) == ParseValue(s, p, depth, limit)
  {
    hide ParseBody;
    assert SkipWhite(s, SkipWhite(s, p)) == SkipWhite(s, p);
  }

  lemma NoValue(s: Text, q: nat, depth: nat, limit: nat)
    requires Terminated(s) && q < |s| && depth <= limit && (s[q] == RBRACKET || s[q] == RCURLY || s[q] == COMMA)
    ensures ParseValue(s, q, depth, limit).Fail?
  {
    hide ParseString, ParseNumber, ParseLiteral, ParseMembers, ParseItems;
    assert SkipWhite(s, q) == q;
  }

  /** A first item: its leading white space is skipped twice. */
  lemma StartItems(s: Text, p: nat, depth: nat, limit: nat)
    requires Terminated(s) && p < |s| && depth <= limit
    requires ParseValue(s, p, depth, limit).Ok?
    ensures var v := ParseValue(s, p, depth, limit);
            ItemsLoop(s, p, depth, limit, []) == ItemsLoop(s, v.next, depth, limit, [v.value])
  {
    hide ParseValue;
    var q := SkipWhite(s, p);
    ValueSkipsWhite(s, p, depth, limit);
    if s[q] == RBRACKET { NoValue(s, q, depth, limit); }
    Identity([ParseValue(s, p, depth, limit).value]);
  }

  lemma {:induction false} ItemsComplete(items: seq<Syntax>, s: Text, p: nat, depth: nat, limit: nat, acc: seq<Json>)
    requires acc != [] && Terminated(s) && (forall i :: 0 <= i < |items| ==> Valid(items[i]))
    requires At(s, p, RenderItems(items))
    requires var e := p + |RenderItems(items)|; e + 1 < |s| && s[e] == RBRACKET
    requires depth + ItemsDepth(items) <= limit
    ensures ItemsLoop(s, p, depth, limit, acc) == Ok(acc + ItemsMeaning(items), p + |RenderItems(items)| + 1)
    decreases items, 0
  {
    hide Valid, Render, RenderItems, Meaning, ItemsMeaning, Depth, ParseValue, ItemsLoop;
    AfterItem(items, s, p);
    if items == [] {
      NoItems();
      Identity(acc);
      ItemsEnd(s, p, depth, limit, acc);
    } else {
      var first, rest := items[0], items[1..];
      ItemPlaces(items, s, p);
      ItemsMeaningCons(items);
      var r := p + 1 + |Render(first)|;
      AfterItem(rest, s, r);
      ValueComplete(first, s, p + 1, depth, limit);
      ItemsNext(s, p, depth, limit, acc);
      ItemsComplete(rest, s, r, depth, limit, acc + [Meaning(first)]);
      Assoc(acc, [Meaning(first)], ItemsMeaning(rest));
    }
  }

  lemma ItemsEnd(s: Text, p: nat, depth: nat, limit: nat, acc: seq<Json>)
    requires Terminated(s) && p < |s| && s[p] == RBRACKET && depth <= limit
    ensures ItemsLoop(s, p, depth, limit, acc) == Ok(acc, p + 1)
  {
    assert SkipWhite(s, p) == p;
  }

  lemma ItemsNext(s: Text, p: nat, depth: nat, limit: nat, acc: seq<Json>)
    requires Terminated(s) && p < |s| && s[p] == COMMA && depth <= limit && acc != []
    requires ParseValue(s, p + 1, depth, limit).Ok?
    ensures var v := ParseValue(s, p + 1, depth, limit);
            ItemsLoop(s, p, depth, limit, acc) == ItemsLoop(s, v.next, depth, limit, acc + [v.value])
  {
    hide ParseValue;
    assert SkipWhite(s, p) == p;
  }

  // Objects, in the same steps.

  lemma {:induction false} ObjectComplete(t: Syntax, s: Text, q: nat, depth: nat, limit: nat)
    requires t.body.ObjBody? && Terminated(s) && ValidBody(t.body)
    requires At(s, q, RenderBody(t.body)) && q + |RenderBody(t.body)| < |s| && depth + Depth(t) <= limit
    ensures ParseBody(s, q, depth, limit) == Ok(Meaning(t), q + |RenderBody(t.body)|)
    decreases t, 0
  {
    hide RenderPair, RenderPairs, MembersLoop, PairsMeaning, ValidPair;
    var inner, pairs := t.body.inner, t.body.pairs;
    var content := if pairs == [] then inner else RenderPair(pairs[0]) + RenderPairs(pairs[1..]);
    AtAppend(s, q, [LCURLY] + content, [RCURLY]);
    AtAppend(s, q, [LCURLY], content);
    AtOne(s, q, LCURLY);
    AtOne(s, q + 1 + |content|, RCURLY);
    if pairs == [] {
      WhiteAt(s, q + 1, inner);
      EmptyMembers(s, q + 1, q + 1 + |inner|, depth + 1, limit);
      NoPairs([]);
    } else {
      FirstPair(pairs, s, q + 1, depth + 1, limit);
    }
  }

  lemma NoPairs(ms: seq<Member>)
    ensures PairsMeaning(ms, []) == ms && RenderPairs([]) == [] && PairsDepth([]) == 0
  {}

  lemma PairsPlaces(pairs: seq<Pair>, s: Text, p: nat)
    requires pairs != [] && At(s, p, RenderPairs(pairs))
    ensures |RenderPairs(pairs)| == 1 + |RenderPair(pairs[0])| + |RenderPairs(pairs[1..])|
    ensures At(s, p + 1, RenderPair(pairs[0])) && At(s, p + 1 + |RenderPair(pairs[0])|, RenderPairs(pairs[1..]))
  {
    hide RenderPair;
    AtAppend(s, p, [COMMA] + RenderPair(pairs[0]), RenderPairs(pairs[1..]));
    AtAppend(s, p, [COMMA], RenderPair(pairs[0]));
  }

  lemma EmptyMembers(s: Text, p: nat, q: nat, depth: nat, limit: nat)
    requires Terminated(s) && p <= q < |s| && s[q] == RCURLY && depth <= limit
    requires forall i :: p <= i < q ==> White(s[i])
    ensures MembersLoop(s, p, depth, limit, []) == Ok([], q + 1)
  {}

  lemma PairSkipsWhite(s: Text, p: nat, depth: nat, limit: nat)
    requires Terminated(s) && p < |s| && depth <= limit
    ensures ParsePair(s, SkipWhite(s, p), depth, limit) == ParsePair(s, p, depth, limit)
    ensures ParsePair(s, p, depth, limit).Ok? ==> s[SkipWhite(s, p)] == QUOTE
  {
    hide ParseString, ParseValue;
    assert SkipWhite(s, SkipWhite(s, p)) == SkipWhite(s, p);
  }

  lemma StartMembers(s: Text, p: nat, depth: nat, limit: nat)
    requires Terminated(s) && p < |s| && depth <= limit
    requires ParsePair(s, p, depth, limit).Ok?
    ensures var m := ParsePair(s, p, depth, limit);
            MembersLoop(s, p, depth, limit, [])
            == MembersLoop(s, m.next, depth, limit, Define([], m.value.key, m.value.value))
  {
    hide ParsePair, Define;
    PairSkipsWhite(s, p, depth, limit);
  }

  lemma {:induction false} PairComplete(pair: Pair, s: Text, p: nat, depth: nat, limit: nat)
    requires Terminated(s) && ValidPair(pair) && At(s, p, RenderPair(pair)) && p + |RenderPair(pair)| < |s|
    requires !White(s[p + |RenderPair(pair)|]) && !NumberByte(s[p + |RenderPair(pair)|])
    requires depth + Depth(pair.value) <= limit
    ensures ParsePair(s, p, depth, limit)
            == Ok(Member(CharsBytes(pair.key), Meaning(pair.value)), p + |RenderPair(pair)|)
    decreases pair, 3
  {
    hide Valid, ValidChars, Render, RenderChars, Meaning, Depth, ParseValue, ParseString, CharsBytes, ParsePair;
    hide RenderPair, Quoted;
    PairPlaces(pair, s, p);
    var q := p + |pair.lead|;
    var e := q + |Quoted(pair.key)|;
    StringComplete(pair.key, s, q + 1);
    ValueComplete(pair.value, s, e + |pair.mid| + 1, depth, limit);
    PairUnfold(s, p, q, e + |pair.mid|, depth, limit);
  }

  lemma PairUnfold(s: Text, p: nat, q: nat, c: nat, depth: nat, limit: nat)
    requires Terminated(s) && depth <= limit && p <= q < c < |s| && s[q] == QUOTE && s[c] == COLON
    requires forall i :: p <= i < q ==> White(s[i])
    requires var k := ParseString(s, q + 1); k.Ok? && k.next <= c && (forall i :: k.next <= i < c ==> White(s[i]))
    requires ParseValue(s, c + 1, depth, limit).Ok?
    ensures var v := ParseValue(s, c + 1, depth, limit);
            ParsePair(s, p, depth, limit) == Ok(Member(ParseString(s, q + 1).value, v.value), v.next)
  {
    hide ParseString, ParseValue;
    assert SkipWhite(s, p) == q;
    assert SkipWhite(s, ParseString(s, q + 1).next) == c;
  }

  /** Where the parts of a member stand. */
  lemma PairPlaces(pair: Pair, s: Text, p: nat)
    requires ValidPair(pair) && At(s, p, RenderPair(pair))
    ensures var q, e := p + |pair.lead|, p + |pair.lead| + |Quoted(pair.key)|;
            && |Quoted(pair.key)| == |RenderChars(pair.key)| + 2
            && |RenderPair(pair)| == |pair.lead| + |Quoted(pair.key)| + |pair.mid| + 1 + |Render(pair.value)|
            && (forall i :: p <= i < q ==> White(s[i]))
            && q < |s| && s[q] == QUOTE && At(s, q + 1, RenderChars(pair.key) + [QUOTE])
            && e + |pair.mid| < |s| && s[e + |pair.mid|] == COLON && (forall i :: e <= i < e + |pair.mid| ==> White(s[i]))
            && At(s, e + |pair.mid| + 1, Render(pair.value))
  {
    hide Valid, ValidChars, Render, RenderChars, Depth;
    var lead, quoted, mid, value := pair.lead, Quoted(pair.key), pair.mid, Render(pair.value);
    AtAppend(s, p, lead + quoted + mid + [COLON], value);
    AtAppend(s, p, lead + quoted + mid, [COLON]);
    AtAppend(s, p, lead + quoted, mid);
    AtAppend(s, p, lead, quoted);
    Assoc([QUOTE], RenderChars(pair.key), [QUOTE]);
    AtAppend(s, p + |lead|, [QUOTE], RenderChars(pair.key) + [QUOTE]);
    AtOne(s, p + |lead|, QUOTE);
    AtOne(s, p + |lead| + |quoted| + |mid|, COLON);
    WhiteAt(s, p, lead);
    WhiteAt(s, p + |lead| + |quoted|, mid);
  }

  lemma AfterPair(rest: seq<Pair>, s: Text, r: nat)
    requires At(s, r, RenderPairs(rest)) && r + |RenderPairs(rest)| < |s| && s[r + |RenderPairs(rest)|] == RCURLY
    ensures r < |s| && (if rest == [] then s[r] == RCURLY else s[r] == COMMA)
  {
    hide RenderPair;
    if rest != [] { AtIndex(s, r, RenderPairs(rest), 0); }
  }

  lemma {:induction false} FirstPair(pairs: seq<Pair>, s: Text, p: nat, depth: nat, limit: nat)
    requires pairs != [] && Terminated(s) && (forall i :: 0 <= i < |pairs| ==> ValidPair(pairs[i]))
    requires At(s, p, RenderPair(pairs[0]) + RenderPairs(pairs[1..]))
    requires var e := p + |RenderPair(pairs[0])| + |RenderPairs(pairs[1..])|; e + 1 < |s| && s[e] == RCURLY
    requires depth + PairsDepth(pairs) <= limit
    ensures MembersLoop(s, p, depth, limit, [])
            == Ok(PairsMeaning([], pairs), p + |RenderPair(pairs[0])| + |RenderPairs(pairs[1..])| + 1)
    decreases pairs, 1
  {
    hide ValidPair, ParsePair, PairsMeaning, Meaning, Depth, CharsBytes, Define, MembersLoop;
    var first, rest := pairs[0], pairs[1..];
    var r := p + |RenderPair(first)|;
    AtAppend(s, p, RenderPair(first), RenderPairs(rest));
    AfterPair(rest, s, r);
    PairComplete(first, s, p, depth, limit);
    var ms := Define([], CharsBytes(first.key), Meaning(first.value));
    PairsComplete(rest, s, r, depth, limit, ms);
    StartMembers(s, p, depth, limit);
    PairsMeaningCons([], pairs);
  }

  lemma PairsMeaningCons(ms: seq<Member>, pairs: seq<Pair>)
    requires pairs != []
    ensures PairsMeaning(ms, pairs)
            == PairsMeaning(Define(ms, CharsBytes(pairs[0].key), Meaning(pairs[0].value)), pairs[1..])
  {}

  lemma {:induction false} PairsComplete(pairs: seq<Pair>, s: Text, p: nat, depth: nat, limit: nat, ms: seq<Member>)
    requires ms != [] && Terminated(s) && (forall i :: 0 <= i < |pairs| ==> ValidPair(pairs[i]))
    requires At(s, p, RenderPairs(pairs))
    requires var e := p + |RenderPairs(pairs)|; e + 1 < |s| && s[e] == RCURLY
    requires depth + PairsDepth(pairs) <= limit
    ensures MembersLoop(s, p, depth, limit, ms) == Ok(PairsMeaning(ms, pairs), p + |RenderPairs(pairs)| + 1)
    decreases pairs, 0
  {
    hide ValidPair, RenderPair, RenderPairs, Meaning, PairsMeaning, Depth, ParsePair, CharsBytes, Define, MembersLoop;
    AfterPair(pairs, s, p);
    if pairs == [] {
      NoPairs(ms);
      MembersEnd(s, p, depth, limit, ms);
    } else {
      var first, rest := pairs[0], pairs[1..];
      PairsPlaces(pairs, s, p);
      PairsMeaningCons(ms, pairs);
      var r := p + 1 + |RenderPair(first)|;
      AfterPair(rest, s, r);
      PairComplete(first, s, p + 1, depth, limit);
      MembersNext(s, p, depth, limit, ms);
      PairsComplete(rest, s, r, depth, limit, Define(ms, CharsBytes(first.key), Meaning(first.value)));
    }
  }

  lemma MembersEnd(s: Text, p: nat, depth: nat, limit: nat, ms: seq<Member>)
    requires Terminated(s) && p < |s| && s[p] == RCURLY && depth <= limit
    ensures MembersLoop(s, p, depth, limit, ms) == Ok(ms, p + 1)
  {
    assert SkipWhite(s, p) == p;
  }

  lemma MembersNext(s: Text, p: nat, depth: nat, limit: nat, ms: seq<Member>)
    requires Terminated(s) && p < |s| && s[p] == COMMA && depth <= limit && ms != []
    requires ParsePair(s, p + 1, depth, limit).Ok?
    ensures var m := ParsePair(s, p + 1, depth, limit);
            MembersLoop(s, p, depth, limit, ms)
            == MembersLoop(s, m.next, depth, limit, Define(ms, m.value.key, m.value.value))
  {
    hide ParsePair, Define;
    assert SkipWhite(s, p) == p;
  }

  // ----- Every accepted text is in the grammar, with the value returned -----

  lemma ChrSound(s: Text, p: nat) returns (c: Chr)
    requires Terminated(s) && p < |s| && s[p] != QUOTE && ParseChr(s, p).Ok?
    ensures ValidChr(c) && At(s, p, RenderChr(c)) && ParseChr(s, p) == Ok(ChrBytes(c), p + |RenderChr(c)|)
  {
    hide Xutf8.Encode, HexValue;
    if s[p] != BACKSLASH {
      c := Raw(s[p]);
    } else if s[p + 1] != 0x75 {
      c := Esc(s[p + 1]);
    } else {
      c := Uni(s[p + 2..p + 6]);
      AtSlice(s, p + 2, p + 6);
      AtAppend(s, p, [BACKSLASH, 0x75], c.hex);
    }
  }

  lemma {:induction false} StringSound(s: Text, p: nat) returns (cs: seq<Chr>)
    requires Terminated(s) && p < |s| && ParseString(s, p).Ok?
    ensures ValidChars(cs) && At(s, p, RenderChars(cs) + [QUOTE])
    ensures ParseString(s, p) == Ok(CharsBytes(cs), p + |RenderChars(cs)| + 1)
    decreases |s| - p
  {
    hide ParseChr, ValidChr, RenderChr, ChrBytes;
    if s[p] == QUOTE {
      cs := [];
      AtOne(s, p, QUOTE);
    } else {
      var c := ChrSound(s, p);
      var rest := StringSound(s, p + |RenderChr(c)|);
      cs := [c] + rest;
      assert cs[1..] == rest;
      AtAppend(s, p, RenderChr(c), RenderChars(rest) + [QUOTE]);
      Assoc(RenderChr(c), RenderChars(rest), [QUOTE]);
    }
  }

  lemma {:induction false} ValueSound(s: Text, p: nat, depth: nat, limit: nat) returns (t: Syntax)
    requires Terminated(s) && p < |s| && depth <= limit && ParseValue(s, p, depth, limit).Ok?
    ensures Valid(t) && At(s, p, Render(t)) && depth + Depth(t) <= limit
    ensures ParseValue(s, p, depth, limit) == Ok(Meaning(t), p + |Render(t)|)
    decreases |s| - p, 2
  {
    hide ParseBody, RenderBody, ValidBody;
    var q := SkipWhite(s, p);
    var b := BodySound(s, q, depth, limit);
    var r := q + |RenderBody(b)|;
    var e := SkipWhite(s, r);
    t := Syntax(s[p..q], b, s[r..e]);
    AtSlice(s, p, q);
    AtSlice(s, r, e);
    AtAppend(s, p, t.lead, RenderBody(b));
    AtAppend(s, p, t.lead + RenderBody(b), t.trail);
  }

  lemma {:induction false} BodySound(s: Text, q: nat, depth: nat, limit: nat) returns (b: Body)
    requires Terminated(s) && q < |s| && depth <= limit && ParseBody(s, q, depth, limit).Ok?
    ensures ValidBody(b) && At(s, q, RenderBody(b)) && depth + Depth(Syntax([], b, [])) <= limit
    ensures ParseBody(s, q, depth, limit) == Ok(Meaning(Syntax([], b, [])), q + |RenderBody(b)|)
    decreases |s| - q, 1
  {
    var x := s[q];
    if x == QUOTE {
      b := QuotedSound(s, q, depth, limit);
    } else if Digit(x) || x == MINUS {
      b := NumberSound(s, q, depth, limit);
    } else if x == LCURLY {
      b := ObjectSound(s, q, depth, limit);
    } else if x == LBRACKET {
      b := ArraySound(s, q, depth, limit);
    } else {
      b := LiteralSound(s, q, depth, limit);
    }
  }

  lemma QuotedSound(s: Text, q: nat, depth: nat, limit: nat) returns (b: Body)
    requires Terminated(s) && q < |s| && depth <= limit && s[q] == QUOTE && ParseBody(s, q, depth, limit).Ok?
    ensures b.StrBody? && ValidBody(b) && At(s, q, RenderBody(b))
    ensures ParseBody(s, q, depth, limit) == Ok(Meaning(Syntax([], b, [])), q + |RenderBody(b)|)
  {
    hide ParseString, CharsBytes, RenderChars, ValidChars;
    var cs := StringSound(s, q + 1);
    b := StrBody(cs);
    AtOne(s, q, QUOTE);
    AtAppend(s, q, [QUOTE], RenderChars(cs) + [QUOTE]);
    Assoc([QUOTE], RenderChars(cs), [QUOTE]);
  }

  lemma NumberSound(s: Text, q: nat, depth: nat, limit: nat) returns (b: Body)
    requires Terminated(s) && q < |s| && depth <= limit && (Digit(s[q]) || s[q] == MINUS)
    requires ParseBody(s, q, depth, limit).Ok?
    ensures b.NumBody? && ValidBody(b) && At(s, q, RenderBody(b))
    ensures ParseBody(s, q, depth, limit) == Ok(Meaning(Syntax([], b, [])), q + |RenderBody(b)|)
  {
    hide NumberOf, RenderNumber, ValidNumber, NumberMeaning;
    AtSlice(s, q, NumberEnd(s, q));
    var n := JsonNumber.TokenSound(s[q..NumberEnd(s, q)]);
    b := NumBody(n);
  }

  lemma LiteralSound(s: Text, q: nat, depth: nat, limit: nat) returns (b: Body)
    requires Terminated(s) && q < |s| && depth <= limit && ParseBody(s, q, depth, limit).Ok?
    requires s[q] != QUOTE && !Digit(s[q]) && s[q] != MINUS && s[q] != LCURLY && s[q] != LBRACKET
    ensures (b.NullBody? || b.BoolBody?) && At(s, q, RenderBody(b))
    ensures ParseBody(s, q, depth, limit) == Ok(Meaning(Syntax([], b, [])), q + |RenderBody(b)|)
  {
    hide ParseLiteral;
    b := if s[q] == 0x74 then BoolBody(true) else if s[q] == 0x66 then BoolBody(false) else NullBody;
    var lit := RenderBody(b);
    AtOne(s, q, lit[0]);
    AtAppend(s, q, [lit[0]], lit[1..]);
    Cons(lit);
  }

  lemma {:induction false} ArraySound(s: Text, q: nat, depth: nat, limit: nat) returns (b: Body)
    requires Terminated(s) && q < |s| && depth <= limit && s[q] == LBRACKET && ParseBody(s, q, depth, limit).Ok?
    ensures b.ArrBody? && ValidBody(b) && At(s, q, RenderBody(b)) && depth + Depth(Syntax([], b, [])) <= limit
    ensures ParseBody(s, q, depth, limit) == Ok(Meaning(Syntax([], b, [])), q + |RenderBody(b)|)
    decreases |s| - q, 0
  {
    hide ItemsLoop, Render, RenderItems, ItemsMeaning, Valid, ItemsDepth;
    var p := q + 1;
    var e := SkipWhite(s, p);
    if s[e] == RBRACKET {
      EmptyItems(s, p, e, depth + 1, limit);
      NoItems();
      b := ArrBody(s[p..e], []);
      AtSlice(s, p, e);
      Bracketed(s, q, LBRACKET, s[p..e], RBRACKET);
    } else {
      var items := ItemsSoundFirst(s, p, depth + 1, limit);
      b := ArrBody([], items);
      Bracketed(s, q, LBRACKET, Render(items[0]) + RenderItems(items[1..]), RBRACKET);
    }
  }

  lemma Bracketed(s: Text, q: nat, open: Byte, content: Text, close: Byte)
    requires q < |s| && s[q] == open && At(s, q + 1, content)
    requires q + 1 + |content| < |s| && s[q + 1 + |content|] == close
    ensures At(s, q, [open] + content + [close])
  {
    AtOne(s, q, open);
    AtOne(s, q + 1 + |content|, close);
    AtAppend(s, q, [open], content);
    AtAppend(s, q, [open] + content, [close]);
  }

  lemma {:induction false} ItemsSoundFirst(s: Text, p: nat, depth: nat, limit: nat) returns (items: seq<Syntax>)
    requires Terminated(s) && p < |s| && depth <= limit
    requires s[SkipWhite(s, p)] != RBRACKET && ItemsLoop(s, p, depth, limit, []).Ok?
    ensures items != [] && (forall i :: 0 <= i < |items| ==> Valid(items[i])) && depth + ItemsDepth(items) <= limit
    ensures At(s, p, Render(items[0]) + RenderItems(items[1..]))
    ensures var e := p + |Render(items[0])| + |RenderItems(items[1..])|;
            e < |s| && s[e] == RBRACKET && ItemsLoop(s, p, depth, limit, []) == Ok(ItemsMeaning(items), e + 1)
    decreases |s| - p, 4
  {
    hide ParseValue, Render, RenderItems, Valid, Meaning, Depth, ItemsMeaning;
    ValueSkipsWhite(s, p, depth, limit);
    StartItems(s, p, depth, limit);
    hide ItemsLoop;
    var first := ValueSound(s, p, depth, limit);
    var r := p + |Render(first)|;
    var rest := ItemsSound(s, r, depth, limit, [Meaning(first)]);
    items := [first] + rest;
    assert items[1..] == rest;
    AtAppend(s, p, Render(first), RenderItems(rest));
    ItemsMeaningCons(items);
  }

  lemma {:induction false} ItemsSound(s: Text, p: nat, depth: nat, limit: nat, acc: seq<Json>) returns (items: seq<Syntax>)
    requires Terminated(s) && p < |s| && depth <= limit && acc != [] && !White(s[p])
    requires ItemsLoop(s, p, depth, limit, acc).Ok?
    ensures (forall i :: 0 <= i < |items| ==> Valid(items[i])) && depth + ItemsDepth(items) <= limit
    ensures At(s, p, RenderItems(items))
    ensures var e := p + |RenderItems(items)|;
            e < |s| && s[e] == RBRACKET && ItemsLoop(s, p, depth, limit, acc) == Ok(acc + ItemsMeaning(items), e + 1)
    decreases |s| - p, 3
  {
    hide ParseValue, Render, RenderItems, Valid, Meaning, Depth, ItemsMeaning;
    assert SkipWhite(s, p) == p;
    if s[p] == RBRACKET {
      items := [];
      NoItems();
      Identity(acc);
    } else {
      ItemsNext(s, p, depth, limit, acc);
      hide ItemsLoop;
      var first := ValueSound(s, p + 1, depth, limit);
      var r := p + 1 + |Render(first)|;
      var rest := ItemsSound(s, r, depth, limit, acc + [Meaning(first)]);
      items := [first] + rest;
      assert items[1..] == rest;
      ItemsAt(s, p, first, rest);
      ItemsMeaningCons(items);
      Assoc(acc, [Meaning(first)], ItemsMeaning(rest));
    }
  }

  lemma ItemsAt(s: Text, p: nat, first: Syntax, rest: seq<Syntax>)
    requires p < |s| && s[p] == COMMA && At(s, p + 1, Render(first))
    requires At(s, p + 1 + |Render(first)|, RenderItems(rest))
    ensures At(s, p, RenderItems([first] + rest))
    ensures |RenderItems([first] + rest)| == 1 + |Render(first)| + |RenderItems(rest)|
  {
    hide Render;
    AtOne(s, p, COMMA);
    AtAppend(s, p, [COMMA], Render(first));
    AtAppend(s, p, [COMMA] + Render(first), RenderItems(rest));
    assert ([first] + rest)[1..] == rest;
  }

  lemma {:induction false} ObjectSound(s: Text, q: nat, depth: nat, limit: nat) returns (b: Body)
    requires Terminated(s) && q < |s| && depth <= limit && s[q] == LCURLY && ParseBody(s, q, depth, limit).Ok?
    ensures b.ObjBody? && ValidBody(b) && At(s, q, RenderBody(b)) && depth + Depth(Syntax([], b, [])) <= limit
    ensures ParseBody(s, q, depth, limit) == Ok(Meaning(Syntax([], b, [])), q + |RenderBody(b)|)
    decreases |s| - q, 0
  {
    hide MembersLoop, RenderPair, RenderPairs, PairsMeaning, ValidPair, PairsDepth;
    var p := q + 1;
    var e := SkipWhite(s, p);
    if s[e] == RCURLY {
      EmptyMembers(s, p, e, depth + 1, limit);
      NoPairs([]);
      b := ObjBody(s[p..e], []);
      AtSlice(s, p, e);
      Bracketed(s, q, LCURLY, s[p..e], RCURLY);
    } else {
      var pairs := PairsSoundFirst(s, p, depth + 1, limit);
      b := ObjBody([], pairs);
      Bracketed(s, q, LCURLY, RenderPair(pairs[0]) + RenderPairs(pairs[1..]), RCURLY);
    }
  }

  lemma {:induction false} PairSound(s: Text, p: nat, depth: nat, limit: nat) returns (pair: Pair)
    requires Terminated(s) && p < |s| && depth <= limit && ParsePair(s, p, depth, limit).Ok?
    ensures ValidPair(pair) && At(s, p, RenderPair(pair)) && depth + Depth(pair.value) <= limit
    ensures ParsePair(s, p, depth, limit)
            == Ok(Member(CharsBytes(pair.key), Meaning(pair.value)), p + |RenderPair(pair)|)
    decreases |s| - p, 3
  {
    hide ParseString, ParseValue, RenderChars, Render, Valid, ValidChars, CharsBytes, Meaning, Depth;
    var q := SkipWhite(s, p);
    var key := StringSound(s, q + 1);
    var e := q + 1 + |RenderChars(key)| + 1;
    var c := SkipWhite(s, e);
    var value := ValueSound(s, c + 1, depth, limit);
    pair := Pair(s[p..q], key, s[e..c], value);
    PairAt(pair, s, p, q, e, c);
  }

  lemma PairAt(pair: Pair, s: Text, p: nat, q: nat, e: nat, c: nat)
    requires p <= q < e <= c < |s| && pair.lead == s[p..q] && pair.mid == s[e..c]
    requires s[q] == QUOTE && At(s, q + 1, RenderChars(pair.key) + [QUOTE]) && e == q + 1 + |RenderChars(pair.key)| + 1
    requires s[c] == COLON && At(s, c + 1, Render(pair.value))
    ensures At(s, p, RenderPair(pair)) && |RenderPair(pair)| == c + 1 - p + |Render(pair.value)|
  {
    hide RenderChars, Render;
    var lead, quoted, mid, value := pair.lead, Quoted(pair.key), pair.mid, Render(pair.value);
    AtSlice(s, p, q);
    AtSlice(s, e, c);
    AtOne(s, q, QUOTE);
    AtOne(s, c, COLON);
    Assoc([QUOTE], RenderChars(pair.key), [QUOTE]);
    AtAppend(s, q, [QUOTE], RenderChars(pair.key) + [QUOTE]);
    AtAppend(s, p, lead, quoted);
    AtAppend(s, p, lead + quoted, mid);
    AtAppend(s, p, lead + quoted + mid, [COLON]);
    AtAppend(s, p, lead + quoted + mid + [COLON], value);
  }

  lemma {:induction false} PairsSoundFirst(s: Text, p: nat, depth: nat, limit: nat) returns (pairs: seq<Pair>)
    requires Terminated(s) && p < |s| && depth <= limit
    requires s[SkipWhite(s, p)] != RCURLY && MembersLoop(s, p, depth, limit, []).Ok?
    ensures pairs != [] && (forall i :: 0 <= i < |pairs| ==> ValidPair(pairs[i])) && depth + PairsDepth(pairs) <= limit
    ensures At(s, p, RenderPair(pairs[0]) + RenderPairs(pairs[1..]))
    ensures var e := p + |RenderPair(pairs[0])| + |RenderPairs(pairs[1..])|;
            e < |s| && s[e] == RCURLY && MembersLoop(s, p, depth, limit, []) == Ok(PairsMeaning([], pairs), e + 1)
    decreases |s| - p, 5
  {
    hide ParsePair, RenderPair, RenderPairs, ValidPair, Meaning, Depth, PairsMeaning, CharsBytes, Define;
    PairSkipsWhite(s, p, depth, limit);
    StartMembers(s, p, depth, limit);
    hide MembersLoop;
    var first := PairSound(s, p, depth, limit);
    var r := p + |RenderPair(first)|;
    var ms := Define([], CharsBytes(first.key), Meaning(first.value));
    var rest := PairsSound(s, r, depth, limit, ms);
    pairs := [first] + rest;
    assert pairs[1..] == rest;
    AtAppend(s, p, RenderPair(first), RenderPairs(rest));
    PairsMeaningCons([], pairs);
  }

  lemma {:induction false} PairsSound(s: Text, p: nat, depth: nat, limit: nat, ms: seq<Member>) returns (pairs: seq<Pair>)
    requires Terminated(s) && p < |s| && depth <= limit && ms != [] && !White(s[p])
    requires MembersLoop(s, p, depth, limit, ms).Ok?
    ensures (forall i :: 0 <= i < |pairs| ==> ValidPair(pairs[i])) && depth + PairsDepth(pairs) <= limit
    ensures At(s, p, RenderPairs(pairs))
    ensures var e := p + |RenderPairs(pairs)|;
            e < |s| && s[e] == RCURLY && MembersLoop(s, p, depth, limit, ms) == Ok(PairsMeaning(ms, pairs), e + 1)
    decreases |s| - p, 4
  {
    hide ParsePair, RenderPair, RenderPairs, ValidPair, Meaning, Depth, PairsMeaning, CharsBytes, Define;
    assert SkipWhite(s, p) == p;
    if s[p] == RCURLY {
      pairs := [];
      NoPairs(ms);
    } else {
      MembersNext(s, p, depth, limit, ms);
      hide MembersLoop;
      var first := PairSound(s, p + 1, depth, limit);
      var r := p + 1 + |RenderPair(first)|;
      var rest := PairsSound(s, r, depth, limit, Define(ms, CharsBytes(first.key), Meaning(first.value)));
      pairs := [first] + rest;
      assert pairs[1..] == rest;
      PairsAt(s, p, first, rest);
      PairsMeaningCons(ms, pairs);
    }
  }

  lemma PairsAt(s: Text, p: nat, first: Pair, rest: seq<Pair>)
    requires p < |s| && s[p] == COMMA && At(s, p + 1, RenderPair(first))
    requires At(s, p + 1 + |RenderPair(first)|, RenderPairs(rest))
    ensures At(s, p, RenderPairs([first] + rest))
    ensures |RenderPairs([first] + rest)| == 1 + |RenderPair(first)| + |RenderPairs(rest)|
  {
    hide RenderPair;
    AtOne(s, p, COMMA);
    AtAppend(s, p, [COMMA], RenderPair(first));
    AtAppend(s, p, [COMMA] + RenderPair(first), RenderPairs(rest));
    assert ([first] + rest)[1..] == rest;
  }

  // ----- JSON.parse() -----

  /** t is a way to read the text as the JSON value v, nested no deeper than the limit. */
  ghost predicate Reads(t: Syntax, text: Text, v: Json, limit: nat) {
    Valid(t) && Render(t) == text && Meaning(t) == v && Depth(t) <= limit
  }

  /** The parser accepts a text with a value exactly when the grammar reads the text as that value. */
  lemma ParseIsGrammar(text: Text, limit: nat, v: Json)
    ensures ParseText(text, limit) == Ok(v, |text|) <==> exists t: Syntax :: Reads(t, text, v, limit)
  {
    hide ParseValue, Valid, Render, Meaning, Depth;
    var s := text + [0];
    if ParseText(text, limit) == Ok(v, |text|) {
      var t := ValueSound(s, 0, 0, limit);
      assert s[0..|text|] == text;
      assert Reads(t, text, v, limit);
    }
    if t: Syntax :| Reads(t, text, v, limit) {
      assert s[0..|text|] == text;
      ValueComplete(t, s, 0, 0, limit);
    }
  }
}
