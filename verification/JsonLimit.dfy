/** The two errors of JSON.parse(): nesting beyond the limit, and text outside the grammar. */
module JsonLimit {
  import opened Bytes
  import opened Seqs
  import opened JsonTree
  import opened JsonParse
  import JsonGrammar

  /**
   * Two limits give the same result unless the smaller one is exceeded,
   * which does not happen to a limit that leaves room for every byte.
   */
  ghost predicate Alike<T>(a: Result<T>, b: Result<T>, roomy: bool) {
    (a == Fail(RangeError) || a == b) && (roomy ==> a != Fail(RangeError))
  }

  ghost predicate Roomy(s: Text, p: nat, depth: nat, limit: nat) {
    depth + |s| <= limit + p
  }

  lemma {:induction false} ValueAlike(s: Text, p: nat, depth: nat, limit: nat, limit2: nat)
    requires Terminated(s) && p < |s| && depth <= limit <= limit2
    ensures Alike(ParseValue(s, p, depth, limit), ParseValue(s, p, depth, limit2), Roomy(s, p, depth, limit))
    decreases |s| - p, 1
  {
    hide ParseBody;
    BodyAlike(s, SkipWhite(s, p), depth, limit, limit2);
  }

  lemma {:induction false} BodyAlike(s: Text, q: nat, depth: nat, limit: nat, limit2: nat)
    requires Terminated(s) && q < |s| && depth <= limit <= limit2
    ensures Alike(ParseBody(s, q, depth, limit), ParseBody(s, q, depth, limit2), Roomy(s, q, depth, limit))
    decreases |s| - q, 0
  {
    hide ParseString, ParseNumber, ParseLiteral, ItemsLoop, MembersLoop;
    if q + 1 < |s| && depth < limit {
      if s[q] == LCURLY {
        MembersAlike(s, q + 1, depth + 1, limit, limit2, []);
      } else if s[q] == LBRACKET {
        ItemsAlike(s, q + 1, depth + 1, limit, limit2, []);
      }
    }
  }

  lemma {:induction false} ItemsAlike(s: Text, p: nat, depth: nat, limit: nat, limit2: nat, items: seq<Json>)
    requires Terminated(s) && p < |s| && depth <= limit <= limit2
    ensures Alike(ItemsLoop(s, p, depth, limit, items), ItemsLoop(s, p, depth, limit2, items), Roomy(s, p, depth, limit))
    decreases |s| - p, 2
  {
    hide ParseValue;
    var q := SkipWhite(s, p);
    if s[q] != RBRACKET && (s[q] == COMMA || items == []) {
      var start := if items != [] then q + 1 else q;
      ValueAlike(s, start, depth, limit, limit2);
      var v := ParseValue(s, start, depth, limit);
      if v.Ok? { ItemsAlike(s, v.next, depth, limit, limit2, items + [v.value]); }
    }
  }

  lemma {:induction false} MembersAlike(s: Text, p: nat, depth: nat, limit: nat, limit2: nat, ms: seq<Member>)
    requires Terminated(s) && p < |s| && depth <= limit <= limit2
    ensures Alike(MembersLoop(s, p, depth, limit, ms), MembersLoop(s, p, depth, limit2, ms), Roomy(s, p, depth, limit))
    decreases |s| - p, 3
  {
    hide ParsePair, Define;
    var q := SkipWhite(s, p);
    if s[q] != RCURLY && (s[q] == COMMA || ms == []) {
      var start := if ms != [] then q + 1 else q;
      PairAlike(s, start, depth, limit, limit2);
      var m := ParsePair(s, start, depth, limit);
      if m.Ok? { MembersAlike(s, m.next, depth, limit, limit2, Define(ms, m.value.key, m.value.value)); }
    }
  }

  lemma {:induction false} PairAlike(s: Text, p: nat, depth: nat, limit: nat, limit2: nat)
    requires Terminated(s) && p < |s| && depth <= limit <= limit2
    ensures Alike(ParsePair(s, p, depth, limit), ParsePair(s, p, depth, limit2), Roomy(s, p, depth, limit))
    decreases |s| - p, 2
  {
    hide ParseString, ParseValue;
    var q := SkipWhite(s, p);
    if s[q] == QUOTE {
      var key := ParseString(s, q + 1);
      if key.Ok? {
        var c := SkipWhite(s, key.next);
        if s[c] == COLON { ValueAlike(s, c + 1, depth, limit, limit2); }
      }
    }
  }

  ghost predicate InGrammar(text: Text) {
    exists t: Syntax :: Valid(t) && Render(t) == text
  }

  /**
   * A text of the grammar is read, or nested beyond the limit, which is a RangeError.
   * Any other text is an error: a SyntaxError, unless it first nests beyond the limit.
   */
  lemma ParseErrors(text: Text, limit: nat)
    ensures InGrammar(text) ==> ParseText(text, limit).Ok? || ParseText(text, limit) == Fail(RangeError)
    ensures !InGrammar(text) ==> ParseText(text, limit).Fail?
    ensures ParseText(text, limit) == Fail(RangeError) ==> limit <= |text|
  {
    hide ParseValue, Valid, Render, Meaning, Depth;
    var s := text + [0];
    var far := limit + |s|;
    ValueAlike(s, 0, 0, limit, far);
    if t: Syntax :| Valid(t) && Render(t) == text {
      var deep := if Depth(t) < far then far else Depth(t);
      ValueAlike(s, 0, 0, limit, deep);
      assert JsonGrammar.Reads(t, text, Meaning(t), deep);
      JsonGrammar.ParseIsGrammar(text, deep, Meaning(t));
    }
    if ParseText(text, limit).Ok? {
      var v := ParseText(text, limit).value;
      JsonGrammar.ParseIsGrammar(text, limit, v);
      var t :| JsonGrammar.Reads(t, text, v, limit);
      assert Valid(t) && Render(t) == text;
    }
  }
}
