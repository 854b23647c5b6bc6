/**
 The compressor: greedy tokens from the mutating match search, written in runs. Its dictionary never leaves
 lockstep with the input; whether the reader sees the bytes the search matched is decided token by token.
 */
module LzCompressor {
  import opened Wire
  import opened LzDictionary
  import opened LzSearch
  import opened LzWriter
  import opened LzReader
  import opened LzTokens

  /** The initial dictionary and the input up to the cursor: what the reader has when it is there. */
  function History(initial: bytes, raw: bytes, cursor: nat): (h: bytes)
    requires cursor <= |raw|
    ensures |h| == |initial| + cursor
  {
    initial + raw[..cursor]
  }

  /** The initial dictionary with `raw[..cursor]` added byte by byte. */
  function DictionaryAt(initial: bytes, raw: bytes, cursor: nat): (r: Ring)
    requires 0 < |initial| < SIZE && cursor <= |raw|
    ensures r.Valid()
  {
    AddAll(InitialRing(initial), raw[..cursor])
  }

  lemma DictionaryRepresents(initial: bytes, raw: bytes, cursor: nat)
    requires 0 < |initial| < SIZE && cursor <= |raw|
    ensures Represents(DictionaryAt(initial, raw, cursor), History(initial, raw, cursor))
  {
    InitialRepresents(initial);
    RepresentsAddAll(InitialRing(initial), initial, raw[..cursor]);
  }

  /** The next token and what is known of it. */
  function TokenAt(initial: bytes, raw: bytes, cursor: nat): (t: Token)
    requires 0 < |initial| < SIZE && cursor < |raw|
    ensures Admissible(|initial| + cursor, t) && Fits(t) && cursor + Size(t) <= |raw|
    ensures t.Literal? ==> t.value == raw[cursor]
  {
    DictionaryRepresents(initial, raw, cursor);
    SearchLockstep(DictionaryAt(initial, raw, cursor), History(initial, raw, cursor), raw, cursor);
    var f := Search(DictionaryAt(initial, raw, cursor), raw, cursor);
    if f.length >= 2 then Reference(f.offset, f.length) else Literal(raw[cursor])
  }

  /** One search adds exactly the bytes of its token: no byte twice, none skipped, whatever tries failed. */
  lemma DictionaryLockstep(initial: bytes, raw: bytes, cursor: nat)
    requires 0 < |initial| < SIZE && cursor < |raw|
    ensures Search(DictionaryAt(initial, raw, cursor), raw, cursor).ring
         == DictionaryAt(initial, raw, cursor + Size(TokenAt(initial, raw, cursor)))
  {
    hide Search, AddAll, Winner, FirstLongest, Represents;
    var r := DictionaryAt(initial, raw, cursor);
    DictionaryRepresents(initial, raw, cursor);
    SearchLockstep(r, History(initial, raw, cursor), raw, cursor);
    var n := Size(TokenAt(initial, raw, cursor));
    AddAllConcat(InitialRing(initial), raw[..cursor], raw[cursor..cursor + n]);
    assert raw[..cursor] + raw[cursor..cursor + n] == raw[..cursor + n];
  }

  function Greedy(initial: bytes, raw: bytes, cursor: nat): seq<Token>
    requires 0 < |initial| < SIZE && cursor <= |raw|
    decreases |raw| - cursor
  {
    if cursor == |raw| then []
    else
      var t := TokenAt(initial, raw, cursor);
      [t] + Greedy(initial, raw, cursor + Size(t))
  }

  lemma {:induction false} GreedyAdmissible(initial: bytes, raw: bytes, cursor: nat)
    requires 0 < |initial| < SIZE && cursor <= |raw|
    ensures AllAdmissible(|initial| + cursor, Greedy(initial, raw, cursor))
    ensures Sizes(Greedy(initial, raw, cursor)) == |raw| - cursor
    decreases |raw| - cursor
  {
    hide TokenAt, Greedy, Admissible;
    if cursor == |raw| {
      GreedyEnds(initial, raw);
    } else {
      var t := TokenAt(initial, raw, cursor);
      var rest := Greedy(initial, raw, cursor + Size(t));
      GreedyHead(initial, raw, cursor);
      GreedyAdmissible(initial, raw, cursor + Size(t));
      assert ([t] + rest)[1..] == rest;
    }
  }

  lemma GreedyEnds(initial: bytes, raw: bytes)
    requires 0 < |initial| < SIZE
    ensures Greedy(initial, raw, |raw|) == []
  {
  }

  lemma GreedyHead(initial: bytes, raw: bytes, cursor: nat)
    requires 0 < |initial| < SIZE && cursor < |raw|
    ensures var t := TokenAt(initial, raw, cursor);
            Greedy(initial, raw, cursor) == [t] + Greedy(initial, raw, cursor + Size(t))
  {
    hide TokenAt;
  }

  lemma GreedyFits(initial: bytes, raw: bytes, cursor: nat)
    requires 0 < |initial| < SIZE && cursor <= |raw|
    ensures AllFit(Greedy(initial, raw, cursor))
  {
    hide TokenAt;
    GreedyAdmissible(initial, raw, cursor);
    AdmissibleFits(|initial| + cursor, Greedy(initial, raw, cursor));
  }

  // --- which references the reader sees as the search did -----------------------------

  /** The first bytes at distance `d`, as many as the search may have overwritten, are those of the input. */
  predicate Untouched(h: bytes, raw: bytes, cursor: nat, d: nat, length: nat)
    requires 0 < d <= |h| && d < SIZE && cursor + length <= |raw| && length <= MAX_MATCH
  {
    var stale := length - 1 - (SIZE - d);
    0 < stale ==> h[|h| - d..|h| - d + stale] == raw[cursor..cursor + stale]
  }

  /**
   A reference far enough back never meets a slot its own search has overwritten. One that starts fewer than
   `length - 1` slots ahead of the write offset does, and is right only when the old bytes in those slots
   already are the ones the input has there.
   */
  predicate Clean(initial: bytes, raw: bytes, cursor: nat)
    requires 0 < |initial| < SIZE && cursor < |raw|
  {
    var t := TokenAt(initial, raw, cursor);
    t.Reference? ==> Untouched(History(initial, raw, cursor), raw, cursor, Distance(|initial| + cursor, t.offset), t.length)
  }

  /** Every token from the cursor on is clean. */
  predicate AllClean(initial: bytes, raw: bytes, cursor: nat)
    requires 0 < |initial| < SIZE && cursor <= |raw|
    decreases |raw| - cursor
  {
    cursor == |raw|
    || (Clean(initial, raw, cursor) && AllClean(initial, raw, cursor + Size(TokenAt(initial, raw, cursor))))
  }

  lemma {:induction false} CopyBackIs(h: bytes, d: nat, n: nat, raw: bytes, c: nat)
    requires 0 < d <= |h| && c + n <= |raw|
    requires forall j :: 0 <= j < n ==> FlatRead(h, raw, c, d, j) == raw[c + j]
    ensures CopyBack(h, d, n) == h + raw[c..c + n]
  {
    if n > 0 {
      CopyBackIs(h, d, n - 1, raw, c);
      assert FlatRead(h, raw, c, d, n - 1) == raw[c + n - 1];
      assert raw[c..c + n] == raw[c..c + n - 1] + [raw[c + n - 1]];
    }
  }

  /** What the search compared: the reader's bytes, or slots it had overwritten itself. */
  lemma TokenSees(initial: bytes, raw: bytes, cursor: nat)
    requires 0 < |initial| < SIZE && cursor < |raw|
    ensures var t, h := TokenAt(initial, raw, cursor), History(initial, raw, cursor);
            t.Reference? ==>
              forall j :: 0 <= j < t.length ==> Sees(h, raw, cursor, Distance(|h|, t.offset), t.length, j)
  {
    hide Search, AddAll, FirstLongest, Sees;
    DictionaryRepresents(initial, raw, cursor);
    SearchLockstep(DictionaryAt(initial, raw, cursor), History(initial, raw, cursor), raw, cursor);
  }

  /** A token stands for the input it consumed exactly when it is clean. */
  lemma CleanIffFaithful(initial: bytes, raw: bytes, cursor: nat)
    requires 0 < |initial| < SIZE && cursor < |raw|
    ensures var t := TokenAt(initial, raw, cursor);
            Clean(initial, raw, cursor)
            <==> Apply(History(initial, raw, cursor), t) == History(initial, raw, cursor + Size(t))
  {
    hide TokenAt, Sees, Untouched;
    var t, h := TokenAt(initial, raw, cursor), History(initial, raw, cursor);
    var n := Size(t);
    assert raw[..cursor + n] == raw[..cursor] + raw[cursor..cursor + n];
    ConcatAssociates(initial, raw[..cursor], raw[cursor..cursor + n]);
    assert History(initial, raw, cursor + n) == h + raw[cursor..cursor + n];
    if t.Reference? {
      var d := Distance(|h|, t.offset);
      TokenSees(initial, raw, cursor);
      UntouchedIffCopied(h, raw, cursor, d, n);
    } else {
      assert raw[cursor..cursor + 1] == [raw[cursor]];
    }
  }

  lemma UntouchedIffCopied(h: bytes, raw: bytes, c: nat, d: nat, n: nat)
    requires 0 < d <= |h| && d < SIZE && c + n <= |raw| && n <= MAX_MATCH
    requires forall j :: 0 <= j < n ==> Sees(h, raw, c, d, n, j)
    ensures Untouched(h, raw, c, d, n) <==> CopyBack(h, d, n) == h + raw[c..c + n]
  {
    hide Sees, CopyBack, Untouched;
    if Untouched(h, raw, c, d, n) {
      UntouchedIsCopied(h, raw, c, d, n);
    }
    if CopyBack(h, d, n) == h + raw[c..c + n] {
      CopiedIsUntouched(h, raw, c, d, n);
    }
  }

  lemma UntouchedIsCopied(h: bytes, raw: bytes, c: nat, d: nat, n: nat)
    requires 0 < d <= |h| && d < SIZE && c + n <= |raw| && n <= MAX_MATCH
    requires forall j :: 0 <= j < n ==> Sees(h, raw, c, d, n, j)
    requires Untouched(h, raw, c, d, n)
    ensures CopyBack(h, d, n) == h + raw[c..c + n]
  {
    hide CopyBack;
    var stale := n - 1 - (SIZE - d);
    forall j | 0 <= j < n
      ensures FlatRead(h, raw, c, d, j) == raw[c + j]
    {
      assert Sees(h, raw, c, d, n, j);
      if j < stale {
        var held, wanted := h[|h| - d..|h| - d + stale], raw[c..c + stale];
        assert held[j] == h[|h| - d + j] && wanted[j] == raw[c + j];
      }
    }
    CopyBackIs(h, d, n, raw, c);
  }

  lemma CopiedIsUntouched(h: bytes, raw: bytes, c: nat, d: nat, n: nat)
    requires 0 < d <= |h| && d < SIZE && c + n <= |raw| && n <= MAX_MATCH
    requires CopyBack(h, d, n) == h + raw[c..c + n]
    ensures Untouched(h, raw, c, d, n)
  {
    hide CopyBack;
    CopiedIsRead(h, d, n, raw, c);
    var stale := n - 1 - (SIZE - d);
    if 0 < stale {
      var held, wanted := h[|h| - d..|h| - d + stale], raw[c..c + stale];
      forall j | 0 <= j < stale
        ensures held[j] == wanted[j]
      {
        assert held[j] == FlatRead(h, raw, c, d, j) && wanted[j] == raw[c + j];
      }
      assert held == wanted;
    }
  }

  lemma CopiedIsRead(h: bytes, d: nat, n: nat, raw: bytes, c: nat)
    requires 0 < d <= |h| && c + n <= |raw| && CopyBack(h, d, n) == h + raw[c..c + n]
    ensures forall j :: 0 <= j < n ==> FlatRead(h, raw, c, d, j) == raw[c + j]
  {
    var r := CopyBack(h, d, n);
    forall j | 0 <= j < n
      ensures FlatRead(h, raw, c, d, j) == raw[c + j]
    {
      assert r[|h| + j] == r[|h| + j - d];
    }
  }

  /** The tokens expand to the input exactly when all of them are clean. */
  lemma {:induction false} GreedyExpands(initial: bytes, raw: bytes, cursor: nat)
    requires 0 < |initial| < SIZE && cursor <= |raw|
    requires AllAdmissible(|initial| + cursor, Greedy(initial, raw, cursor))
    ensures Expand(History(initial, raw, cursor), Greedy(initial, raw, cursor)) == initial + raw
            <==> AllClean(initial, raw, cursor)
    decreases |raw| - cursor
  {
    hide TokenAt, Greedy, AllClean, Clean, Apply, Expand, Admissible, History;
    var h, toks := History(initial, raw, cursor), Greedy(initial, raw, cursor);
    if cursor == |raw| {
      GreedyEnds(initial, raw);
      ExpandNothing(h);
      CleanEnds(initial, raw);
      assert raw[..|raw|] == raw;
      PrefixOfInput(initial, raw, cursor, initial + raw);
    } else {
      var t := TokenAt(initial, raw, cursor);
      var next := cursor + Size(t);
      GreedyHead(initial, raw, cursor);
      CleanHead(initial, raw, cursor);
      assert toks[1..] == Greedy(initial, raw, next);
      GreedyExpands(initial, raw, next);
      CleanIffFaithful(initial, raw, cursor);
      ExpandHead(h, toks);
      if Expand(h, toks) == initial + raw {
        PrefixOfInput(initial, raw, next, Apply(h, t));
      }
    }
  }

  lemma ExpandNothing(h: bytes)
    ensures Expand(h, []) == h
  {
  }

  lemma CleanEnds(initial: bytes, raw: bytes)
    requires 0 < |initial| < SIZE
    ensures AllClean(initial, raw, |raw|)
  {
  }

  lemma CleanHead(initial: bytes, raw: bytes, cursor: nat)
    requires 0 < |initial| < SIZE && cursor < |raw|
    ensures AllClean(initial, raw, cursor)
            <==> Clean(initial, raw, cursor)
                 && AllClean(initial, raw, cursor + Size(TokenAt(initial, raw, cursor)))
  {
    hide TokenAt, Clean;
  }

  lemma PrefixOfInput(initial: bytes, raw: bytes, next: nat, g: bytes)
    requires next <= |raw| && |g| == |initial| + next && g <= initial + raw
    ensures g == History(initial, raw, next)
  {
    assert (initial + raw)[..|initial| + next] == initial + raw[..next];
  }

  // --- two conditions a caller can read off the input or the stream ------------------------

  /** Each reference names a slot at least `length - 1` ahead of the write offset. */
  predicate FarAhead(initial: bytes, raw: bytes, cursor: nat)
    requires 0 < |initial| < SIZE && cursor <= |raw|
    decreases |raw| - cursor
  {
    cursor == |raw|
    || (var t := TokenAt(initial, raw, cursor);
        && (t.Reference? ==> (t.offset - (|initial| + cursor)) % SIZE >= t.length - 1)
        && FarAhead(initial, raw, cursor + Size(t)))
  }

  lemma FarAheadTokenIsClean(initial: bytes, raw: bytes, cursor: nat)
    requires 0 < |initial| < SIZE && cursor < |raw|
    requires var t := TokenAt(initial, raw, cursor);
             t.Reference? ==> (t.offset - (|initial| + cursor)) % SIZE >= t.length - 1
    ensures Clean(initial, raw, cursor)
  {
    hide TokenAt;
    var t := TokenAt(initial, raw, cursor);
    if t.Reference? {
      AheadIsBack(|initial| + cursor, t.offset);
    }
  }

  lemma AheadIsBack(n: nat, offset: nat)
    requires offset < SIZE && offset != n % SIZE
    ensures (offset - n) % SIZE == SIZE - Distance(n, offset)
  {
  }

  lemma {:induction false} FarAheadIsClean(initial: bytes, raw: bytes, cursor: nat)
    requires 0 < |initial| < SIZE && cursor <= |raw| && FarAhead(initial, raw, cursor)
    ensures AllClean(initial, raw, cursor)
    decreases |raw| - cursor
  {
    hide TokenAt;
    if cursor < |raw| {
      FarAheadTokenIsClean(initial, raw, cursor);
      FarAheadIsClean(initial, raw, cursor + Size(TokenAt(initial, raw, cursor)));
    }
  }

  /** An input that never wraps the dictionary satisfies the condition. */
  lemma {:induction false} UnwrappedIsFarAhead(initial: bytes, raw: bytes, cursor: nat)
    requires 0 < |initial| && cursor <= |raw| && |initial| + |raw| <= SIZE && |initial| < SIZE
    ensures FarAhead(initial, raw, cursor)
    decreases |raw| - cursor
  {
    hide TokenAt;
    if cursor < |raw| {
      UnwrappedIsFarAhead(initial, raw, cursor + Size(TokenAt(initial, raw, cursor)));
    }
  }
}
