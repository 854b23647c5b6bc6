/** The circular dictionary of [MS-OXRTFCP] section 2.1.3.1.4 as a value, and its view as a flat history. */
module LzDictionary {
  import opened Wire

  const SIZE := 4096
  const MAX_MATCH := 17

  datatype Ring = Ring(buffer: bytes, write: nat, end: nat)
  {
    predicate Valid() {
      |buffer| == SIZE && write < SIZE && end <= SIZE
    }

    function Add(b: byte): (r: Ring)
      requires Valid()
      ensures r.Valid()
    {
      Ring(buffer[write := b], (write + 1) % SIZE, if end < SIZE then end + 1 else end)
    }
  }

  /** The dictionary after the bytes of `s` were added one by one. */
  function AddAll(r: Ring, s: bytes): (r': Ring)
    requires r.Valid()
    ensures r'.Valid()
  {
    if s == [] then r else AddAll(r, s[..|s| - 1]).Add(s[|s| - 1])
  }

  /** The dictionary position `d` places past the write offset `w`. */
  function Slot(w: nat, d: nat): (p: nat)
    ensures p < SIZE
  {
    (w + d) % SIZE
  }

  lemma ModIs(x: int, q: int, m: nat)
    requires x == q * SIZE + m && m < SIZE
    ensures x % SIZE == m
  {
  }

  lemma SlotIs(w: nat, d: nat)
    requires w < SIZE && d <= SIZE
    ensures Slot(w, d) == if w + d < SIZE then w + d else w + d - SIZE
  {
  }

  lemma SlotInjective(w: nat, a: nat, b: nat)
    requires a < SIZE && b < SIZE && Slot(w, a) == Slot(w, b)
    ensures a == b
  {
  }

  lemma SlotZero(w: nat)
    requires w < SIZE
    ensures Slot(w, 0) == w
  {
  }

  lemma SlotNext(w: nat, d: nat)
    ensures Slot(w, d + 1) == (Slot(w, d) + 1) % SIZE
  {
  }

  lemma AddAllSnoc(r: Ring, s: bytes, b: byte)
    requires r.Valid()
    ensures AddAll(r, s + [b]) == AddAll(r, s).Add(b)
  {
    assert (s + [b])[..|s|] == s;
  }

  lemma {:induction false} AddAllConcat(r: Ring, s: bytes, t: bytes)
    requires r.Valid()
    ensures AddAll(r, s + t) == AddAll(AddAll(r, s), t)
    decreases |t|
  {
    if t == [] {
      assert s + t == s;
    } else {
      var u, b := t[..|t| - 1], t[|t| - 1];
      assert s + t == (s + u) + [b];
      AddAllSnoc(r, s + u, b);
      AddAllConcat(r, s, u);
    }
  }

  /** What a short run of additions changes: exactly the slots from the write offset on. */
  lemma {:induction false} AddAllView(r: Ring, s: bytes)
    requires r.Valid() && |s| <= SIZE
    ensures AddAll(r, s).write == Slot(r.write, |s|)
    ensures AddAll(r, s).end == Min(SIZE, r.end + |s|)
    ensures forall d :: 0 <= d < |s| ==> AddAll(r, s).buffer[Slot(r.write, d)] == s[d]
    ensures forall d :: |s| <= d < SIZE ==> AddAll(r, s).buffer[Slot(r.write, d)] == r.buffer[Slot(r.write, d)]
  {
    if s == [] {
      assert forall d :: 0 <= d < SIZE ==> AddAll(r, s).buffer[Slot(r.write, d)] == r.buffer[Slot(r.write, d)];
    } else {
      var u, b := s[..|s| - 1], s[|s| - 1];
      AddAllView(r, u);
      var mid, last := AddAll(r, u), AddAll(r, s);
      assert last == mid.Add(b);
      hide AddAll, Slot;
      SlotNext(r.write, |u|);
      forall d | 0 <= d < SIZE
        ensures last.buffer[Slot(r.write, d)] == if d == |u| then b else mid.buffer[Slot(r.write, d)]
      {
        AddAt(mid, b, r.write, |u|, d);
      }
    }
  }

  lemma AddAt(r: Ring, b: byte, start: nat, n: nat, d: nat)
    requires r.Valid() && start < SIZE && n < SIZE && d < SIZE && r.write == Slot(start, n)
    ensures r.Add(b).buffer[Slot(start, d)] == if d == n then b else r.buffer[Slot(start, d)]
  {
    if d != n && Slot(start, d) == r.write {
      SlotInjective(start, d, n);
    }
  }

  lemma AddAllAt(r: Ring, s: bytes, d: nat)
    requires r.Valid() && |s| <= SIZE && d < SIZE
    ensures AddAll(r, s).buffer[Slot(r.write, d)] == if d < |s| then s[d] else r.buffer[Slot(r.write, d)]
  {
    AddAllView(r, s);
  }

  // --- the flat history -------------------------------------------------------

  /** Marks the history indices the quantifier in `Represents` is used at, so that the verifier only looks there. */
  ghost predicate At(k: int) {
    true
  }

  /** The dictionary holds the last SIZE bytes of `h`, each at its index modulo SIZE. */
  ghost predicate Represents(r: Ring, h: bytes) {
    && r.Valid()
    && r.write == |h| % SIZE
    && r.end == Min(|h|, SIZE)
    && forall k {:trigger At(k)} :: At(k) && 0 <= k < |h| && |h| - SIZE <= k ==> r.buffer[k % SIZE] == h[k]
  }

  lemma HistoryAt(r: Ring, h: bytes, k: nat)
    requires Represents(r, h) && k < |h| && |h| - SIZE <= k
    ensures r.buffer[k % SIZE] == h[k]
  {
    assert At(k);
  }

  lemma ModNext(a: int)
    requires 0 <= a
    ensures (a % SIZE + 1) % SIZE == (a + 1) % SIZE
  {
  }

  lemma ModApart(a: int, b: int)
    requires 0 <= a < b < a + SIZE
    ensures a % SIZE != b % SIZE
  {
  }

  lemma RepresentsAdd(r: Ring, h: bytes, b: byte)
    requires Represents(r, h)
    ensures Represents(r.Add(b), h + [b])
  {
    var h' := h + [b];
    forall k {:trigger At(k)} | At(k) && 0 <= k < |h'| && |h'| - SIZE <= k
      ensures r.Add(b).buffer[k % SIZE] == h'[k]
    {
      if k < |h| {
        HistoryAt(r, h, k);
        ModApart(k, |h|);
      }
    }
  }

  lemma {:induction false} RepresentsAddAll(r: Ring, h: bytes, s: bytes)
    requires Represents(r, h)
    ensures Represents(AddAll(r, s), h + s)
  {
    if s == [] {
      assert h + s == h;
    } else {
      var u, b := s[..|s| - 1], s[|s| - 1];
      RepresentsAddAll(r, h, u);
      RepresentsAdd(AddAll(r, u), h + u, b);
      assert h + s == (h + u) + [b];
    }
  }

  /** How far back from the end of an `n`-byte history the dictionary position `offset` lies. */
  function Distance(n: nat, offset: nat): (d: nat)
    requires offset < SIZE
    ensures d < SIZE
    ensures d == 0 <==> offset == n % SIZE
    ensures offset < Min(n, SIZE) ==> d <= n && (n - d) % SIZE == offset
  {
    (n - offset) % SIZE
  }

  lemma DistanceIs(n: nat, offset: nat)
    requires offset < SIZE
    ensures Distance(n, offset) == n % SIZE - offset + if offset <= n % SIZE then 0 else SIZE
  {
    var q, w := n / SIZE, n % SIZE;
    if offset <= w {
      ModIs(n - offset, q, w - offset);
    } else {
      ModIs(n - offset, q - 1, w - offset + SIZE);
    }
  }

  /** A written position other than the write offset holds the history byte at its distance. */
  lemma SlotIsHistory(r: Ring, h: bytes, offset: nat)
    requires Represents(r, h) && offset < r.end && offset != r.write
    ensures var d := Distance(|h|, offset); 0 < d <= |h| && r.buffer[offset] == h[|h| - d]
  {
    HistoryAt(r, h, |h| - Distance(|h|, offset));
  }

  /** Stepping `j` positions from `offset` is stepping `j` history bytes from its distance. */
  lemma SlotBack(n: nat, offset: nat, j: nat)
    requires offset < Min(n, SIZE) && j < SIZE
    ensures var d := Distance(n, offset);
            && (j < d ==> Slot(offset, j) == Slot(n % SIZE, SIZE - d + j) == (n - d + j) % SIZE)
            && (j >= d ==> Slot(offset, j) == Slot(n % SIZE, j - d))
  {
    DistanceIs(n, offset);
    var q, w, d := n / SIZE, n % SIZE, Distance(n, offset);
    var p := if offset + j < SIZE then offset + j else offset + j - SIZE;
    ModIs(offset + j, if offset + j < SIZE then 0 else 1, p);
    assert n == q * SIZE + w;
    assert w - d == offset - if offset <= w then 0 else SIZE;
    if j < d {
      ModIs(w + (SIZE - d + j), (w + (SIZE - d + j) - p) / SIZE, p);
      ModIs(n - d + j, (n - d + j - p) / SIZE, p);
    } else {
      ModIs(w + (j - d), (w + (j - d) - p) / SIZE, p);
    }
  }
}
