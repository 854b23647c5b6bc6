/**
 The match search of [MS-OXRTFCP] section 2.3.3.2.1 as functions on dictionary values: the exhaustive scan,
 one candidate offset after another, which adds a byte the moment it extends the best match so far.
 */
module LzSearch {
  import opened Wire
  import opened LzDictionary

  datatype Tried = Tried(length: nat, ring: Ring)
  datatype Found = Found(offset: nat, length: nat, ring: Ring)

  /** The longest match `data[cursor..]` allows. */
  function Cap(data: bytes, cursor: nat): nat
    requires cursor <= |data|
  {
    Min(MAX_MATCH, |data| - cursor)
  }

  /** TryMatch from its loop head: `length` bytes already match and `position` is compared next. */
  function Try(r: Ring, data: bytes, cursor: nat, position: nat, length: nat, best: nat): (t: Tried)
    requires r.Valid() && position < SIZE && cursor <= |data| && length <= Cap(data, cursor)
    ensures t.ring.Valid() && length <= t.length <= Cap(data, cursor)
    decreases Cap(data, cursor) - length
  {
    if length < Cap(data, cursor) && r.buffer[position] == data[cursor + length] then
      Try(if length + 1 > best then r.Add(data[cursor + length]) else r,
          data, cursor, (position + 1) % SIZE, length + 1, best)
    else
      Tried(length, r)
  }

  /** The candidates the scan still has before it is back at `final`. */
  function Remaining(offset: nat, final: nat): nat
  {
    (final + SIZE - 1 - offset) % SIZE
  }

  /** The scan from candidate `offset` on, with the best match so far. */
  function Scan(r: Ring, data: bytes, cursor: nat, offset: nat, final: nat, bestOffset: nat, best: nat): (f: Found)
    requires r.Valid() && offset < SIZE && final < SIZE && cursor <= |data| && best <= Cap(data, cursor)
    ensures f.ring.Valid() && best <= f.length <= Cap(data, cursor)
    decreases Remaining(offset, final)
  {
    var t := Try(r, data, cursor, offset, 0, best);
    var better := t.length > best;
    var bo, bl := if better then offset else bestOffset, if better then t.length else best;
    var next := (offset + 1) % SIZE;
    if next == final || bl == MAX_MATCH then Found(bo, bl, t.ring)
    else Scan(t.ring, data, cursor, next, final, bo, bl)
  }

  function FirstCandidate(r: Ring): (o: nat)
    ensures o < SIZE
  {
    if r.end != SIZE then 0 else (r.write + 1) % SIZE
  }

  function Search(r: Ring, data: bytes, cursor: nat): (f: Found)
    requires r.Valid() && cursor < |data|
    ensures f.ring.Valid() && f.length <= Cap(data, cursor)
  {
    var f := Scan(r, data, cursor, FirstCandidate(r), r.write, 0, 0);
    if f.length == 0 then f.(ring := f.ring.Add(data[cursor])) else f
  }

  // --- skipping candidates whose first byte differs ------------------------------

  lemma MismatchIsNoTry(r: Ring, data: bytes, cursor: nat, offset: nat, best: nat)
    requires r.Valid() && offset < SIZE && cursor < |data| && best <= Cap(data, cursor)
    requires r.buffer[offset] != data[cursor]
    ensures Try(r, data, cursor, offset, 0, best) == Tried(0, r)
  {
  }

  lemma RemainingIs(offset: nat, final: nat)
    requires offset < SIZE && final < SIZE
    ensures Remaining(offset, final) == if offset < final then final - 1 - offset else final + SIZE - 1 - offset
  {
  }

  lemma RemainingAfter(offset: nat, final: nat, n: nat)
    requires offset < SIZE && final < SIZE && n <= Remaining(offset, final)
    ensures Remaining(Slot(offset, n), final) == Remaining(offset, final) - n
    ensures (offset + 1) % SIZE == Slot(offset, 1)
    ensures Slot(offset, 1) == final <==> Remaining(offset, final) == 0
    ensures Slot(offset, 1) != final ==> Remaining(Slot(offset, 1), final) == Remaining(offset, final) - 1
  {
    SlotIs(offset, n);
    SlotIs(offset, 1);
    RemainingIs(offset, final);
    RemainingIs(Slot(offset, n), final);
    RemainingIs(Slot(offset, 1), final);
  }

  lemma SlotShift(offset: nat, k: nat)
    requires offset < SIZE && k < SIZE
    ensures Slot(Slot(offset, 1), k) == Slot(offset, k + 1)
  {
    SlotIs(offset, 1);
    SlotIs(Slot(offset, 1), k);
    SlotIs(offset, k + 1);
  }

  /** The scan may jump from `offset` over `n` candidates that cannot match. */
  lemma {:induction false} ScanSkips(r: Ring, data: bytes, cursor: nat, offset: nat, final: nat, bo: nat, best: nat, n: nat)
    requires r.Valid() && offset < SIZE && final < SIZE && cursor < |data| && best <= Cap(data, cursor)
    requires best < MAX_MATCH && n <= Remaining(offset, final)
    requires forall k :: 0 <= k < n ==> r.buffer[Slot(offset, k)] != data[cursor]
    ensures Scan(r, data, cursor, offset, final, bo, best) == Scan(r, data, cursor, Slot(offset, n), final, bo, best)
    decreases n
  {
    if n > 0 {
      SlotZero(offset);
      MismatchIsNoTry(r, data, cursor, offset, best);
      var next := Slot(offset, 1);
      RemainingAfter(offset, final, 1);
      forall k | 0 <= k < n
        ensures Slot(next, k) == Slot(offset, k + 1)
      {
        SlotShift(offset, k);
      }
      ScanSkips(r, data, cursor, next, final, bo, best, n - 1);
    } else {
      SlotZero(offset);
    }
  }

  lemma RemainingReaches(offset: nat, final: nat)
    requires offset < SIZE && final < SIZE
    ensures (Slot(offset, Remaining(offset, final)) + 1) % SIZE == final
  {
    RemainingIs(offset, final);
    SlotIs(offset, Remaining(offset, final));
  }

  /** With no match left before `final`, the scan ends with what it has. */
  lemma ScanEnds(r: Ring, data: bytes, cursor: nat, offset: nat, final: nat, bo: nat, best: nat)
    requires r.Valid() && offset < SIZE && final < SIZE && cursor < |data| && best <= Cap(data, cursor)
    requires best < MAX_MATCH
    requires forall k :: 0 <= k <= Remaining(offset, final) ==> r.buffer[Slot(offset, k)] != data[cursor]
    ensures Scan(r, data, cursor, offset, final, bo, best) == Found(bo, best, r)
  {
    var n := Remaining(offset, final);
    ScanSkips(r, data, cursor, offset, final, bo, best, n);
    MismatchIsNoTry(r, data, cursor, Slot(offset, n), best);
    RemainingReaches(offset, final);
  }

  // --- lockstep: the search adds exactly the bytes it consumes ----------------------

  /** The dictionary once the first `n` bytes at the cursor were added. */
  ghost function After(r0: Ring, data: bytes, c: nat, n: nat): (r: Ring)
    requires r0.Valid() && c + n <= |data|
    ensures r.Valid()
  {
    AddAll(r0, data[c..c + n])
  }

  lemma AfterNext(r0: Ring, data: bytes, c: nat, n: nat)
    requires r0.Valid() && c + n < |data|
    ensures After(r0, data, c, n + 1) == After(r0, data, c, n).Add(data[c + n])
  {
    AddAllSnoc(r0, data[c..c + n], data[c + n]);
    assert data[c..c + n] + [data[c + n]] == data[c..c + n + 1];
  }

  /** The byte TryMatch compares at step `j` when `best` bytes were added before it. */
  ghost function Reads(r0: Ring, data: bytes, c: nat, best: nat, offset: nat, j: nat): byte
    requires r0.Valid() && c + Max(j, best) <= |data|
  {
    After(r0, data, c, Max(j, best)).buffer[Slot(offset, j)]
  }

  /** `n` is where a comparison at `offset` stops: every byte before it matches, the one at it does not. */
  ghost predicate Stops(r0: Ring, data: bytes, c: nat, best: nat, offset: nat, n: nat)
    requires r0.Valid() && c <= |data| && best <= Cap(data, c) && n <= Cap(data, c)
  {
    && (forall j :: 0 <= j < n ==> Reads(r0, data, c, best, offset, j) == data[c + j])
    && (n < Cap(data, c) ==> Reads(r0, data, c, best, offset, n) != data[c + n])
  }

  /** One try leaves `r0` with the longer of the two runs added, and stops exactly at the first difference. */
  lemma {:induction false} TryLockstep(r0: Ring, r: Ring, data: bytes, c: nat, offset: nat, length: nat, best: nat)
    requires r0.Valid() && offset < SIZE && c <= |data| && length <= Cap(data, c) && best <= Cap(data, c)
    requires r == After(r0, data, c, Max(length, best))
    requires forall j :: 0 <= j < length ==> Reads(r0, data, c, best, offset, j) == data[c + j]
    ensures var t := Try(r, data, c, Slot(offset, length), length, best);
            && t.ring == After(r0, data, c, Max(t.length, best))
            && Stops(r0, data, c, best, offset, t.length)
    decreases Cap(data, c) - length
  {
    hide After;
    var here := Slot(offset, length);
    assert r.buffer[here] == Reads(r0, data, c, best, offset, length);
    if length < Cap(data, c) && r.buffer[here] == data[c + length] {
      var r' := if length + 1 > best then r.Add(data[c + length]) else r;
      assert r' == After(r0, data, c, Max(length + 1, best)) by {
        if length + 1 > best {
          AfterNext(r0, data, c, length);
        }
      }
      SlotNext(offset, length);
      TryLockstep(r0, r', data, c, offset, length + 1, best);
    }
  }

  // --- the search against the flat history -------------------------------------------

  /** A position a reference may name: written, and not the write offset. */
  ghost predicate Candidate(r0: Ring, o: nat) {
    o < r0.end && o != r0.write && o < SIZE
  }

  /** Byte `j` of a copy from distance `d`: from the history, then from the bytes the copy itself produced. */
  ghost function FlatRead(h: bytes, data: bytes, c: nat, d: nat, j: nat): byte
    requires 0 < d <= |h| && c + j < |data|
  {
    if j < d then h[|h| - d + j] else data[c + j - d]
  }

  /** What a comparison reads: the flat history, except just ahead of the write offset, where earlier tries wrote. */
  lemma ReadAt(r0: Ring, h: bytes, data: bytes, c: nat, best: nat, offset: nat, j: nat)
    requires Represents(r0, h) && Candidate(r0, offset)
    requires best <= MAX_MATCH && j < MAX_MATCH && c + j < |data| && c + best <= |data|
    ensures var d := Distance(|h|, offset);
            Reads(r0, data, c, best, offset, j)
            == if j < d && SIZE - d + j < best then data[c + SIZE - d + j] else FlatRead(h, data, c, d, j)
  {
    hide AddAll, Distance, Slot;
    var d := Distance(|h|, offset);
    var s := data[c..c + Max(j, best)];
    SlotBack(|h|, offset, j);
    if j >= d {
      AddAllAt(r0, s, j - d);
    } else {
      AddAllAt(r0, s, SIZE - d + j);
      HistoryAt(r0, h, |h| - d + j);
    }
  }

  /** The length of the match at distance `d` in the flat history, counted on from `n`. */
  ghost function MatchLength(h: bytes, data: bytes, c: nat, d: nat, n: nat): (m: nat)
    requires 0 < d <= |h| && c <= |data| && n <= Cap(data, c)
    ensures n <= m <= Cap(data, c)
    ensures forall j :: n <= j < m ==> FlatRead(h, data, c, d, j) == data[c + j]
    ensures m < Cap(data, c) ==> FlatRead(h, data, c, d, m) != data[c + m]
    decreases Cap(data, c) - n
  {
    if n < Cap(data, c) && FlatRead(h, data, c, d, n) == data[c + n] then MatchLength(h, data, c, d, n + 1) else n
  }

  /** A match that avoids the overwritten slots: every byte it reads is one the decoder will see. */
  ghost predicate Sees(h: bytes, data: bytes, c: nat, d: nat, length: nat, j: nat)
    requires 0 < d <= |h| && c + length <= |data| && j < length
  {
    FlatRead(h, data, c, d, j) == data[c + j] || (j < d && SIZE - d + j < length - 1)
  }

  /** What is known of the best match (`o`, `length`) of a search from `r0`, which holds history `h`. */
  ghost predicate Winner(r0: Ring, h: bytes, data: bytes, c: nat, o: nat, length: nat)
    requires Represents(r0, h) && c <= |data| && length <= Cap(data, c)
  {
    if length == 0 then o == 0
    else Candidate(r0, o) && forall j :: 0 <= j < length ==> Sees(h, data, c, Distance(|h|, o), length, j)
  }

  /** Distances whose candidates no earlier try of the same search can have touched. */
  const SAFE := SIZE - (MAX_MATCH - 1)

  /** (`o`, `length`) is the first longest match among the safe distances above `low`. */
  ghost predicate FirstLongest(h: bytes, data: bytes, c: nat, low: nat, o: nat, length: nat)
    requires c <= |data| && o < SIZE
  {
    && (forall d :: low < d <= Min(|h|, SAFE) ==> MatchLength(h, data, c, d, 0) <= length)
    && (0 < length && Distance(|h|, o) <= SAFE && 0 < Distance(|h|, o) <= |h| ==>
          && MatchLength(h, data, c, Distance(|h|, o), 0) == length)
    && (0 < length ==>
          forall d :: Distance(|h|, o) < d <= Min(|h|, SAFE) ==> MatchLength(h, data, c, d, 0) < length)
  }

  lemma StopsIsMatchLength(r0: Ring, h: bytes, data: bytes, c: nat, best: nat, offset: nat, n: nat)
    requires Represents(r0, h) && Candidate(r0, offset) && c <= |data|
    requires best < MAX_MATCH && best <= Cap(data, c) && n <= Cap(data, c)
    requires Stops(r0, data, c, best, offset, n) && Distance(|h|, offset) <= SAFE
    ensures n == MatchLength(h, data, c, Distance(|h|, offset), 0)
  {
    var d := Distance(|h|, offset);
    var m := MatchLength(h, data, c, d, 0);
    if m < n {
      ReadAt(r0, h, data, c, best, offset, m);
    } else if n < m {
      ReadAt(r0, h, data, c, best, offset, n);
    }
  }

  lemma StopsSees(r0: Ring, h: bytes, data: bytes, c: nat, best: nat, offset: nat, n: nat)
    requires Represents(r0, h) && Candidate(r0, offset) && c <= |data|
    requires best < n <= Cap(data, c) && Stops(r0, data, c, best, offset, n)
    ensures Winner(r0, h, data, c, offset, n)
  {
    forall j | 0 <= j < n
      ensures Sees(h, data, c, Distance(|h|, offset), n, j)
    {
      ReadAt(r0, h, data, c, best, offset, j);
    }
  }

  /** The candidates from `offset` up to the write offset are all written. */
  ghost predicate InScan(r0: Ring, offset: nat) {
    offset < SIZE && offset != r0.write && (r0.end < SIZE ==> offset < r0.write)
  }

  lemma NextInScan(r0: Ring, h: bytes, offset: nat)
    requires Represents(r0, h) && InScan(r0, offset)
    ensures Candidate(r0, offset) && 0 < Distance(|h|, offset) <= |h|
    ensures var next := (offset + 1) % SIZE;
            if next == r0.write then Distance(|h|, offset) == 1
            else InScan(r0, next) && Distance(|h|, next) == Distance(|h|, offset) - 1
  {
    SlotIs(offset, 1);
    DistanceIs(|h|, offset);
    DistanceIs(|h|, Slot(offset, 1));
  }

  /** One candidate at distance `d` keeps the best-so-far invariant. */
  lemma KeepsFirstLongest(h: bytes, data: bytes, c: nat, offset: nat, bo: nat, best: nat, tried: nat)
    requires c <= |data| && bo < SIZE && offset < SIZE
    requires 0 < Distance(|h|, offset) <= |h|
    requires FirstLongest(h, data, c, Distance(|h|, offset), bo, best)
    requires best > 0 ==> Distance(|h|, bo) > Distance(|h|, offset)
    requires Distance(|h|, offset) <= SAFE ==> tried == MatchLength(h, data, c, Distance(|h|, offset), 0)
    ensures if tried > best then FirstLongest(h, data, c, Distance(|h|, offset) - 1, offset, tried)
            else FirstLongest(h, data, c, Distance(|h|, offset) - 1, bo, best)
  {
  }

  /** Once the maximal match is found the remaining candidates do not matter. */
  lemma MaximalIsLongest(h: bytes, data: bytes, c: nat, low: nat, o: nat, length: nat)
    requires c <= |data| && o < SIZE && length == MAX_MATCH && low < Distance(|h|, o)
    requires FirstLongest(h, data, c, low, o, length)
    ensures FirstLongest(h, data, c, 0, o, length)
  {
  }

  /** The scan adds exactly the bytes it reports, and what it reports is a real and a first longest match. */
  lemma {:induction false} ScanLockstep(r0: Ring, h: bytes, r: Ring, data: bytes, c: nat, offset: nat, bo: nat, best: nat)
    requires Represents(r0, h) && c < |data| && best <= Cap(data, c) && best < MAX_MATCH
    requires InScan(r0, offset) && r == After(r0, data, c, best) && bo < SIZE
    requires Winner(r0, h, data, c, bo, best)
    requires FirstLongest(h, data, c, Distance(|h|, offset), bo, best)
    requires best > 0 ==> Distance(|h|, bo) > Distance(|h|, offset)
    ensures var f := Scan(r, data, c, offset, r0.write, bo, best);
            && f.ring == After(r0, data, c, f.length)
            && f.offset < SIZE
            && Winner(r0, h, data, c, f.offset, f.length)
            && FirstLongest(h, data, c, 0, f.offset, f.length)
    decreases Distance(|h|, offset)
  {
    hide FirstLongest, Winner, After, Stops, InScan;
    NextInScan(r0, h, offset);
    SlotZero(offset);
    TryLockstep(r0, r, data, c, offset, 0, best);
    var t := Try(r, data, c, offset, 0, best);
    if t.length > best {
      StopsSees(r0, h, data, c, best, offset, t.length);
    }
    var d := Distance(|h|, offset);
    if d <= SAFE {
      StopsIsMatchLength(r0, h, data, c, best, offset, t.length);
    }
    KeepsFirstLongest(h, data, c, offset, bo, best, t.length);
    var bo', bl' := if t.length > best then offset else bo, if t.length > best then t.length else best;
    var next := (offset + 1) % SIZE;
    if bl' == MAX_MATCH {
      MaximalIsLongest(h, data, c, d - 1, bo', bl');
    } else if next != r0.write {
      ScanLockstep(r0, h, t.ring, data, c, next, bo', bl');
    }
  }

  lemma FirstInScan(r: Ring, h: bytes)
    requires Represents(r, h) && h != []
    ensures InScan(r, FirstCandidate(r)) && Distance(|h|, FirstCandidate(r)) == Min(|h|, SIZE - 1)
  {
  }

  /**
   The whole search: the dictionary ends with exactly the consumed bytes added (one literal when nothing
   matched), the reported offset is written and never the write offset, and among the safe distances the
   match is the longest one, the farthest back on a tie.
   */
  lemma SearchLockstep(r: Ring, h: bytes, data: bytes, c: nat)
    requires Represents(r, h) && h != [] && c < |data|
    ensures var f := Search(r, data, c);
            && f.ring == After(r, data, c, Max(1, f.length))
            && f.offset < SIZE
            && Winner(r, h, data, c, f.offset, f.length)
            && FirstLongest(h, data, c, 0, f.offset, f.length)
  {
    FirstInScan(r, h);
    assert data[c..c + 0] == [];
    ScanLockstep(r, h, r, data, c, FirstCandidate(r), 0, 0);
    AfterNext(r, data, c, 0);
  }
}
