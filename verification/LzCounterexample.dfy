/**
 The round trip on the real initial dictionary, and an input it fails for: once the dictionary is full, the
 search can match bytes that an earlier try of the same search wrote just ahead of the write offset.
 */
module LzCounterexample {
  import opened Wire
  import opened LzDictionary
  import opened LzSearch
  import opened LzWriter
  import opened LzTokens
  import opened LzCompressor
  import opened LzCodec

  // The 207 bytes every LZFu dictionary starts with ([MS-OXRTFCP] section 2.1.2.1).
  const ROW0: bytes := [123, 92, 114, 116, 102, 49, 92, 97, 110, 115, 105, 92, 109, 97, 99, 92, 100, 101, 102, 102, 48, 92, 100]
  const ROW1: bytes := [101, 102, 116, 97, 98, 55, 50, 48, 123, 92, 102, 111, 110, 116, 116, 98, 108, 59, 125, 123, 92, 102, 48]
  const ROW2: bytes := [92, 102, 110, 105, 108, 32, 92, 102, 114, 111, 109, 97, 110, 32, 92, 102, 115, 119, 105, 115, 115, 32, 92]
  const ROW3: bytes := [102, 109, 111, 100, 101, 114, 110, 32, 92, 102, 115, 99, 114, 105, 112, 116, 32, 92, 102, 100, 101, 99, 111]
  const ROW4: bytes := [114, 32, 77, 83, 32, 83, 97, 110, 115, 32, 83, 101, 114, 105, 102, 83, 121, 109, 98, 111, 108, 65, 114]
  const ROW5: bytes := [105, 97, 108, 84, 105, 109, 101, 115, 32, 78, 101, 119, 32, 82, 111, 109, 97, 110, 67, 111, 117, 114, 105]
  const ROW6: bytes := [101, 114, 123, 92, 99, 111, 108, 111, 114, 116, 98, 108, 92, 114, 101, 100, 48, 92, 103, 114, 101, 101, 110]
  const ROW7: bytes := [48, 92, 98, 108, 117, 101, 48, 13, 10, 92, 112, 97, 114, 32, 92, 112, 97, 114, 100, 92, 112, 108, 97]
  const ROW8: bytes := [105, 110, 92, 102, 48, 92, 102, 115, 50, 48, 92, 98, 92, 105, 92, 117, 92, 116, 97, 98, 92, 116, 120]
  const INITIAL_DICTIONARY: bytes :=
    (ROW0 + ROW1 + ROW2) + (ROW3 + ROW4 + ROW5) + (ROW6 + ROW7 + ROW8)

  ghost predicate Above(s: bytes, low: byte) {
    forall b :: b in s ==> b > low
  }

  lemma AboveConcat(s: bytes, t: bytes, low: byte)
    requires Above(s, low) && Above(t, low)
    ensures Above(s + t, low)
  {
  }

  lemma RowAbove0()
    ensures Above(ROW0, 9)
  {
    hide ROW1, ROW2, ROW3, ROW4, ROW5, ROW6, ROW7, ROW8;
  }

  lemma RowAbove1()
    ensures Above(ROW1, 9)
  {
    hide ROW0, ROW2, ROW3, ROW4, ROW5, ROW6, ROW7, ROW8;
  }

  lemma RowAbove2()
    ensures Above(ROW2, 9)
  {
    hide ROW0, ROW1, ROW3, ROW4, ROW5, ROW6, ROW7, ROW8;
  }

  lemma RowAbove3()
    ensures Above(ROW3, 9)
  {
    hide ROW0, ROW1, ROW2, ROW4, ROW5, ROW6, ROW7, ROW8;
  }

  lemma RowAbove4()
    ensures Above(ROW4, 9)
  {
    hide ROW0, ROW1, ROW2, ROW3, ROW5, ROW6, ROW7, ROW8;
  }

  lemma RowAbove5()
    ensures Above(ROW5, 9)
  {
    hide ROW0, ROW1, ROW2, ROW3, ROW4, ROW6, ROW7, ROW8;
  }

  lemma RowAbove6()
    ensures Above(ROW6, 9)
  {
    hide ROW0, ROW1, ROW2, ROW3, ROW4, ROW5, ROW7, ROW8;
  }

  lemma RowAbove7()
    ensures Above(ROW7, 9)
  {
    hide ROW0, ROW1, ROW2, ROW3, ROW4, ROW5, ROW6, ROW8;
  }

  lemma RowAbove8()
    ensures Above(ROW8, 9)
  {
    hide ROW0, ROW1, ROW2, ROW3, ROW4, ROW5, ROW6, ROW7;
  }

  lemma InitialDictionary()
    ensures |INITIAL_DICTIONARY| == 207 && Above(INITIAL_DICTIONARY, 9)
  {
    assert |INITIAL_DICTIONARY| == 207;
    RowAbove0();
    RowAbove1();
    RowAbove2();
    RowAbove3();
    RowAbove4();
    RowAbove5();
    RowAbove6();
    RowAbove7();
    RowAbove8();
    hide ROW0, ROW1, ROW2, ROW3, ROW4, ROW5, ROW6, ROW7, ROW8, Above;
    AboveConcat(ROW0, ROW1, 9);
    AboveConcat(ROW0 + ROW1, ROW2, 9);
    AboveConcat(ROW3, ROW4, 9);
    AboveConcat(ROW3 + ROW4, ROW5, 9);
    AboveConcat(ROW6, ROW7, 9);
    AboveConcat(ROW6 + ROW7, ROW8, 9);
    AboveConcat(ROW0 + ROW1 + ROW2, ROW3 + ROW4 + ROW5, 9);
    AboveConcat((ROW0 + ROW1 + ROW2) + (ROW3 + ROW4 + ROW5), ROW6 + ROW7 + ROW8, 9);
  }

  // --- a byte seen for the first time ends every match before it --------------------

  lemma {:induction false} AddAllAvoids(r: Ring, s: bytes, u: byte)
    requires r.Valid() && u !in r.buffer && u !in s
    ensures u !in AddAll(r, s).buffer
  {
    if s != [] {
      AddAllAvoids(r, s[..|s| - 1], u);
    }
  }

  lemma {:induction false} TryAvoids(r: Ring, data: bytes, c: nat, position: nat, length: nat, best: nat, k: nat)
    requires r.Valid() && position < SIZE && c + length <= k < |data| && length <= Cap(data, c)
    requires data[k] !in r.buffer && data[k] !in data[c..k]
    ensures var t := Try(r, data, c, position, length, best);
            c + t.length <= k && data[k] !in t.ring.buffer
    decreases Cap(data, c) - length
  {
    if length < Cap(data, c) && r.buffer[position] == data[c + length] {
      assert r.buffer[position] in r.buffer;
      assert data[c + length] == data[c..k][length];
      var r' := if length + 1 > best then r.Add(data[c + length]) else r;
      TryAvoids(r', data, c, (position + 1) % SIZE, length + 1, best, k);
    }
  }

  lemma {:induction false} ScanAvoids(r: Ring, data: bytes, c: nat, offset: nat, final: nat, bo: nat, best: nat, k: nat)
    requires r.Valid() && offset < SIZE && final < SIZE && c + best <= k < |data| && best <= Cap(data, c)
    requires data[k] !in r.buffer && data[k] !in data[c..k]
    ensures c + Scan(r, data, c, offset, final, bo, best).length <= k
    decreases Remaining(offset, final)
  {
    TryAvoids(r, data, c, offset, 0, best, k);
    var t := Try(r, data, c, offset, 0, best);
    var bo', bl := if t.length > best then offset else bo, if t.length > best then t.length else best;
    var next := (offset + 1) % SIZE;
    if next != final && bl != MAX_MATCH {
      RemainingAfter(offset, final, 0);
      ScanAvoids(t.ring, data, c, next, final, bo', bl, k);
    }
  }

  /** `raw[k]` occurs nowhere before it, so no token reaches over it. */
  ghost predicate Fresh(initial: bytes, raw: bytes, k: nat) {
    k < |raw| && raw[k] != 0 && raw[k] !in initial && raw[k] !in raw[..k]
  }

  lemma FreshByteStopsMatch(initial: bytes, raw: bytes, cursor: nat, k: nat)
    requires 0 < |initial| < SIZE && Fresh(initial, raw, k) && cursor <= k
    ensures cursor + Size(TokenAt(initial, raw, cursor)) <= Max(k, cursor + 1)
  {
    var r := DictionaryAt(initial, raw, cursor);
    assert raw[k] !in raw[..cursor] && raw[k] !in raw[cursor..k];
    AddAllAvoids(InitialRing(initial), raw[..cursor], raw[k]);
    ScanAvoids(r, raw, cursor, FirstCandidate(r), r.write, 0, 0, k);
  }

  /** The position behind a first occurrence is a token boundary of every stream. */
  lemma {:induction false} FreshByteIsBoundary(initial: bytes, raw: bytes, cursor: nat, k: nat)
    requires 0 < |initial| < SIZE && Fresh(initial, raw, k) && cursor <= k
    requires AllClean(initial, raw, cursor)
    ensures AllClean(initial, raw, k + 1)
    decreases |raw| - cursor
  {
    hide TokenAt;
    FreshByteStopsMatch(initial, raw, cursor, k);
    var next := cursor + Size(TokenAt(initial, raw, cursor));
    if next <= k {
      FreshByteIsBoundary(initial, raw, next, k);
    }
  }

  // --- the search that reads what it wrote ---------------------------------------------

  const PATTERN: bytes := [1, 1, 2, 1, 2, 1, 3]
  const TAIL: bytes := [1, 1, 2, 1, 3]

  /** Nothing beats a match that is already as long as the data allows. */
  lemma {:induction false} ScanAtCap(r: Ring, data: bytes, c: nat, offset: nat, final: nat, bo: nat, best: nat)
    requires r.Valid() && offset < SIZE && final < SIZE && c <= |data| && best == Cap(data, c)
    ensures Scan(r, data, c, offset, final, bo, best) == Found(bo, best, r)
    decreases Remaining(offset, final)
  {
    TryAtCap(r, data, c, offset, 0, best);
    var next := (offset + 1) % SIZE;
    if next != final && best != MAX_MATCH {
      RemainingAfter(offset, final, 0);
      ScanAtCap(r, data, c, next, final, bo, best);
    }
  }

  lemma {:induction false} TryAtCap(r: Ring, data: bytes, c: nat, position: nat, length: nat, best: nat)
    requires r.Valid() && position < SIZE && c <= |data| && length <= best == Cap(data, c)
    ensures Try(r, data, c, position, length, best).ring == r
    decreases best - length
  {
    if length < best && r.buffer[position] == data[c + length] {
      TryAtCap(r, data, c, (position + 1) % SIZE, length + 1, best);
    }
  }

  /** One matching comparison of a try. */
  lemma TryNext(r: Ring, data: bytes, c: nat, position: nat, length: nat, best: nat)
    requires r.Valid() && position + 1 < SIZE && c <= |data| && length < Cap(data, c)
    requires r.buffer[position] == data[c + length]
    ensures Try(r, data, c, position, length, best)
         == Try(if length + 1 > best then r.Add(data[c + length]) else r, data, c, position + 1, length + 1, best)
  {
  }

  /** A try ends at the end of the data or at the first byte that differs. */
  lemma TryStops(r: Ring, data: bytes, c: nat, position: nat, length: nat, best: nat)
    requires r.Valid() && position < SIZE && c <= |data| && length <= Cap(data, c)
    requires length < Cap(data, c) ==> r.buffer[position] != data[c + length]
    ensures Try(r, data, c, position, length, best) == Tried(length, r)
  {
  }

  /** One step of a scan that neither ends here nor holds a match as long as can be. */
  lemma ScanNext(r: Ring, data: bytes, c: nat, offset: nat, final: nat, bo: nat, best: nat)
    requires r.Valid() && offset + 1 < SIZE && final < SIZE && offset + 1 != final
    requires c <= |data| && best <= Cap(data, c)
    requires Try(r, data, c, offset, 0, best).length < MAX_MATCH && best < MAX_MATCH
    ensures var t := Try(r, data, c, offset, 0, best);
            Scan(r, data, c, offset, final, bo, best)
            == Scan(t.ring, data, c, offset + 1, final, if t.length > best then offset else bo,
                    if t.length > best then t.length else best)
  {
    hide Try;
  }

  /** The write offset is 206, the dictionary is full, and slots 207 to 213 hold the pattern. */
  ghost predicate Trap(r: Ring, data: bytes, c: nat) {
    && r.Valid() && r.write == 206 && r.end == SIZE && r.buffer[207..214] == PATTERN
    && c + 5 == |data| && data[c..] == TAIL
  }

  lemma TrapBytes(r: Ring, data: bytes, c: nat)
    requires Trap(r, data, c)
    ensures r.Valid() && r.write == 206 && r.end == SIZE && c + 5 == |data|
    ensures r.buffer[207] == 1 && r.buffer[208] == 1 && r.buffer[209] == 2 && r.buffer[210] == 1
    ensures r.buffer[211] == 2 && r.buffer[212] == 1 && r.buffer[213] == 3
    ensures data[c] == 1 && data[c + 1] == 1 && data[c + 2] == 2 && data[c + 3] == 1 && data[c + 4] == 3
  {
    assert forall i :: 0 <= i < 7 ==> r.buffer[207 + i] == r.buffer[207..214][i];
    assert forall i :: 0 <= i < 5 ==> data[c + i] == data[c..][i];
  }

  /** The first try matches four bytes and writes them over slots 206 to 209. */
  lemma FirstTry(r: Ring, data: bytes, c: nat)
    requires Trap(r, data, c)
    ensures var b := r.buffer[206 := 1][207 := 1][208 := 2][209 := 1];
            Try(r, data, c, 207, 0, 0) == Tried(4, Ring(b, 210, SIZE))
  {
    var r1 := r.Add(1);
    var r2 := r1.Add(1);
    var r3 := r2.Add(2);
    var r4 := r3.Add(1);
    TrapBytes(r, data, c);
    hide Try, Trap;
    TryNext(r, data, c, 207, 0, 0);
    TryNext(r1, data, c, 208, 1, 0);
    TryNext(r2, data, c, 209, 2, 0);
    TryNext(r3, data, c, 210, 3, 0);
    TryStops(r4, data, c, 211, 4, 0);
    FourAdded(r);
  }

  lemma FourAdded(r: Ring)
    requires r.Valid() && r.write == 206 && r.end == SIZE
    ensures r.Add(1).Add(1).Add(2).Add(1) == Ring(r.buffer[206 := 1][207 := 1][208 := 2][209 := 1], 210, SIZE)
  {
    assert r.Add(1) == Ring(r.buffer[206 := 1], 207, SIZE);
    assert r.Add(1).Add(1) == Ring(r.buffer[206 := 1][207 := 1], 208, SIZE);
    assert r.Add(1).Add(1).Add(2) == Ring(r.buffer[206 := 1][207 := 1][208 := 2], 209, SIZE);
  }

  /** The third candidate then reads its first byte from a slot the first try has written. */
  lemma ThirdTry(r: Ring, data: bytes, c: nat, b: bytes)
    requires Trap(r, data, c) && b == r.buffer[206 := 1][207 := 1][208 := 2][209 := 1]
    ensures Try(Ring(b, 210, SIZE), data, c, 209, 0, 4) == Tried(5, Ring(b[210 := 3], 211, SIZE))
  {
    var r4 := Ring(b, 210, SIZE);
    TrapBytes(r, data, c);
    hide Try, Trap;
    assert b[209] == 1 && b[210] == 1 && b[211] == 2 && b[212] == 1 && b[213] == 3;
    TryNext(r4, data, c, 209, 0, 4);
    TryNext(r4, data, c, 210, 1, 4);
    TryNext(r4, data, c, 211, 2, 4);
    TryNext(r4, data, c, 212, 3, 4);
    TryNext(r4, data, c, 213, 4, 4);
    TryStops(r4.Add(3), data, c, 214, 5, 4);
  }

  lemma TrappedSearch(r: Ring, data: bytes, c: nat)
    requires Trap(r, data, c)
    ensures var f := Search(r, data, c); f.offset == 209 && f.length == 5
  {
    hide Try, Scan;
    var b := r.buffer[206 := 1][207 := 1][208 := 2][209 := 1];
    var r4 := Ring(b, 210, SIZE);
    var r5 := Ring(b[210 := 3], 211, SIZE);
    assert data[c] == data[c..][0] == 1;
    FirstTry(r, data, c);
    ScanNext(r, data, c, 207, 206, 0, 0);
    MismatchIsNoTry(r4, data, c, 208, 4);
    ScanNext(r4, data, c, 208, 206, 207, 4);
    ThirdTry(r, data, c, b);
    ScanNext(r4, data, c, 209, 206, 207, 4);
    ScanAtCap(r5, data, c, 210, 206, 209, 5);
  }

  // --- an input that does not survive ---------------------------------------------------

  /** The pattern, filler up to a full dictionary, a byte seen once, and the tail that meets the pattern again. */
  function Input(): (raw: bytes)
    ensures |raw| == 4100
  {
    PATTERN + seq(4087, _ => 0) + [4] + TAIL
  }

  lemma InputFacts(initial: bytes)
    requires |initial| == 207 && Above(initial, 9)
    ensures Fresh(initial, Input(), 4094)
    ensures Input()[4095..] == TAIL && Input()[..7] == PATTERN
  {
    var raw := Input();
    assert raw[4094] == 4;
    assert forall i :: 0 <= i < 7 ==> raw[i] == PATTERN[i];
    assert forall i :: 7 <= i < 4094 ==> raw[i] == 0;
  }

  lemma InputSpringsTrap(initial: bytes)
    requires |initial| == 207 && Above(initial, 9)
    ensures Trap(DictionaryAt(initial, Input(), 4095), Input(), 4095)
  {
    hide AddAll, Input, PATTERN;
    var raw := Input();
    var r, h := DictionaryAt(initial, raw, 4095), History(initial, raw, 4095);
    DictionaryRepresents(initial, raw, 4095);
    InputFacts(initial);
    assert |h| == 4302;
    forall i | 0 <= i < 7
      ensures r.buffer[207..214][i] == raw[..7][i]
    {
      HistoryAt(r, h, 207 + i);
      assert h[207 + i] == raw[..4095][i] == raw[i];
    }
    assert r.buffer[207..214] == raw[..7];
  }

  /** The reference to slot 209 is not clean: that slot holds a 2 where the input has a 1. */
  lemma InputIsNotClean(initial: bytes)
    requires |initial| == 207 && Above(initial, 9)
    ensures !Clean(initial, Input(), 4095)
  {
    var raw := Input();
    InputSpringsTrap(initial);
    var r, h := DictionaryAt(initial, raw, 4095), History(initial, raw, 4095);
    TrappedSearch(r, raw, 4095);
    assert TokenAt(initial, raw, 4095) == Reference(209, 5);
    assert Distance(4302, 209) == 4093;
    assert h[209] == raw[..4095][2] == raw[2] == PATTERN[2];
    assert h[209..210][0] == 2 && raw[4095..4096][0] == raw[4095..][0] == 1;
  }

  /** `decompress_rtf(compress_rtf(raw)) == raw` fails on a concrete input, with the real initial dictionary. */
  lemma RoundTripFails(crc: Crc)
    ensures 0 < |INITIAL_DICTIONARY| < SIZE
    ensures var raw := Input();
            var data := Compressed(raw, INITIAL_DICTIONARY, crc);
            && data.Ok?
            && Decompressed(data.value, INITIAL_DICTIONARY, crc, 0x1000_0000).Ok?
            && Decompressed(data.value, INITIAL_DICTIONARY, crc, 0x1000_0000) != Ok(raw)
  {
    var raw, initial := Input(), INITIAL_DICTIONARY;
    InitialDictionary();
    hide INITIAL_DICTIONARY, Input, Clean, TokenAt, Compressed, Decompressed, AllClean, Fresh, Above;
    CompressedFits(raw, initial, crc);
    RoundTrip(raw, initial, crc, 0x1000_0000);
    InputFacts(initial);
    InputIsNotClean(initial);
    if AllClean(initial, raw, 0) {
      FreshByteIsBoundary(initial, raw, 0, 4094);
      CleanHead(initial, raw, 4095);
    }
  }

  /** Bodies of up to 3889 bytes never wrap the dictionary and always come back. */
  lemma StandardRoundTrip(raw: bytes, crc: Crc, maxOutput: int)
    requires |raw| <= 3889 && |raw| <= maxOutput
    ensures 0 < |INITIAL_DICTIONARY| < SIZE
    ensures var data := Compressed(raw, INITIAL_DICTIONARY, crc);
            data.Ok? && Decompressed(data.value, INITIAL_DICTIONARY, crc, maxOutput) == Ok(raw)
  {
    InitialDictionary();
    hide INITIAL_DICTIONARY;
    RoundTripUnwrapped(raw, INITIAL_DICTIONARY, crc, maxOutput);
  }
}
