/**
 Variable-size multi-values ([MS-PST] section 2.3.3.4.2): a count, a table of offsets, the items; and the text cut
 at its first NUL unit.
 */
module MultiValue {
  import opened Wire

  // --- parsing -----------------------------------------------------------------------

  /** Offset `i` of the table. */
  function OffsetAt(data: bytes, i: nat): nat
    requires 4 + 4 * i + 4 <= |data|
  {
    FromLE(data[4 + 4 * i..4 + 4 * i + 4])
  }

  /** Where item `i` ends: where the next one starts, or at the end of the buffer. */
  function EndAt(data: bytes, count: nat, i: nat): nat
    requires i < count && 4 + 4 * count <= |data|
  {
    if i + 1 < count then OffsetAt(data, i + 1) else |data|
  }

  predicate InRange(data: bytes, count: nat, i: nat)
    requires i < count && 4 + 4 * count <= |data|
  {
    OffsetAt(data, i) <= EndAt(data, count, i) <= |data|
  }

  /** The items, if every span runs forward inside the buffer. */
  function ItemsFrom(data: bytes, count: nat, i: nat): (r: Result<seq<bytes>>)
    requires i <= count && 4 + 4 * count <= |data|
    ensures r.Ok? ==> |r.value| == count - i
    decreases count - i
  {
    if i == count then Ok([])
    else if !InRange(data, count, i) then Err(Format)
    else
      var rest :- ItemsFrom(data, count, i + 1);
      Ok([data[OffsetAt(data, i)..EndAt(data, count, i)]] + rest)
  }

  function Parse(data: bytes, maxItems: nat): Result<seq<bytes>> {
    var count :- Field(data, 0, 4);
    if count > maxItems then Err(Limit)
    else if |data| < 4 * (count + 1) then Err(Format)
    else if count == 0 then Ok([])
    else if OffsetAt(data, 0) != 4 * (count + 1) then Err(Format)
    else ItemsFrom(data, count, 0)
  }

  /** The loop over the offsets. */
  method VariableItems(data: bytes, maxItems: nat) returns (r: Result<seq<bytes>>)
    ensures r == Parse(data, maxItems)
  {
    var field := Field(data, 0, 4);
    if field.Err? {
      return Err(field.error);
    }
    var count := field.value;
    if count > maxItems {
      return Err(Limit);
    }
    var tableEnd := 4 * (count + 1);
    if |data| < tableEnd {
      return Err(Format);
    }
    if count == 0 {
      return Ok([]);
    }
    if OffsetAt(data, 0) != tableEnd {
      return Err(Format);
    }
    var items: seq<bytes> := [];
    assert ItemsFrom(data, count, 0).Ok? ==> items + ItemsFrom(data, count, 0).value == ItemsFrom(data, count, 0).value;
    for i := 0 to count
      invariant var rest := ItemsFrom(data, count, i);
                ItemsFrom(data, count, 0) == if rest.Ok? then Ok(items + rest.value) else rest
    {
      var start, end := OffsetAt(data, i), EndAt(data, count, i);
      if end < start || end > |data| {
        return Err(Format);
      }
      ghost var rest := ItemsFrom(data, count, i + 1);
      if rest.Ok? {
        ConcatAssociates(items, [data[start..end]], rest.value);
      }
      items := items + [data[start..end]];
    }
    assert items + [] == items;
    return Ok(items);
  }

  // --- printing -------------------------------------------------------------------------

  /** The offsets of items that start at `start`. */
  function Table(items: seq<bytes>, start: nat): (b: bytes)
    ensures |b| == 4 * |items|
  {
    if items == [] then [] else LE(start, 4) + Table(items[1..], start + |items[0]|)
  }

  /** The layout of [MS-PST] section 2.3.3.4.2, offsets recomputed. */
  function Print(items: seq<bytes>): bytes {
    LE(|items|, 4) + Table(items, 4 * (|items| + 1)) + Join(items)
  }

  /** The printed form is as long as a 32-bit offset can say. */
  predicate Printable(items: seq<bytes>) {
    4 * (|items| + 1) + |Join(items)| < U32
  }

  // --- parsing what was printed -------------------------------------------------------------

  function StartOf(items: seq<bytes>, start: nat, i: nat): nat
    requires i <= |items|
  {
    if i == 0 then start else StartOf(items[1..], start + |items[0]|, i - 1)
  }

  lemma {:induction false} TableAt(items: seq<bytes>, start: nat, i: nat)
    requires i < |items|
    ensures Table(items, start)[4 * i..4 * i + 4] == LE(StartOf(items, start, i), 4)
    decreases i
  {
    hide LE;
    var first, rest := LE(start, 4), Table(items[1..], start + |items[0]|);
    assert Table(items, start) == first + rest;
    if i > 0 {
      TableAt(items[1..], start + |items[0]|, i - 1);
      SliceBehind(first, rest, 4 * (i - 1), 4 * (i - 1) + 4);
    } else {
      assert (first + rest)[0..4] == first;
    }
  }

  lemma {:induction false} JoinAt(items: seq<bytes>, start: nat, i: nat)
    requires i < |items|
    ensures start <= StartOf(items, start, i)
    ensures StartOf(items, start, i + 1) == StartOf(items, start, i) + |items[i]| <= start + |Join(items)|
    ensures Join(items)[StartOf(items, start, i) - start..StartOf(items, start, i + 1) - start] == items[i]
    decreases i
  {
    if i > 0 {
      var next, rest := start + |items[0]|, items[1..];
      JoinAt(rest, next, i - 1);
      var low, high := StartOf(items, start, i), StartOf(items, start, i + 1);
      assert Join(items)[low - start..high - start] == Join(rest)[low - next..high - next];
    } else {
      assert StartOf(items[1..], start + |items[0]|, 0) == start + |items[0]|;
    }
  }

  lemma {:induction false} JoinEnd(items: seq<bytes>, start: nat)
    ensures StartOf(items, start, |items|) == start + |Join(items)|
  {
    if items != [] {
      JoinEnd(items[1..], start + |items[0]|);
    }
  }

  lemma PrintedParts(items: seq<bytes>)
    ensures var data, n := Print(items), |items|;
            && |data| == 4 * (n + 1) + |Join(items)|
            && data[0..4] == LE(n, 4)
            && data[4..4 + 4 * n] == Table(items, 4 * (n + 1))
            && data[4 * (n + 1)..] == Join(items)
  {
    hide LE, Table, Join;
  }

  /** The table of a printed list says where its items are. */
  lemma PrintedSpan(items: seq<bytes>, i: nat)
    requires Printable(items) && i < |items|
    ensures var data, n, start := Print(items), |items|, 4 * (|items| + 1);
            && 4 + 4 * n <= |data|
            && OffsetAt(data, i) == StartOf(items, start, i)
            && EndAt(data, n, i) == StartOf(items, start, i + 1)
            && InRange(data, n, i)
            && data[OffsetAt(data, i)..EndAt(data, n, i)] == items[i]
  {
    PrintedParts(items);
    hide Print, Table, Join, StartOf, LE, FromLE;
    var data, n, start := Print(items), |items|, 4 * (|items| + 1);
    JoinAt(items, start, i);
    PrintedOffset(items, i);
    if i + 1 < n {
      JoinAt(items, start, i + 1);
      PrintedOffset(items, i + 1);
    } else {
      JoinEnd(items, start);
    }
    var low, high := StartOf(items, start, i) - start, StartOf(items, start, i + 1) - start;
    assert data[start..start + |Join(items)|] == Join(items);
    SliceOfSlice(data, start, Join(items), low, high);
  }

  lemma PrintedOffset(items: seq<bytes>, i: nat)
    requires Printable(items) && i < |items|
    ensures |Print(items)| >= 4 + 4 * |items|
    ensures OffsetAt(Print(items), i) == StartOf(items, 4 * (|items| + 1), i)
  {
    PrintedParts(items);
    hide Print, Table, Join, StartOf, LE, FromLE;
    var data, n, start := Print(items), |items|, 4 * (|items| + 1);
    JoinAt(items, start, i);
    TableAt(items, start, i);
    FieldWidths();
    SliceOfSlice(data, 4, Table(items, start), 4 * i, 4 * i + 4);
    FromLEofLE(StartOf(items, start, i), 4);
  }

  lemma {:induction false} PrintedItems(items: seq<bytes>, i: nat)
    requires Printable(items) && i <= |items|
    ensures 4 + 4 * |items| <= |Print(items)|
    ensures ItemsFrom(Print(items), |items|, i) == Ok(items[i..])
    decreases |items| - i
  {
    PrintedParts(items);
    hide Print, Join, Table, LE, FromLE, StartOf, ItemsFrom, InRange, OffsetAt, EndAt, Printable;
    if i < |items| {
      PrintedSpan(items, i);
      PrintedItems(items, i + 1);
      ItemsNext(Print(items), |items|, i);
      assert items[i..] == [items[i]] + items[i + 1..];
    } else {
      NoItems(Print(items), |items|, 0);
      assert items[i..] == [];
    }
  }

  lemma ItemsNext(data: bytes, count: nat, i: nat)
    requires i < count && 4 + 4 * count <= |data| && InRange(data, count, i) && ItemsFrom(data, count, i + 1).Ok?
    ensures OffsetAt(data, i) <= EndAt(data, count, i) <= |data|
    ensures ItemsFrom(data, count, i)
         == Ok([data[OffsetAt(data, i)..EndAt(data, count, i)]] + ItemsFrom(data, count, i + 1).value)
  {
    hide OffsetAt, EndAt;
  }

  /** Every printable list within the ceiling parses back to itself, the empty one included. */
  lemma ParseOfPrint(items: seq<bytes>, maxItems: nat)
    requires Printable(items) && |items| <= maxItems
    ensures Parse(Print(items), maxItems) == Ok(items)
  {
    PrintedParts(items);
    PrintedItems(items, 0);
    FieldWidths();
    FromLEofLE(|items|, 4);
    assert items[0..] == items;
    hide Print, LE, FromLE;
    if items != [] {
      PrintedSpan(items, 0);
    }
  }

  // --- printing what was parsed ----------------------------------------------------------------

  /** What the parsed items say about the rest of the buffer: they are it, and the table is theirs. */
  lemma {:induction false} ParsedItems(data: bytes, count: nat, i: nat)
    requires i < count && 4 + 4 * count <= |data| && ItemsFrom(data, count, i).Ok?
    ensures var items := ItemsFrom(data, count, i).value;
            && OffsetAt(data, i) <= |data|
            && Join(items) == data[OffsetAt(data, i)..]
            && Table(items, OffsetAt(data, i)) == data[4 + 4 * i..4 + 4 * count]
    decreases count - i
  {
    hide ItemsFrom, InRange, EndAt, OffsetAt, Join, Table;
    ItemsHead(data, count, i);
    EndIsNext(data, count, i);
    var rest := ItemsFrom(data, count, i + 1).value;
    var start, end := OffsetAt(data, i), EndAt(data, count, i);
    ItemPrinted(data[start..end], rest, start);
    PackedOffset(data, i);
    SplitAt(data, start, end, |data|);
    SplitAt(data, 4 + 4 * i, 4 + 4 * i + 4, 4 + 4 * count);
    if i + 1 < count {
      ParsedItems(data, count, i + 1);
    } else {
      NoItems(data, count, end);
    }
  }

  lemma ItemPrinted(item: bytes, rest: seq<bytes>, start: nat)
    ensures Join([item] + rest) == item + Join(rest)
    ensures Table([item] + rest, start) == LE(start, 4) + Table(rest, start + |item|)
  {
    hide LE;
    assert ([item] + rest)[1..] == rest && ([item] + rest)[0] == item;
  }

  lemma PackedOffset(data: bytes, i: nat)
    requires 4 + 4 * i + 4 <= |data|
    ensures LE(OffsetAt(data, i), 4) == data[4 + 4 * i..4 + 4 * i + 4]
  {
    LEofFromLE(data[4 + 4 * i..4 + 4 * i + 4]);
    hide LE, FromLE;
  }

  lemma SplitAt(data: bytes, low: nat, middle: nat, high: nat)
    requires low <= middle <= high <= |data|
    ensures data[low..high] == data[low..middle] + data[middle..high]
  {
  }

  lemma ItemsHead(data: bytes, count: nat, i: nat)
    requires i < count && 4 + 4 * count <= |data| && ItemsFrom(data, count, i).Ok?
    ensures InRange(data, count, i) && OffsetAt(data, i) <= EndAt(data, count, i) <= |data|
    ensures ItemsFrom(data, count, i + 1).Ok?
    ensures ItemsFrom(data, count, i).value
         == [data[OffsetAt(data, i)..EndAt(data, count, i)]] + ItemsFrom(data, count, i + 1).value
  {
    hide OffsetAt, EndAt;
  }

  lemma EndIsNext(data: bytes, count: nat, i: nat)
    requires i < count && 4 + 4 * count <= |data|
    ensures EndAt(data, count, i) == if i + 1 < count then OffsetAt(data, i + 1) else |data|
  {
  }

  lemma NoItems(data: bytes, count: nat, end: nat)
    requires 4 + 4 * count <= |data|
    ensures ItemsFrom(data, count, count) == Ok([]) && Join([]) == [] && Table([], end) == []
  {
  }

  /**
   Printing what was parsed gives the buffer back exactly when the count is not 0 or nothing follows it: a buffer
   with count 0 parses whatever else it holds.
   */
  lemma PrintOfParse(data: bytes, maxItems: nat)
    requires Parse(data, maxItems).Ok?
    ensures |data| >= 4
    ensures Print(Parse(data, maxItems).value) == data <==> FromLE(data[0..4]) > 0 || |data| == 4
  {
    hide LE, FromLE, Join, Table, InRange, ItemsFrom, OffsetAt;
    var count := FromLE(data[0..4]);
    LEofFromLE(data[0..4]);
    if count == 0 {
      PrintNothing();
      assert |data| == 4 ==> data[0..4] == data;
    } else {
      var items := Parse(data, maxItems).value;
      ParsedItems(data, count, 0);
      SplitAt(data, 0, 4, 4 * (count + 1));
      SplitAt(data, 0, 4 * (count + 1), |data|);
      PrintedAs(items, data[0..4], data[4..4 * (count + 1)], data[4 * (count + 1)..]);
      assert data[0..|data|] == data;
    }
  }

  /** A buffer of count 0 with a byte behind it: it parses, and prints as something else. */
  lemma CountZeroIgnoresRest(maxItems: nat)
    ensures var data: bytes := [0, 0, 0, 0, 7];
            Parse(data, maxItems) == Ok([]) && Print([]) != data
  {
    var data: bytes := [0, 0, 0, 0, 7];
    var count: bytes := [0, 0, 0, 0];
    assert data[0..4] == count;
    assert count[1..] == [0, 0, 0] && count[1..][1..] == [0, 0];
    assert FromLE([0, 0]) == 0 && FromLE(count) == 0;
    PrintNothing();
  }

  lemma PrintedAs(items: seq<bytes>, count: bytes, table: bytes, joined: bytes)
    requires count == LE(|items|, 4) && table == Table(items, 4 * (|items| + 1)) && joined == Join(items)
    ensures Print(items) == count + table + joined
  {
    hide LE, Table, Join;
  }

  lemma PrintNothing()
    ensures Print([]) == LE(0, 4)
  {
  }

  // --- text up to its first NUL unit ----------------------------------------------------------------

  /** The first place at or after `from` with two zero bytes; the length when there is none. */
  function FindNul(raw: bytes, from: nat): (at: nat)
    requires from <= |raw|
    ensures from <= at <= |raw|
    ensures at < |raw| ==> at + 1 < |raw| && raw[at] == 0 && raw[at + 1] == 0
    ensures forall i :: from <= i < at && i + 1 < |raw| ==> !(raw[i] == 0 && raw[i + 1] == 0)
    decreases |raw| - from
  {
    if from + 2 > |raw| then |raw|
    else if raw[from] == 0 && raw[from + 1] == 0 then from
    else FindNul(raw, from + 1)
  }

  predicate NulUnit(raw: bytes, i: nat) {
    2 * i + 1 < |raw| && raw[2 * i] == 0 && raw[2 * i + 1] == 0
  }

  /** The units in front of the first NUL unit. */
  ghost predicate IsText(raw: bytes, text: bytes) {
    && text <= raw && |text| % 2 == 0
    && (forall i: nat :: 2 * i + 1 < |text| ==> !NulUnit(raw, i))
    && (|text| < |raw| ==> NulUnit(raw, |text| / 2))
  }

  /** The search for two zero bytes that skips hits at odd places; the decoding of the units is left out. */
  method CutAtNul(raw: bytes) returns (r: Result<bytes>)
    ensures r.Ok? <==> |raw| % 2 == 0
    ensures r.Err? ==> r.error == Format
    ensures r.Ok? ==> IsText(raw, r.value)
  {
    if |raw| % 2 != 0 {
      return Err(Format);
    }
    hide FindNul;
    var start: nat := 0;
    var nul := FindNul(raw, start);
    while nul < |raw|
      invariant start <= nul <= |raw|
      invariant nul == FindNul(raw, start)
      invariant forall i: nat :: 2 * i < start ==> !NulUnit(raw, i)
      decreases |raw| - nul
    {
      if nul % 2 == 0 {
        return Ok(raw[..nul]);
      }
      OddHit(raw, start, nul);
      start := nul + 1;
      nul := FindNul(raw, start);
    }
    return Ok(raw);
  }

  /** No unit up to an odd hit is NUL. */
  lemma OddHit(raw: bytes, start: nat, nul: nat)
    requires start <= nul < |raw| && nul % 2 == 1 && nul == FindNul(raw, start)
    requires forall i: nat :: 2 * i < start ==> !NulUnit(raw, i)
    ensures forall i: nat :: 2 * i < nul + 1 ==> !NulUnit(raw, i)
  {
    hide FindNul;
    forall i: nat | 2 * i < nul + 1
      ensures !NulUnit(raw, i)
    {
      assert 2 * i < nul;
    }
  }

  /** The cut is the only one there can be. */
  lemma TextIsUnique(raw: bytes, a: bytes, b: bytes)
    requires IsText(raw, a) && IsText(raw, b)
    ensures a == b
  {
    var i, j: nat := |a| / 2, |b| / 2;
    assert |a| < |raw| ==> NulUnit(raw, i);
    assert |b| < |raw| ==> NulUnit(raw, j);
    assert a == raw[..|a|] && b == raw[..|b|];
  }
}
