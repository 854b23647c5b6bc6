/** The writer's circular dictionary, updated in place while the match search scans it. */
module LzWriter {
  import opened Wire
  import opened LzDictionary
  import opened LzSearch

  /** The dictionary a codec starts with: `initial`, then zeros nobody may refer to. */
  function InitialRing(initial: bytes): (r: Ring)
    requires |initial| < SIZE
    ensures r.Valid()
  {
    Ring(initial + seq(SIZE - |initial|, _ => 0), |initial|, |initial|)
  }

  lemma InitialRepresents(initial: bytes)
    requires |initial| < SIZE
    ensures Represents(InitialRing(initial), initial)
  {
  }

  /** The candidates between `offset` and `c`, going up circularly. */
  function Steps(offset: nat, c: nat): nat
  {
    (c + SIZE - offset) % SIZE
  }

  lemma StepsSlot(offset: nat, final: nat, c: nat)
    requires offset < SIZE && c < SIZE && final < SIZE && offset != final
    ensures Slot(offset, Steps(offset, c)) == c
    ensures Steps(offset, c) <= Remaining(offset, final)
            <==> if offset < final then offset <= c < final else offset <= c || c < final
    ensures Steps(offset, c) == if offset <= c then c - offset else SIZE - offset + c
  {
  }

  class Dictionary {
    const buffer: array<byte>
    var write: nat
    var end: nat

    ghost predicate Valid()
      reads this, buffer
    {
      buffer.Length == SIZE && write < SIZE && end <= SIZE
    }

    ghost function Contents(): (r: Ring)
      requires Valid()
      reads this, buffer
      ensures r.Valid()
    {
      Ring(buffer[..], write, end)
    }

    constructor (initial: bytes)
      requires |initial| < SIZE
      ensures Valid() && fresh(buffer)
      ensures Contents() == InitialRing(initial)
    {
      buffer := new byte[SIZE](i => if 0 <= i < |initial| then initial[i] else 0);
      write := |initial|;
      end := |initial|;
      new;
      assert buffer[..] == InitialRing(initial).buffer;
    }

    method Add(b: byte)
      requires Valid()
      modifies this, buffer
      ensures Valid() && Contents() == old(Contents()).Add(b)
    {
      buffer[write] := b;
      if end < SIZE {
        end := end + 1;
      }
      write := (write + 1) % SIZE;
    }

    /** How many bytes of `data[cursor..]` match at `offset`; bytes past `best` are added as they match. */
    method TryMatch(data: bytes, cursor: nat, offset: nat, best: nat) returns (length: nat)
      requires Valid() && cursor <= |data| && offset < SIZE
      modifies this, buffer
      ensures Valid()
      ensures Tried(length, Contents()) == Try(old(Contents()), data, cursor, offset, 0, best)
    {
      var maxLength := Min(MAX_MATCH, |data| - cursor);
      length := 0;
      var position: nat := offset;
      while length < maxLength && buffer[position] == data[cursor + length]
        invariant Valid() && position < SIZE && length <= maxLength
        invariant Try(Contents(), data, cursor, position, length, best)
               == Try(old(Contents()), data, cursor, offset, 0, best)
        decreases maxLength - length
      {
        length := length + 1;
        if length > best {
          Add(data[cursor + length - 1]);
        }
        position := (position + 1) % SIZE;
      }
    }

    /** The first position in [`low`, `high`) holding `wanted`. */
    method Find(wanted: byte, low: nat, high: nat) returns (found: Option<nat>)
      requires Valid() && low <= high <= SIZE
      ensures found.None? ==> forall p :: low <= p < high ==> buffer[p] != wanted
      ensures found.Some? ==> low <= found.value < high && buffer[found.value] == wanted
      ensures found.Some? ==> forall p :: low <= p < found.value ==> buffer[p] != wanted
    {
      for p := low to high
        invariant forall q :: low <= q < p ==> buffer[q] != wanted
      {
        if buffer[p] == wanted {
          return Some(p);
        }
      }
      return None;
    }

    /** The next scan position at or circularly after `offset`, before `final`, that holds `first`. */
    method NextCandidate(first: byte, offset: nat, final: nat) returns (found: Option<nat>)
      requires Valid() && offset < SIZE && final < SIZE && offset != final
      ensures found.None? ==>
                forall k :: 0 <= k <= Remaining(offset, final) ==> buffer[Slot(offset, k)] != first
      ensures found.Some? ==>
                && found.value < SIZE
                && buffer[found.value] == first
                && Steps(offset, found.value) <= Remaining(offset, final)
                && Slot(offset, Steps(offset, found.value)) == found.value
                && forall k :: 0 <= k < Steps(offset, found.value) ==> buffer[Slot(offset, k)] != first
    {
      if offset < final {
        found := Find(first, offset, final);
      } else {
        found := Find(first, offset, SIZE);
        if found.None? {
          found := Find(first, 0, final);
        }
      }
      if found.Some? {
        StepsSlot(offset, final, found.value);
      }
    }

    /**
     FindLongestMatch: skipping or exhaustive, the answer and the dictionary left behind are those of the
     exhaustive scan.
     */
    method FindLongestMatch(data: bytes, cursor: nat, exhaustive: bool) returns (bestOffset: nat, bestLength: nat)
      requires Valid() && cursor < |data|
      modifies this, buffer
      ensures Valid()
      ensures Found(bestOffset, bestLength, Contents()) == Search(old(Contents()), data, cursor)
    {
      var final := write;
      var offset: nat := if end != SIZE then 0 else (write + 1) % SIZE;
      bestOffset, bestLength := 0, 0;
      var first := data[cursor];
      ghost var scan := Scan(Contents(), data, cursor, offset, final, 0, 0);
      while true
        invariant Valid() && offset < SIZE && bestLength <= Cap(data, cursor)
        invariant scan == Scan(Contents(), data, cursor, offset, final, bestOffset, bestLength)
        decreases Remaining(offset, final)
      {
        var length := TryMatch(data, cursor, offset, bestLength);
        if length > bestLength {
          bestOffset, bestLength := offset, length;
        }
        RemainingAfter(offset, final, 0);
        offset := (offset + 1) % SIZE;
        if offset == final || bestLength == MAX_MATCH {
          break;
        }
        if !exhaustive {
          var candidate := NextCandidate(first, offset, final);
          match candidate {
            case None =>
              ScanEnds(Contents(), data, cursor, offset, final, bestOffset, bestLength);
              break;
            case Some(c) =>
              ScanSkips(Contents(), data, cursor, offset, final, bestOffset, bestLength, Steps(offset, c));
              RemainingAfter(offset, final, Steps(offset, c));
              offset := c;
          }
        }
      }
      if bestLength == 0 {
        Add(data[cursor]);
      }
    }
  }
}
