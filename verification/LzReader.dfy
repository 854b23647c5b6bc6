/**
 The LZFu decompressor ([MS-OXRTFCP] section 2.2.3.2). The reader keeps a circular array; what it computes is
 stated over a flat history, the initial dictionary followed by all output, where a reference copies byte by
 byte from a fixed distance back.
 */
module LzReader {
  import opened Wire
  import opened LzDictionary
  import opened LzWriter

  /** The low `n` bits of a control byte, the least significant first; a set bit announces a reference. */
  function Bits(control: nat, n: nat): (bits: seq<bool>)
    ensures |bits| == n
    decreases n
  {
    if n == 0 then [] else [control % 2 == 1] + Bits(control / 2, n - 1)
  }

  function BigEndian(high: byte, low: byte): nat {
    high as nat * 256 + low as nat
  }

  function TokenOffset(token: nat): nat {
    token / 16
  }

  function TokenLength(token: nat): nat {
    token % 16 + 2
  }

  /** `h` followed by `n` bytes, each equal to the byte `d` places before it, overlaps included. */
  function CopyBack(h: bytes, d: nat, n: nat): (r: bytes)
    requires 0 < d <= |h|
    ensures |r| == |h| + n && h <= r
    ensures forall k :: |h| <= k < |r| ==> r[k] == r[k - d]
  {
    if n == 0 then h
    else
      var g := CopyBack(h, d, n - 1);
      g + [g[|g| - d]]
  }

  /**
   The rest of a payload: `flags` are the control bits of the tokens the current run still has, and `h` is the
   history, its first `base` bytes the initial dictionary.
   */
  function Decode(p: bytes, flags: seq<bool>, h: bytes, base: nat, maxOutput: int): Result<bytes>
    requires base <= |h|
    decreases |p|
  {
    if flags == [] then
      if p == [] then Err(Format) else Decode(p[1..], Bits(p[0], 8), h, base, maxOutput)
    else if !flags[0] then
      if p == [] then Err(Format)
      else if |h| - base >= maxOutput then Err(Limit)
      else Decode(p[1..], flags[1..], h + [p[0]], base, maxOutput)
    else if |p| < 2 then Err(Format)
    else
      var token := BigEndian(p[0], p[1]);
      var offset, length := TokenOffset(token), TokenLength(token);
      if offset == |h| % SIZE then Ok(h[base..])
      else if offset >= Min(|h|, SIZE) then Err(Format)
      else if |h| - base + length > maxOutput then Err(Limit)
      else Decode(p[2..], flags[1..], CopyBack(h, Distance(|h|, offset), length), base, maxOutput)
  }

  /** One step of the decoding. */
  lemma DecodeStep(p: bytes, flags: seq<bool>, h: bytes, base: nat, maxOutput: int)
    requires base <= |h|
    ensures flags == [] ==>
              Decode(p, flags, h, base, maxOutput)
              == if p == [] then Err(Format) else Decode(p[1..], Bits(p[0], 8), h, base, maxOutput)
    ensures flags != [] && !flags[0] ==>
              Decode(p, flags, h, base, maxOutput)
              == if p == [] then Err(Format)
                 else if |h| - base >= maxOutput then Err(Limit)
                 else Decode(p[1..], flags[1..], h + [p[0]], base, maxOutput)
    ensures flags != [] && flags[0] && |p| < 2 ==> Decode(p, flags, h, base, maxOutput) == Err(Format)
    ensures flags != [] && flags[0] && |p| >= 2 ==>
              var token := BigEndian(p[0], p[1]);
              var offset, length := TokenOffset(token), TokenLength(token);
              Decode(p, flags, h, base, maxOutput)
              == if offset == |h| % SIZE then Ok(h[base..])
                 else if offset >= Min(|h|, SIZE) then Err(Format)
                 else if |h| - base + length > maxOutput then Err(Limit)
                 else Decode(p[2..], flags[1..], CopyBack(h, Distance(|h|, offset), length), base, maxOutput)
  {
    hide CopyBack, Distance, Bits;
  }

  // Single steps of the decoding.

  lemma DecodeControl(p: bytes, h: bytes, base: nat, maxOutput: int)
    requires p != [] && base <= |h|
    ensures Decode(p, [], h, base, maxOutput) == Decode(p[1..], Bits(p[0], 8), h, base, maxOutput)
  {
  }

  lemma DecodeLiteral(p: bytes, flags: seq<bool>, h: bytes, base: nat, maxOutput: int)
    requires p != [] && flags != [] && base <= |h| && |h| - base < maxOutput && !flags[0]
    ensures Decode(p, flags, h, base, maxOutput) == Decode(p[1..], flags[1..], h + [p[0]], base, maxOutput)
  {
  }

  lemma DecodeReference(p: bytes, flags: seq<bool>, h: bytes, base: nat, maxOutput: int, offset: nat, length: nat)
    requires |p| >= 2 && flags != [] && base <= |h| && flags[0]
    requires offset == TokenOffset(BigEndian(p[0], p[1])) && length == TokenLength(BigEndian(p[0], p[1]))
    requires offset < Min(|h|, SIZE) && offset != |h| % SIZE && |h| - base + length <= maxOutput
    ensures Decode(p, flags, h, base, maxOutput)
         == Decode(p[2..], flags[1..], CopyBack(h, Distance(|h|, offset), length), base, maxOutput)
  {
  }

  lemma DecodeEnd(p: bytes, flags: seq<bool>, h: bytes, base: nat, maxOutput: int)
    requires |p| >= 2 && flags != [] && base <= |h| && flags[0]
    requires TokenOffset(BigEndian(p[0], p[1])) == |h| % SIZE
    ensures Decode(p, flags, h, base, maxOutput) == Ok(h[base..])
  {
  }

  /**
   Whatever the payload, the output is within the ceiling and at most eight times the bytes consumed: a 17-byte
   run of eight references makes 136 bytes.
   */
  lemma {:induction false} OutputBounds(p: bytes, flags: seq<bool>, h: bytes, base: nat, maxOutput: int, consumed: nat)
    requires base <= |h| && |h| - base <= maxOutput && |h| - base <= 8 * consumed - |flags|
    ensures var r := Decode(p, flags, h, base, maxOutput);
            r.Ok? ==> h[base..] <= r.value && |r.value| <= maxOutput && |r.value| <= 8 * (consumed + |p|) - 16
    decreases |p|
  {
    if flags == [] {
      if p != [] {
        OutputBounds(p[1..], Bits(p[0], 8), h, base, maxOutput, consumed + 1);
      }
    } else if !flags[0] {
      if p != [] && |h| - base < maxOutput {
        OutputBounds(p[1..], flags[1..], h + [p[0]], base, maxOutput, consumed + 1);
      }
    } else if |p| >= 2 {
      var token := BigEndian(p[0], p[1]);
      var offset, length := TokenOffset(token), TokenLength(token);
      if offset != |h| % SIZE && offset < Min(|h|, SIZE) && |h| - base + length <= maxOutput {
        var h' := CopyBack(h, Distance(|h|, offset), length);
        OutputBounds(p[2..], flags[1..], h', base, maxOutput, consumed + 2);
      }
    }
  }

  lemma CopyBackStarts(h: bytes, d: nat)
    requires 0 < d <= |h|
    ensures CopyBack(h, d, 0) == h
  {
  }

  lemma CopyBackNext(h: bytes, d: nat, n: nat)
    requires 0 < d <= |h|
    ensures var g := CopyBack(h, d, n); CopyBack(h, d, n + 1) == g + [g[|g| - d]]
  {
  }

  /** One output byte goes into the dictionary at the write offset. */
  method Put(dictionary: array<byte>, write: nat, end: nat, b: byte, ghost h: bytes) returns (write': nat, end': nat)
    requires dictionary.Length == SIZE && Represents(Ring(dictionary[..], write, end), h)
    modifies dictionary
    ensures Ring(dictionary[..], write', end') == Ring(old(dictionary[..]), write, end).Add(b)
    ensures Represents(Ring(dictionary[..], write', end'), h + [b])
  {
    RepresentsAdd(Ring(dictionary[..], write, end), h, b);
    dictionary[write] := b;
    write' := (write + 1) % SIZE;
    end' := if end < SIZE then end + 1 else end;
  }

  /** The slot read at distance `d` holds the history byte there, and the next one follows it. */
  lemma ReadSlot(r: Ring, h: bytes, d: nat, read: nat)
    requires Represents(r, h) && 0 < d <= |h| && d < SIZE && read == (|h| - d) % SIZE
    ensures read < SIZE && r.buffer[read] == h[|h| - d]
    ensures (read + 1) % SIZE == (|h| + 1 - d) % SIZE
  {
    HistoryAt(r, h, |h| - d);
    ModNext(|h| - d);
  }

  /** A reference, byte by byte: it may run past the write offset into bytes it has just written itself. */
  method Copy(dictionary: array<byte>, write: nat, end: nat, offset: nat, length: nat, ghost h: bytes, ghost d: nat)
    returns (write': nat, end': nat, copied: bytes)
    requires dictionary.Length == SIZE && Represents(Ring(dictionary[..], write, end), h)
    requires 0 < d <= |h| && d < SIZE && offset == (|h| - d) % SIZE
    modifies dictionary
    ensures h + copied == CopyBack(h, d, length)
    ensures Represents(Ring(dictionary[..], write', end'), h + copied)
  {
    hide Represents, CopyBack;
    write', end', copied := write, end, [];
    CopyBackStarts(h, d);
    assert h + copied == h;
    var read := offset;
    for j := 0 to length
      invariant h + copied == CopyBack(h, d, j)
      invariant Represents(Ring(dictionary[..], write', end'), h + copied)
      invariant 0 <= read == (|h + copied| - d) % SIZE
    {
      ghost var g := h + copied;
      ReadSlot(Ring(dictionary[..], write', end'), g, d, read);
      var b := dictionary[read];
      read := (read + 1) % SIZE;
      write', end' := Put(dictionary, write', end', b, g);
      CopyBackNext(h, d, j);
      ConcatAssociates(h, copied, [b]);
      copied := copied + [b];
    }
  }

  /** The reader's loop over its circular array computes the flat decoding. */
  method DecompressLzfu(payload: bytes, initial: bytes, maxOutput: int) returns (r: Result<bytes>)
    requires |initial| < SIZE
    ensures r == Decode(payload, [], initial, |initial|, maxOutput)
  {
    hide Decode, CopyBack, Distance, Bits;
    var dictionary := new byte[SIZE](i => if 0 <= i < |initial| then initial[i] else 0);
    var write: nat, end: nat := |initial|, |initial|;
    var output: bytes := [];
    var pos: nat, size := 0, |payload|;
    ghost var goal := Decode(payload, [], initial, |initial|, maxOutput);
    ghost var h := initial;
    assert dictionary[..] == InitialRing(initial).buffer;
    InitialRepresents(initial);
    while true
      invariant pos <= size
      invariant h == initial + output
      invariant Represents(Ring(dictionary[..], write, end), h)
      invariant |output| <= 8 * pos
      invariant goal == Decode(payload[pos..], [], h, |initial|, maxOutput)
      decreases size - pos
    {
      DecodeStep(payload[pos..], [], h, |initial|, maxOutput);
      if pos >= size {
        return Err(Format);
      }
      var bits := Bits(payload[pos], 8);
      pos := pos + 1;
      assert payload[pos - 1..][1..] == payload[pos..];
      ghost var start := pos;
      for bit := 0 to 8
        invariant start <= pos <= size
        invariant h == initial + output
        invariant Represents(Ring(dictionary[..], write, end), h)
        invariant |output| <= 8 * pos - 8 + bit
        invariant goal == Decode(payload[pos..], bits[bit..], h, |initial|, maxOutput)
      {
        ghost var p := payload[pos..];
        DecodeStep(p, bits[bit..], h, |initial|, maxOutput);
        assert bits[bit..][0] == bits[bit] && bits[bit..][1..] == bits[bit + 1..];
        if !bits[bit] {
          if pos >= size {
            return Err(Format);
          }
          if |output| >= maxOutput {
            return Err(Limit);
          }
          var b := payload[pos];
          pos := pos + 1;
          assert p[0] == b && p[1..] == payload[pos..];
          write, end := Put(dictionary, write, end, b, h);
          ConcatAssociates(initial, output, [b]);
          output := output + [b];
          h := h + [b];
          continue;
        }
        if pos + 2 > size {
          return Err(Format);
        }
        var token := BigEndian(payload[pos], payload[pos + 1]);
        pos := pos + 2;
        assert p[0] == payload[pos - 2] && p[1] == payload[pos - 1] && p[2..] == payload[pos..];
        var offset := TokenOffset(token);
        if offset == write {
          assert h[|initial|..] == output;
          return Ok(output);
        }
        if offset >= end {
          return Err(Format);
        }
        var length := TokenLength(token);
        if |output| + length > maxOutput {
          return Err(Limit);
        }
        ghost var d := Distance(|h|, offset);
        var copied;
        write, end, copied := Copy(dictionary, write, end, offset, length, h, d);
        ConcatAssociates(initial, output, copied);
        output := output + copied;
        h := h + copied;
      }
    }
  }
}
