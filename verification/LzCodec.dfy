/** PR_RTF_COMPRESSED values: the 16-byte header around the LZFu payload, written and read, and the round trip. */
module LzCodec {
  import opened Wire
  import opened LzDictionary
  import opened LzSearch
  import opened LzWriter
  import opened LzReader
  import opened LzTokens
  import opened LzCompressor

  const HEADER_SIZE := 16
  const COMPRESSED := 0x75465A4C
  const UNCOMPRESSED := 0x414C454D

  type Word = n: int | 0 <= n < U32

  /** The CRC of [MS-OXRTFCP] section 2.1.3.2 as an unknown function of the payload. */
  type Crc = bytes -> Word

  datatype Header = Header(compSize: nat, rawSize: nat, isCompressed: bool, crc: nat)

  function PackHeader(compSize: nat, rawSize: nat, compType: nat, crc: nat): (b: bytes)
    ensures |b| == HEADER_SIZE
  {
    LE(compSize, 4) + LE(rawSize, 4) + LE(compType, 4) + LE(crc, 4)
  }

  function ReadHeader(data: bytes): Result<Header>
  {
    if |data| < HEADER_SIZE then Err(Format)
    else
      var compSize, rawSize := FromLE(data[0..4]), FromLE(data[4..8]);
      var compType, crc := FromLE(data[8..12]), FromLE(data[12..16]);
      if compSize + 4 != |data| then Err(Format)
      else if compType != COMPRESSED && compType != UNCOMPRESSED then Err(Format)
      else Ok(Header(compSize, rawSize, compType == COMPRESSED, crc))
  }

  lemma HeaderRoundTrip(compSize: nat, rawSize: nat, compType: nat, crc: nat, payload: bytes)
    requires compSize < U32 && rawSize < U32 && crc < U32
    requires compType == COMPRESSED || compType == UNCOMPRESSED
    requires compSize == |payload| + 12
    ensures var data := PackHeader(compSize, rawSize, compType, crc) + payload;
            && ReadHeader(data) == Ok(Header(compSize, rawSize, compType == COMPRESSED, crc))
            && data[HEADER_SIZE..] == payload
  {
    hide LE, FromLE, Pow256;
    FieldWidths();
    FromLEofLE(compSize, 4);
    FromLEofLE(rawSize, 4);
    FromLEofLE(compType, 4);
    FromLEofLE(crc, 4);
    var head := PackHeader(compSize, rawSize, compType, crc);
    var data := head + payload;
    assert head[0..4] == LE(compSize, 4) && head[4..8] == LE(rawSize, 4);
    assert head[8..12] == LE(compType, 4) && head[12..16] == LE(crc, 4);
    assert data[0..4] == head[0..4] && data[4..8] == head[4..8];
    assert data[8..12] == head[8..12] && data[12..16] == head[12..16];
  }

  // --- writing --------------------------------------------------------------------

  /** The payload the compressor writes for `raw`. */
  function CompressedPayload(raw: bytes, initial: bytes): bytes
    requires 0 < |initial| < SIZE
  {
    GreedyFits(initial, raw, 0);
    Payload(Greedy(initial, raw, 0), (|initial| + |raw|) % SIZE)
  }

  /** `struct.pack_into` refuses a size that does not fit its 32-bit field. */
  function WithHeader(payload: bytes, rawSize: nat, compType: nat, crc: nat): Result<bytes> {
    if |payload| + 12 < U32 && rawSize < U32
    then Ok(PackHeader(|payload| + 12, rawSize, compType, crc) + payload)
    else Err(TooWide)
  }

  function Compressed(raw: bytes, initial: bytes, crc: Crc): Result<bytes>
    requires 0 < |initial| < SIZE
  {
    var payload := CompressedPayload(raw, initial);
    WithHeader(payload, |raw|, COMPRESSED, crc(payload))
  }

  /** What one search means for the token list and the dictionary. */
  lemma SearchedToken(initial: bytes, raw: bytes, cursor: nat, f: Found)
    requires 0 < |initial| < SIZE && cursor < |raw|
    requires f == Search(DictionaryAt(initial, raw, cursor), raw, cursor)
    ensures var t := TokenAt(initial, raw, cursor);
            && t == (if f.length >= 2 then Reference(f.offset, f.length) else Literal(raw[cursor]))
            && f.ring == DictionaryAt(initial, raw, cursor + Size(t))
            && Greedy(initial, raw, cursor) == [t] + Greedy(initial, raw, cursor + Size(t))
  {
    hide Search;
    DictionaryLockstep(initial, raw, cursor);
  }

  /** One token: search, then write a reference or a literal. The dictionary stays in lockstep with the input. */
  method WriteToken(dictionary: Dictionary, initial: bytes, raw: bytes, cursor: nat, exhaustive: bool)
    returns (isReference: bool, wire: bytes, next: nat, ghost t: Token)
    requires 0 < |initial| < SIZE && cursor < |raw| && dictionary.Valid()
    requires dictionary.Contents() == DictionaryAt(initial, raw, cursor)
    modifies dictionary, dictionary.buffer
    ensures dictionary.Valid()
    ensures Fits(t) && isReference == t.Reference? && wire == TokenWire(t)
    ensures next == cursor + Size(t) && cursor < next <= |raw|
    ensures dictionary.Contents() == DictionaryAt(initial, raw, next)
    ensures Greedy(initial, raw, cursor) == [t] + Greedy(initial, raw, next)
  {
    hide Greedy, TokenAt, DictionaryAt, Search;
    t := TokenAt(initial, raw, cursor);
    var offset, length := dictionary.FindLongestMatch(raw, cursor, exhaustive);
    SearchedToken(initial, raw, cursor, Found(offset, length, dictionary.Contents()));
    if length >= 2 {
      return true, ReferenceWire(offset, length - 2), cursor + length, t;
    } else {
      return false, [raw[cursor]], cursor + 1, t;
    }
  }

  /** The greedy tokens from `start` are `run` and then those from `cursor`. */
  ghost predicate Splits(initial: bytes, raw: bytes, start: nat, run: seq<Token>, cursor: nat)
    requires 0 < |initial| < SIZE
  {
    && start <= cursor <= |raw|
    && AllFit(run)
    && Greedy(initial, raw, start) == run + Greedy(initial, raw, cursor)
  }

  lemma RunGrows(run: seq<Token>, t: Token)
    requires AllFit(run) && Fits(t)
    ensures AllFit(run + [t])
    ensures Wires(run + [t]) == Wires(run) + TokenWire(t)
    ensures Control(run + [t]) == if t.Reference? then SetBit(Control(run), |run|) else Control(run)
  {
    WiresSnoc(run, t);
    if t.Reference? {
      ControlSetBit(run, t);
    } else {
      ControlSnoc(run, t);
    }
  }

  lemma SplitsNext(initial: bytes, raw: bytes, start: nat, run: seq<Token>, cursor: nat, t: Token, next: nat)
    requires 0 < |initial| < SIZE && Splits(initial, raw, start, run, cursor)
    requires Fits(t) && cursor <= next <= |raw|
    requires Greedy(initial, raw, cursor) == [t] + Greedy(initial, raw, next)
    ensures Splits(initial, raw, start, run + [t], next)
  {
    ConcatAssociates(run, [t], Greedy(initial, raw, next));
  }

  lemma TerminatorClosesRun(initial: bytes, raw: bytes, run: seq<Token>)
    requires 0 < |initial| < SIZE && AllFit(run) && |run| < 8
    ensures var w := DictionaryAt(initial, raw, |raw|).write;
            var all := run + [Terminator(w)];
            && w == (|initial| + |raw|) % SIZE
            && AllFit(all)
            && SetBit(Control(run), |run|) == Control(all) < 256
            && Wires(run) + ReferenceWire(w, 0) == Wires(all)
  {
    hide DictionaryAt, Control, Wires, SetBit, AllFit;
    TerminatorOffset(initial, raw);
    var w := (|initial| + |raw|) % SIZE;
    RunGrows(run, Terminator(w));
    WiresSnoc(run, Terminator(w));
    ControlSetBit(run, Terminator(w));
    ByteControl(run + [Terminator(w)]);
  }

  lemma TerminatorOffset(initial: bytes, raw: bytes)
    requires 0 < |initial| < SIZE
    ensures DictionaryAt(initial, raw, |raw|).write == (|initial| + |raw|) % SIZE
  {
    hide DictionaryAt;
    DictionaryRepresents(initial, raw, |raw|);
  }

  /** One run: a control byte's worth of tokens, or fewer and the terminator. */
  method WriteRun(dictionary: Dictionary, initial: bytes, raw: bytes, start: nat, exhaustive: bool)
    returns (control: byte, tokens: bytes, cursor: nat, finished: bool, ghost run: seq<Token>)
    requires 0 < |initial| < SIZE && start <= |raw| && dictionary.Valid()
    requires dictionary.Contents() == DictionaryAt(initial, raw, start)
    modifies dictionary, dictionary.buffer
    ensures dictionary.Valid() && start <= cursor <= |raw|
    ensures dictionary.Contents() == DictionaryAt(initial, raw, cursor)
    ensures Splits(initial, raw, start, run, cursor)
    ensures finished ==> cursor == |raw| && |run| < 8
    ensures finished ==> [control] + tokens == Run(run + [Terminator((|initial| + |raw|) % SIZE)])
    ensures !finished ==> start < cursor && |run| == 8 && [control] + tokens == Run(run)
  {
    hide TokenAt;
    var c: nat := 0;
    tokens, cursor, finished, run := [], start, false, [];
    for bit := 0 to 8
      invariant dictionary.Valid() && |run| == bit && !finished
      invariant Splits(initial, raw, start, run, cursor)
      invariant bit > 0 ==> start < cursor
      invariant dictionary.Contents() == DictionaryAt(initial, raw, cursor)
      invariant c == Control(run) && tokens == Wires(run)
    {
      if cursor >= |raw| {
        TerminatorClosesRun(initial, raw, run);
        tokens := tokens + ReferenceWire(dictionary.write, 0);
        c := SetBit(c, bit);
        finished := true;
        return c, tokens, cursor, finished, run;
      }
      var isReference, wire, next, t := WriteToken(dictionary, initial, raw, cursor, exhaustive);
      SplitsNext(initial, raw, start, run, cursor, t, next);
      RunGrows(run, t);
      tokens := tokens + wire;
      if isReference {
        c := SetBit(c, bit);
      }
      cursor := next;
      run := run + [t];
    }
    ByteControl(run);
    control := c;
  }

  /** What is written and what the tokens from `cursor` on still add. */
  ghost function Rest(out: bytes, initial: bytes, raw: bytes, cursor: nat): bytes
    requires 0 < |initial| < SIZE && cursor <= |raw|
  {
    GreedyFits(initial, raw, cursor);
    out + Payload(Greedy(initial, raw, cursor), (|initial| + |raw|) % SIZE)
  }

  lemma RestNext(out: bytes, initial: bytes, raw: bytes, start: nat, run: seq<Token>, cursor: nat)
    requires 0 < |initial| < SIZE && start <= |raw| && Splits(initial, raw, start, run, cursor)
    ensures |run| == 8 ==> Rest(out + Run(run), initial, raw, cursor) == Rest(out, initial, raw, start)
    ensures |run| < 8 && cursor == |raw| ==>
              out + Run(run + [Terminator((|initial| + |raw|) % SIZE)]) == Rest(out, initial, raw, start)
  {
    var toks := Greedy(initial, raw, start);
    GreedyFits(initial, raw, start);
    GreedyFits(initial, raw, cursor);
    if |run| == 8 {
      assert toks[..8] == run && toks[8..] == Greedy(initial, raw, cursor);
      ConcatAssociates(out, Run(run), Payload(toks[8..], (|initial| + |raw|) % SIZE));
    } else if cursor == |raw| {
      assert toks == run;
    }
  }

  /** The compressor's loop, run by run until the input is used up. */
  method CompressRtf(raw: bytes, initial: bytes, crc: Crc, exhaustive: bool) returns (r: Result<bytes>)
    requires 0 < |initial| < SIZE
    ensures r == Compressed(raw, initial, crc)
  {
    hide TokenAt;
    var dictionary := new Dictionary(initial);
    var out: bytes := [];
    var cursor: nat := 0;
    assert raw[..0] == [];
    while true
      invariant cursor <= |raw|
      invariant dictionary.Valid() && fresh(dictionary) && fresh(dictionary.buffer)
      invariant dictionary.Contents() == DictionaryAt(initial, raw, cursor)
      invariant Rest(out, initial, raw, cursor) == CompressedPayload(raw, initial)
      decreases |raw| - cursor
    {
      var control, tokens, next, finished, run := WriteRun(dictionary, initial, raw, cursor, exhaustive);
      RestNext(out, initial, raw, cursor, run, next);
      ConcatAssociates(out, [control], tokens);
      out := out + [control];
      out := out + tokens;
      if finished {
        break;
      }
      cursor := next;
    }
    return WithHeader(out, |raw|, COMPRESSED, crc(out));
  }

  /** A body stored as it is: the CRC is zero by rule. */
  function Stored(raw: bytes): Result<bytes> {
    WithHeader(raw, |raw|, UNCOMPRESSED, 0)
  }

  // --- reading --------------------------------------------------------------------

  function Decompressed(data: bytes, initial: bytes, crc: Crc, maxOutput: int): Result<bytes>
    requires |initial| < SIZE
  {
    var header :- ReadHeader(data);
    var payload := data[HEADER_SIZE..];
    if header.rawSize > maxOutput then Err(Limit)
    else if !header.isCompressed then
      if header.rawSize > |payload| then Err(Format) else Ok(payload[..header.rawSize])
    else if crc(payload) != header.crc then Err(Format)
    else Decode(payload, [], initial, |initial|, maxOutput)
  }

  method DecompressRtf(data: bytes, initial: bytes, crc: Crc, maxOutput: int) returns (r: Result<bytes>)
    requires |initial| < SIZE
    ensures r == Decompressed(data, initial, crc, maxOutput)
  {
    var header := ReadHeader(data);
    if header.Err? {
      return Err(header.error);
    }
    if header.value.rawSize > maxOutput {
      return Err(Limit);
    }
    var payload := data[HEADER_SIZE..];
    if !header.value.isCompressed {
      if header.value.rawSize > |payload| {
        return Err(Format);
      }
      return Ok(payload[..header.value.rawSize]);
    }
    if crc(payload) != header.value.crc {
      return Err(Format);
    }
    r := DecompressLzfu(payload, initial, maxOutput);
  }

  /** No value decompresses past the ceiling, nor past eight times its own payload. */
  lemma DecompressedBounds(data: bytes, initial: bytes, crc: Crc, maxOutput: nat)
    requires |initial| < SIZE
    ensures var r := Decompressed(data, initial, crc, maxOutput);
            r.Ok? ==> |data| >= HEADER_SIZE && |r.value| <= Min(maxOutput, 8 * (|data| - HEADER_SIZE))
  {
    var r := Decompressed(data, initial, crc, maxOutput);
    if r.Ok? {
      assert initial[|initial|..] == [];
      OutputBounds(data[HEADER_SIZE..], [], initial, |initial|, maxOutput, 0);
    }
  }

  // --- the round trip -----------------------------------------------------------------

  /** A control byte for every eight tokens and one terminator is all that compressing can cost. */
  lemma CompressedSize(raw: bytes, initial: bytes)
    requires 0 < |initial| < SIZE
    ensures |CompressedPayload(raw, initial)| <= |raw| + |raw| / 8 + 3
  {
    var toks := Greedy(initial, raw, 0);
    GreedyFits(initial, raw, 0);
    GreedyAdmissible(initial, raw, 0);
    PayloadLength(toks, (|initial| + |raw|) % SIZE);
  }

  /** What the greedy tokens expand to has the length of the input, and is the input exactly when all are clean. */
  lemma GreedyExpansion(raw: bytes, initial: bytes)
    requires 0 < |initial| < SIZE
    ensures AllAdmissible(|initial|, Greedy(initial, raw, 0))
    ensures |Expand(initial, Greedy(initial, raw, 0))| == |initial| + |raw|
    ensures Expand(initial, Greedy(initial, raw, 0)) == initial + raw <==> AllClean(initial, raw, 0)
  {
    hide TokenAt, Greedy, Expand, AllClean;
    GreedyAdmissible(initial, raw, 0);
    ExpandLength(initial, Greedy(initial, raw, 0));
    assert History(initial, raw, 0) == initial;
    GreedyExpands(initial, raw, 0);
  }

  /** A payload decodes to the expansion of its tokens, whatever they expand to. */
  lemma TokensDecode(payload: bytes, toks: seq<Token>, n: nat, initial: bytes, maxOutput: int)
    requires AllAdmissible(|initial|, toks) && AllFit(toks)
    requires n - |initial| <= maxOutput && n == |Expand(initial, toks)|
    requires payload == Payload(toks, n % SIZE)
    ensures Decode(payload, [], initial, |initial|, maxOutput) == Ok(Expand(initial, toks)[|initial|..])
  {
    PayloadDecodes(toks, initial, |initial|, maxOutput);
  }

  lemma BehindInitial(full: bytes, initial: bytes, raw: bytes)
    requires initial <= full && |full| == |initial| + |raw|
    ensures full[|initial|..] == raw <==> full == initial + raw
  {
    assert full == initial + full[|initial|..];
    assert (initial + raw)[|initial|..] == raw;
  }

  lemma PayloadRoundTrip(raw: bytes, initial: bytes, maxOutput: int)
    requires 0 < |initial| < SIZE && |raw| <= maxOutput
    ensures var r := Decode(CompressedPayload(raw, initial), [], initial, |initial|, maxOutput);
            r.Ok? && |r.value| == |raw| && (r.value == raw <==> AllClean(initial, raw, 0))
  {
    hide TokenAt, Decode, Greedy, Expand, AllClean, Payload, AllAdmissible, AllFit;
    var toks := Greedy(initial, raw, 0);
    GreedyFits(initial, raw, 0);
    GreedyExpansion(raw, initial);
    TokensDecode(CompressedPayload(raw, initial), toks, |initial| + |raw|, initial, maxOutput);
    BehindInitial(Expand(initial, toks), initial, raw);
  }

  lemma HeaderIsTransparent(raw: bytes, initial: bytes, crc: Crc, maxOutput: int)
    requires 0 < |initial| < SIZE && |raw| <= maxOutput && Compressed(raw, initial, crc).Ok?
    ensures Decompressed(Compressed(raw, initial, crc).value, initial, crc, maxOutput)
         == Decode(CompressedPayload(raw, initial), [], initial, |initial|, maxOutput)
  {
    hide CompressedPayload, PackHeader, ReadHeader, Decode;
    var payload := CompressedPayload(raw, initial);
    HeaderRoundTrip(|payload| + 12, |raw|, COMPRESSED, crc(payload), payload);
  }

  /**
   Decompressing what was compressed never fails and keeps the length; it returns the input exactly when every
   token of the stream is clean.
   */
  lemma RoundTrip(raw: bytes, initial: bytes, crc: Crc, maxOutput: int)
    requires 0 < |initial| < SIZE && |raw| <= maxOutput
    ensures var data := Compressed(raw, initial, crc);
            data.Ok? ==>
              var r := Decompressed(data.value, initial, crc, maxOutput);
              && r.Ok? && |r.value| == |raw|
              && (r.value == raw <==> AllClean(initial, raw, 0))
  {
    if Compressed(raw, initial, crc).Ok? {
      PayloadRoundTrip(raw, initial, maxOutput);
      HeaderIsTransparent(raw, initial, crc, maxOutput);
    }
  }

  /** Sufficient, and visible in the stream: each reference starts at least `length - 1` slots ahead. */
  lemma RoundTripFarAhead(raw: bytes, initial: bytes, crc: Crc, maxOutput: int)
    requires 0 < |initial| < SIZE && |raw| <= maxOutput
    ensures var data := Compressed(raw, initial, crc);
            data.Ok? && FarAhead(initial, raw, 0) ==> Decompressed(data.value, initial, crc, maxOutput) == Ok(raw)
  {
    if Compressed(raw, initial, crc).Ok? && FarAhead(initial, raw, 0) {
      FarAheadIsClean(initial, raw, 0);
      RoundTrip(raw, initial, crc, maxOutput);
    }
  }

  /** A body whose sizes are sure to fit their fields is compressed. */
  lemma CompressedFits(raw: bytes, initial: bytes, crc: Crc)
    requires 0 < |initial| < SIZE && |raw| + |raw| / 8 + 15 < U32
    ensures Compressed(raw, initial, crc).Ok?
  {
    hide CompressedPayload;
    CompressedSize(raw, initial);
  }

  /** Every input that fits the dictionary behind the initial string survives the round trip. */
  lemma RoundTripUnwrapped(raw: bytes, initial: bytes, crc: Crc, maxOutput: int)
    requires 0 < |initial| && |initial| + |raw| <= SIZE && |initial| < SIZE && |raw| <= maxOutput
    ensures Compressed(raw, initial, crc).Ok?
    ensures Decompressed(Compressed(raw, initial, crc).value, initial, crc, maxOutput) == Ok(raw)
  {
    CompressedFits(raw, initial, crc);
    hide Compressed, Decompressed;
    UnwrappedIsFarAhead(initial, raw, 0);
    RoundTripFarAhead(raw, initial, crc, maxOutput);
  }

  /** The stored form needs no condition but its fields' widths. */
  lemma StoredRoundTrip(raw: bytes, initial: bytes, crc: Crc, maxOutput: int)
    requires |initial| < SIZE && |raw| <= maxOutput && |raw| + 12 < U32
    ensures Stored(raw).Ok? && Decompressed(Stored(raw).value, initial, crc, maxOutput) == Ok(raw)
  {
    HeaderRoundTrip(|raw| + 12, |raw|, UNCOMPRESSED, 0, raw);
    assert raw[..|raw|] == raw;
  }
}
