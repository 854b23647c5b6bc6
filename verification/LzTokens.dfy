/**
 LZFu payloads as token lists: what a list of tokens expands to, how it is written in runs of eight behind a
 control byte, and that the reader inverts the writing of every admissible list.
 */
module LzTokens {
  import opened Wire
  import opened LzDictionary
  import opened LzReader

  datatype Token = Literal(value: byte) | Reference(offset: nat, length: nat)

  /** A token the reader accepts when `n` bytes of history precede it and that is not the terminator. */
  predicate Admissible(n: nat, t: Token) {
    t.Reference? ==> t.offset < Min(n, SIZE) && t.offset != n % SIZE && 2 <= t.length <= MAX_MATCH
  }

  function Size(t: Token): nat {
    if t.Literal? then 1 else t.length
  }

  function Apply(h: bytes, t: Token): (r: bytes)
    requires Admissible(|h|, t)
    ensures |r| == |h| + Size(t) && h <= r
  {
    match t
    case Literal(b) => h + [b]
    case Reference(offset, length) => CopyBack(h, Distance(|h|, offset), length)
  }

  predicate AllAdmissible(n: nat, toks: seq<Token>)
    decreases |toks|
  {
    toks == [] || (Admissible(n, toks[0]) && AllAdmissible(n + Size(toks[0]), toks[1..]))
  }

  /** The history after all tokens. */
  function Expand(h: bytes, toks: seq<Token>): (r: bytes)
    requires AllAdmissible(|h|, toks)
    ensures h <= r
    decreases |toks|
  {
    if toks == [] then h else Expand(Apply(h, toks[0]), toks[1..])
  }

  lemma ExpandHead(h: bytes, toks: seq<Token>)
    requires toks != [] && AllAdmissible(|h|, toks)
    ensures Admissible(|h|, toks[0]) && AllAdmissible(|Apply(h, toks[0])|, toks[1..])
    ensures Expand(h, toks) == Expand(Apply(h, toks[0]), toks[1..])
    ensures |Apply(h, toks[0])| <= |Expand(h, toks)|
  {
  }

  function Sizes(toks: seq<Token>): nat {
    if toks == [] then 0 else Size(toks[0]) + Sizes(toks[1..])
  }

  lemma {:induction false} ExpandLength(h: bytes, toks: seq<Token>)
    requires AllAdmissible(|h|, toks)
    ensures |Expand(h, toks)| == |h| + Sizes(toks)
    decreases |toks|
  {
    if toks != [] {
      ExpandLength(Apply(h, toks[0]), toks[1..]);
    }
  }

  lemma {:induction false} ExpandSplit(h: bytes, a: seq<Token>, b: seq<Token>)
    requires AllAdmissible(|h|, a + b)
    ensures AllAdmissible(|h|, a) && AllAdmissible(|Expand(h, a)|, b)
    ensures Expand(h, a + b) == Expand(Expand(h, a), b)
    decreases |a|
  {
    if a == [] {
      assert a + b == b;
    } else {
      assert (a + b)[1..] == a[1..] + b;
      ExpandSplit(Apply(h, a[0]), a[1..], b);
    }
  }

  // --- the wire form --------------------------------------------------------------

  /** A reference on the wire: big-endian, offset in the top twelve bits, length minus two below. */
  function ReferenceWire(offset: nat, lengthMinus2: nat): (b: bytes)
    requires offset < SIZE && lengthMinus2 < 16
    ensures |b| == 2 && TokenOffset(BigEndian(b[0], b[1])) == offset
    ensures TokenLength(BigEndian(b[0], b[1])) == lengthMinus2 + 2
  {
    assert (offset * 16 + lengthMinus2) / 16 == offset;
    [(offset * 16 + lengthMinus2) / 256, (offset * 16 + lengthMinus2) % 256]
  }

  predicate Fits(t: Token) {
    t.Reference? ==> t.offset < SIZE && 2 <= t.length <= MAX_MATCH
  }

  function TokenWire(t: Token): (b: bytes)
    requires Fits(t)
    ensures |b| == if t.Literal? then 1 else 2
  {
    if t.Literal? then [t.value] else ReferenceWire(t.offset, t.length - 2)
  }

  predicate AllFit(toks: seq<Token>) {
    forall i :: 0 <= i < |toks| ==> Fits(toks[i])
  }

  function Wires(toks: seq<Token>): bytes
    requires AllFit(toks)
  {
    if toks == [] then [] else TokenWire(toks[0]) + Wires(toks[1..])
  }

  lemma {:induction false} WiresSnoc(toks: seq<Token>, t: Token)
    requires AllFit(toks) && Fits(t)
    ensures AllFit(toks + [t]) && Wires(toks + [t]) == Wires(toks) + TokenWire(t)
  {
    if toks == [] {
      assert toks + [t] == [t];
      assert Wires([t]) == TokenWire(t) + Wires([]);
    } else {
      assert (toks + [t])[1..] == toks[1..] + [t];
      WiresSnoc(toks[1..], t);
    }
  }

  predicate Bit(control: nat, i: nat) {
    Bits(control, i + 1)[i]
  }

  /** `control |= 1 << i`. */
  function SetBit(control: nat, i: nat): nat {
    if Bit(control, i) then control else control + Pow2(i)
  }

  /** The control byte of one run: bit `i` is set exactly when token `i` is a reference. */
  function Control(run: seq<Token>): nat
  {
    if run == [] then 0 else (if run[0].Reference? then 1 else 0) + 2 * Control(run[1..])
  }

  function Flags(run: seq<Token>): (flags: seq<bool>)
    ensures |flags| == |run|
  {
    if run == [] then [] else [run[0].Reference?] + Flags(run[1..])
  }

  lemma BitsNext(bit: bool, control: nat, n: nat)
    requires n > 0
    ensures Bits((if bit then 1 else 0) + 2 * control, n) == [bit] + Bits(control, n - 1)
  {
  }

  lemma {:induction false} BitsOfControl(run: seq<Token>, n: nat)
    requires |run| <= n
    ensures Bits(Control(run), n) == Flags(run) + seq(n - |run|, _ => false)
    decreases n
  {
    if run != [] {
      BitsOfControl(run[1..], n - 1);
      BitsNext(run[0].Reference?, Control(run[1..]), n);
    } else if n > 0 {
      BitsOfControl(run, n - 1);
      BitsNext(false, 0, n);
    }
  }

  lemma {:induction false} ControlSnoc(run: seq<Token>, t: Token)
    ensures Control(run + [t]) == Control(run) + if t.Reference? then Pow2(|run|) else 0
  {
    if run != [] {
      assert (run + [t])[1..] == run[1..] + [t];
      ControlSnoc(run[1..], t);
    } else {
      assert run + [t] == [t];
      assert [t][1..] == [];
      assert Control([t]) == (if t.Reference? then 1 else 0) + 2 * Control([]);
    }
  }

  /** Setting the bit of one more reference yields the control byte of the longer run. */
  lemma ControlSetBit(run: seq<Token>, t: Token)
    requires t.Reference?
    ensures Control(run + [t]) == SetBit(Control(run), |run|)
  {
    ControlSnoc(run, t);
    BitsOfControl(run, |run| + 1);
  }

  lemma {:induction false} ControlBound(run: seq<Token>)
    ensures Control(run) < Pow2(|run|)
  {
    if run != [] {
      ControlBound(run[1..]);
    }
  }

  lemma ByteControl(run: seq<Token>)
    requires |run| <= 8
    ensures Control(run) < 256
  {
    ControlBound(run);
    Pow2Mono(|run|, 8);
    assert Pow2(8) == 256;
  }

  lemma {:induction false} Pow2Mono(a: nat, b: nat)
    requires a <= b
    ensures Pow2(a) <= Pow2(b)
    decreases b
  {
    if a < b {
      Pow2Mono(a, b - 1);
    }
  }

  /** One full run, or the last one with the terminator, a reference to the write offset, behind it. */
  function Run(run: seq<Token>): bytes
    requires AllFit(run) && |run| <= 8
  {
    ByteControl(run);
    [Control(run)] + Wires(run)
  }

  function Terminator(term: nat): Token {
    Reference(term, 2)
  }

  function Payload(toks: seq<Token>, term: nat): bytes
    requires AllFit(toks) && term < SIZE
    decreases |toks|
  {
    if |toks| < 8 then Run(toks + [Terminator(term)])
    else Run(toks[..8]) + Payload(toks[8..], term)
  }

  // --- reading what was written ------------------------------------------------------

  lemma {:induction false} AdmissibleFits(n: nat, toks: seq<Token>)
    requires AllAdmissible(n, toks)
    ensures AllFit(toks)
    decreases |toks|
  {
    if toks != [] {
      AdmissibleFits(n + Size(toks[0]), toks[1..]);
      forall i | 0 <= i < |toks|
        ensures Fits(toks[i])
      {
        assert i > 0 ==> toks[i] == toks[1..][i - 1];
      }
    }
  }

  lemma WiresHead(run: seq<Token>, rest: bytes)
    requires run != [] && AllFit(run)
    ensures AllFit(run[1..]) && Wires(run) + rest == TokenWire(run[0]) + (Wires(run[1..]) + rest)
  {
  }

  lemma DecodeToken(t: Token, rest: bytes, flags: seq<bool>, h: bytes, base: nat, maxOutput: int)
    requires Admissible(|h|, t) && Fits(t) && base <= |h|
    requires |Apply(h, t)| - base <= maxOutput
    ensures Decode(TokenWire(t) + rest, [t.Reference?] + flags, h, base, maxOutput)
         == Decode(rest, flags, Apply(h, t), base, maxOutput)
  {
    var p, all := TokenWire(t) + rest, [t.Reference?] + flags;
    assert all[1..] == flags;
    if t.Literal? {
      assert p[0] == t.value && p[1..] == rest;
      DecodeLiteral(p, all, h, base, maxOutput);
    } else {
      assert p[0] == TokenWire(t)[0] && p[1] == TokenWire(t)[1] && p[2..] == rest;
      DecodeReference(p, all, h, base, maxOutput, t.offset, t.length);
    }
  }

  lemma DecodeTerminator(h: bytes, rest: bytes, flags: seq<bool>, base: nat, maxOutput: int)
    requires base <= |h|
    ensures Decode(TokenWire(Terminator(|h| % SIZE)) + rest, [true] + flags, h, base, maxOutput) == Ok(h[base..])
  {
    var t := Terminator(|h| % SIZE);
    var p := TokenWire(t) + rest;
    assert p[0] == TokenWire(t)[0] && p[1] == TokenWire(t)[1];
    DecodeEnd(p, [true] + flags, h, base, maxOutput);
  }

  lemma NoWires()
    ensures Wires([]) == []
  {
  }

  /** The reader works through the tokens of a run and arrives at their expansion. */
  lemma {:induction false} DecodeRun(
      run: seq<Token>, rest: bytes, flags: seq<bool>, h: bytes, base: nat, maxOutput: int)
    requires AllAdmissible(|h|, run) && AllFit(run) && base <= |h|
    requires |Expand(h, run)| - base <= maxOutput
    ensures Decode(Wires(run) + rest, Flags(run) + flags, h, base, maxOutput)
         == Decode(rest, flags, Expand(h, run), base, maxOutput)
    decreases |run|
  {
    hide Decode, TokenWire, Apply, Admissible, Fits, Wires;
    if run == [] {
      NoWires();
      assert Wires(run) + rest == rest;
      assert Flags(run) + flags == flags;
    } else {
      WiresHead(run, rest);
      ExpandHead(h, run);
      assert Flags(run) + flags == [run[0].Reference?] + (Flags(run[1..]) + flags);
      DecodeToken(run[0], Wires(run[1..]) + rest, Flags(run[1..]) + flags, h, base, maxOutput);
      DecodeRun(run[1..], rest, flags, Apply(h, run[0]), base, maxOutput);
    }
  }

  lemma LastRunDecodes(toks: seq<Token>, h: bytes, base: nat, maxOutput: int)
    requires AllAdmissible(|h|, toks) && AllFit(toks) && base <= |h| && |toks| < 8
    requires |Expand(h, toks)| - base <= maxOutput
    ensures Decode(Run(toks + [Terminator(|Expand(h, toks)| % SIZE)]), [], h, base, maxOutput)
         == Ok(Expand(h, toks)[base..])
  {
    hide Decode;
    var t := Terminator(|Expand(h, toks)| % SIZE);
    var run, w, off := toks + [t], TokenWire(t), seq(7 - |toks|, _ => false);
    WiresSnoc(toks, t);
    var p := Run(run);
    DecodeControl(p, h, base, maxOutput);
    assert p[1..] == Wires(toks) + (w + []);
    BitsOfControl(run, 8);
    FlagsSnoc(toks, t);
    assert Bits(p[0], 8) == Flags(toks) + ([true] + off);
    DecodeRun(toks, w + [], [true] + off, h, base, maxOutput);
    DecodeTerminator(Expand(h, toks), [], off, base, maxOutput);
  }

  lemma {:induction false} FlagsSnoc(run: seq<Token>, t: Token)
    ensures Flags(run + [t]) == Flags(run) + [t.Reference?]
  {
    if run == [] {
      assert run + [t] == [t];
    } else {
      assert (run + [t])[1..] == run[1..] + [t];
      FlagsSnoc(run[1..], t);
    }
  }

  lemma FullRunDecodes(run: seq<Token>, rest: bytes, h: bytes, base: nat, maxOutput: int)
    requires AllAdmissible(|h|, run) && AllFit(run) && base <= |h| && |run| == 8
    requires |Expand(h, run)| - base <= maxOutput
    ensures Decode(Run(run) + rest, [], h, base, maxOutput) == Decode(rest, [], Expand(h, run), base, maxOutput)
  {
    hide Decode, Run, Wires, Control, Flags, Bits, Expand, AllAdmissible, AllFit;
    var p := Run(run) + rest;
    RunParts(run, rest);
    DecodeControl(p, h, base, maxOutput);
    BitsOfControl(run, 8);
    assert Bits(p[0], 8) == Flags(run) + [];
    DecodeRun(run, rest, [], h, base, maxOutput);
  }

  lemma RunParts(run: seq<Token>, rest: bytes)
    requires AllFit(run) && |run| <= 8
    ensures var p := Run(run) + rest;
            p != [] && p[0] == Control(run) && p[1..] == Wires(run) + rest
  {
    hide Wires, Control;
    var p := Run(run) + rest;
    assert p[1..] == Wires(run) + rest;
  }

  /** Reading inverts writing, for every admissible token list whose expansion stays within the ceiling. */
  lemma {:induction false} PayloadDecodes(toks: seq<Token>, h: bytes, base: nat, maxOutput: int)
    requires AllAdmissible(|h|, toks) && AllFit(toks) && base <= |h|
    requires |Expand(h, toks)| - base <= maxOutput
    ensures Decode(Payload(toks, |Expand(h, toks)| % SIZE), [], h, base, maxOutput)
         == Ok(Expand(h, toks)[base..])
    decreases |toks|
  {
    if |toks| < 8 {
      LastRunDecodes(toks, h, base, maxOutput);
    } else {
      var run, rest := toks[..8], toks[8..];
      assert toks == run + rest;
      ExpandSplit(h, run, rest);
      FullRunDecodes(run, Payload(rest, |Expand(h, toks)| % SIZE), h, base, maxOutput);
      PayloadDecodes(rest, Expand(h, run), base, maxOutput);
    }
  }

  /** A payload is never much longer than what it stands for. */
  lemma {:induction false} PayloadLength(toks: seq<Token>, term: nat)
    requires AllFit(toks) && term < SIZE
    ensures |Payload(toks, term)| <= Sizes(toks) + |toks| / 8 + 3
    ensures |toks| <= Sizes(toks)
    decreases |toks|
  {
    if |toks| < 8 {
      WiresSnoc(toks, Terminator(term));
      WiresLength(toks);
    } else {
      WiresLength(toks[..8]);
      PayloadLength(toks[8..], term);
      assert toks == toks[..8] + toks[8..];
      SizesConcat(toks[..8], toks[8..]);
    }
  }

  lemma {:induction false} WiresLength(toks: seq<Token>)
    requires AllFit(toks)
    ensures |Wires(toks)| <= Sizes(toks) && |toks| <= Sizes(toks)
  {
    if toks != [] {
      WiresLength(toks[1..]);
    }
  }

  lemma {:induction false} SizesConcat(a: seq<Token>, b: seq<Token>)
    ensures Sizes(a + b) == Sizes(a) + Sizes(b)
  {
    if a == [] {
      assert a + b == b;
    } else {
      assert (a + b)[1..] == a[1..] + b;
      SizesConcat(a[1..], b);
    }
  }
}
