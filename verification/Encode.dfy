/**
 Block encodings: the permutative substitution and the cyclic transform ([MS-PST] sections 5.1 and 5.2).
 */
module Encode {
  import opened Wire

  /** Entry `c` of one row of a table. */
  function Pick(c: int, v0: int, v1: int, v2: int, v3: int, v4: int, v5: int, v6: int, v7: int,
                v8: int, v9: int, v10: int, v11: int, v12: int, v13: int, v14: int, v15: int): int
  {
    if c < 4 then if c < 2 then (if c < 1 then v0 else v1) else (if c < 3 then v2 else v3)
    else if c < 8 then if c < 6 then (if c < 5 then v4 else v5) else (if c < 7 then v6 else v7)
    else if c < 12 then if c < 10 then (if c < 9 then v8 else v9) else (if c < 11 then v10 else v11)
    else if c < 14 then (if c < 13 then v12 else v13) else (if c < 15 then v14 else v15)
  }

  /** The first 256 entries of the key data, the encoding permutation, sixteen to a row. */
  function KeyR(b: int): int {
    if b < 128 then
      if b < 64 then
        if b < 32 then
          if b < 16 then
            Pick(b, 65, 54, 19, 98, 168, 33, 110, 187, 244, 22, 204, 4, 127, 100, 232, 93)
          else
            Pick(b - 16, 30, 242, 203, 42, 116, 197, 94, 53, 210, 149, 71, 158, 150, 45, 154, 136)
        else
          if b < 48 then
            Pick(b - 32, 76, 125, 132, 63, 219, 172, 49, 182, 72, 95, 246, 196, 216, 57, 139, 231)
          else
            Pick(b - 48, 35, 59, 56, 142, 200, 193, 223, 37, 177, 32, 165, 70, 96, 78, 156, 251)
      else
        if b < 96 then
          if b < 80 then
            Pick(b - 64, 170, 211, 86, 81, 69, 124, 85, 0, 7, 201, 43, 157, 133, 155, 9, 160)
          else
            Pick(b - 80, 143, 173, 179, 15, 99, 171, 137, 75, 215, 167, 21, 90, 113, 102, 66, 191)
        else
          if b < 112 then
            Pick(b - 96, 38, 74, 107, 152, 250, 234, 119, 83, 178, 112, 5, 44, 253, 89, 58, 134)
          else
            Pick(b - 112, 126, 206, 6, 235, 130, 120, 87, 199, 141, 67, 175, 180, 28, 212, 91, 205)
    else
      if b < 192 then
        if b < 160 then
          if b < 144 then
            Pick(b - 128, 226, 233, 39, 79, 195, 8, 114, 128, 207, 176, 239, 245, 40, 109, 190, 48)
          else
            Pick(b - 144, 77, 52, 146, 213, 14, 60, 34, 50, 229, 228, 249, 159, 194, 209, 10, 129)
        else
          if b < 176 then
            Pick(b - 160, 18, 225, 238, 145, 131, 118, 227, 151, 230, 97, 138, 23, 121, 164, 183, 220)
          else
            Pick(b - 176, 144, 122, 92, 140, 2, 166, 202, 105, 222, 80, 26, 17, 147, 185, 82, 135)
      else
        if b < 224 then
          if b < 208 then
            Pick(b - 192, 88, 252, 237, 29, 55, 73, 27, 106, 224, 41, 51, 153, 189, 108, 217, 148)
          else
            Pick(b - 208, 243, 64, 84, 111, 240, 198, 115, 184, 214, 62, 101, 24, 68, 31, 221, 103)
        else
          if b < 240 then
            Pick(b - 224, 16, 241, 12, 25, 236, 174, 3, 161, 20, 123, 169, 11, 255, 248, 163, 192)
          else
            Pick(b - 240, 162, 1, 247, 46, 188, 36, 104, 117, 13, 254, 186, 47, 181, 208, 218, 61)
  }

  /** The middle 256 entries. */
  function KeyS(b: int): int {
    if b < 128 then
      if b < 64 then
        if b < 32 then
          if b < 16 then
            Pick(b, 20, 83, 15, 86, 179, 200, 122, 156, 235, 101, 72, 23, 22, 21, 159, 2)
          else
            Pick(b - 16, 204, 84, 124, 131, 0, 13, 12, 11, 162, 98, 168, 118, 219, 217, 237, 199)
        else
          if b < 48 then
            Pick(b - 32, 197, 164, 220, 172, 133, 116, 214, 208, 167, 155, 174, 154, 150, 113, 102, 195)
          else
            Pick(b - 48, 99, 153, 184, 221, 115, 146, 142, 132, 125, 165, 94, 209, 93, 147, 177, 87)
      else
        if b < 96 then
          if b < 80 then
            Pick(b - 64, 81, 80, 128, 137, 82, 148, 79, 78, 10, 107, 188, 141, 127, 110, 71, 70)
          else
            Pick(b - 80, 65, 64, 68, 1, 17, 203, 3, 63, 247, 244, 225, 169, 143, 60, 58, 249)
        else
          if b < 112 then
            Pick(b - 96, 251, 240, 25, 48, 130, 9, 46, 201, 157, 160, 134, 73, 238, 111, 77, 109)
          else
            Pick(b - 112, 196, 45, 129, 52, 37, 135, 27, 136, 170, 252, 6, 161, 18, 56, 253, 76)
    else
      if b < 192 then
        if b < 160 then
          if b < 144 then
            Pick(b - 128, 66, 114, 100, 19, 55, 36, 106, 117, 119, 67, 255, 230, 180, 75, 54, 92)
          else
            Pick(b - 144, 228, 216, 53, 61, 69, 185, 44, 236, 183, 49, 43, 41, 7, 104, 163, 14)
        else
          if b < 176 then
            Pick(b - 160, 105, 123, 24, 158, 33, 57, 190, 40, 26, 91, 120, 245, 35, 202, 42, 176)
          else
            Pick(b - 176, 175, 62, 254, 4, 140, 231, 229, 152, 50, 149, 211, 246, 74, 232, 166, 234)
      else
        if b < 224 then
          if b < 208 then
            Pick(b - 192, 233, 243, 213, 47, 112, 32, 242, 31, 5, 103, 173, 85, 16, 206, 205, 227)
          else
            Pick(b - 208, 39, 59, 218, 186, 215, 194, 38, 212, 145, 29, 210, 28, 34, 51, 248, 250)
        else
          if b < 240 then
            Pick(b - 224, 241, 90, 239, 207, 144, 182, 139, 181, 189, 192, 191, 8, 151, 30, 108, 226)
          else
            Pick(b - 240, 97, 224, 198, 193, 89, 171, 187, 88, 222, 95, 223, 96, 121, 126, 178, 138)
  }

  /** The last 256 entries, the decoding permutation. */
  function KeyI(b: int): int {
    if b < 128 then
      if b < 64 then
        if b < 32 then
          if b < 16 then
            Pick(b, 71, 241, 180, 230, 11, 106, 114, 72, 133, 78, 158, 235, 226, 248, 148, 83)
          else
            Pick(b - 16, 224, 187, 160, 2, 232, 90, 9, 171, 219, 227, 186, 198, 124, 195, 16, 221)
        else
          if b < 48 then
            Pick(b - 32, 57, 5, 150, 48, 245, 55, 96, 130, 140, 201, 19, 74, 107, 29, 243, 251)
          else
            Pick(b - 48, 143, 38, 151, 202, 145, 23, 1, 196, 50, 45, 110, 49, 149, 255, 217, 35)
      else
        if b < 96 then
          if b < 80 then
            Pick(b - 64, 209, 0, 94, 121, 220, 68, 59, 26, 40, 197, 97, 87, 32, 144, 61, 131)
          else
            Pick(b - 80, 185, 67, 190, 103, 210, 70, 66, 118, 192, 109, 91, 126, 178, 15, 22, 41)
        else
          if b < 112 then
            Pick(b - 96, 60, 169, 3, 84, 13, 218, 93, 223, 246, 183, 199, 98, 205, 141, 6, 211)
          else
            Pick(b - 112, 105, 92, 134, 214, 20, 247, 165, 102, 117, 172, 177, 233, 69, 33, 112, 12)
    else
      if b < 192 then
        if b < 160 then
          if b < 144 then
            Pick(b - 128, 135, 159, 116, 164, 34, 76, 111, 191, 31, 86, 170, 46, 179, 120, 51, 80)
          else
            Pick(b - 144, 176, 163, 146, 188, 207, 25, 28, 167, 99, 203, 30, 77, 62, 75, 27, 155)
        else
          if b < 176 then
            Pick(b - 160, 79, 231, 240, 238, 173, 58, 181, 89, 4, 234, 64, 85, 37, 81, 229, 122)
          else
            Pick(b - 176, 137, 56, 104, 82, 123, 252, 39, 174, 215, 189, 250, 7, 244, 204, 142, 95)
      else
        if b < 224 then
          if b < 208 then
            Pick(b - 192, 239, 53, 156, 132, 43, 21, 213, 119, 52, 73, 182, 18, 10, 127, 113, 136)
          else
            Pick(b - 208, 253, 157, 24, 65, 125, 147, 216, 88, 44, 206, 254, 36, 175, 222, 184, 54)
        else
          if b < 240 then
            Pick(b - 224, 200, 161, 128, 166, 153, 152, 168, 47, 14, 129, 101, 115, 228, 194, 162, 138)
          else
            Pick(b - 240, 212, 225, 17, 208, 8, 139, 42, 242, 237, 154, 100, 63, 193, 108, 249, 236)
  }

  // What the tables promise, a quarter of a table at a time.

  lemma RThenI0(b: int)
    requires 0 <= b < 64
    ensures 0 <= KeyR(b) < 256 && KeyI(KeyR(b)) == b
  {
  }

  lemma RThenI1(b: int)
    requires 64 <= b < 128
    ensures 0 <= KeyR(b) < 256 && KeyI(KeyR(b)) == b
  {
  }

  lemma RThenI2(b: int)
    requires 128 <= b < 192
    ensures 0 <= KeyR(b) < 256 && KeyI(KeyR(b)) == b
  {
  }

  lemma RThenI3(b: int)
    requires 192 <= b < 256
    ensures 0 <= KeyR(b) < 256 && KeyI(KeyR(b)) == b
  {
  }

  lemma IThenR0(b: int)
    requires 0 <= b < 64
    ensures 0 <= KeyI(b) < 256 && KeyR(KeyI(b)) == b
  {
  }

  lemma IThenR1(b: int)
    requires 64 <= b < 128
    ensures 0 <= KeyI(b) < 256 && KeyR(KeyI(b)) == b
  {
  }

  lemma IThenR2(b: int)
    requires 128 <= b < 192
    ensures 0 <= KeyI(b) < 256 && KeyR(KeyI(b)) == b
  {
  }

  lemma IThenR3(b: int)
    requires 192 <= b < 256
    ensures 0 <= KeyI(b) < 256 && KeyR(KeyI(b)) == b
  {
  }

  lemma SThenS0(b: int)
    requires 0 <= b < 64
    ensures 0 <= KeyS(b) < 256 && KeyS(KeyS(b)) == b
  {
  }

  lemma SThenS1(b: int)
    requires 64 <= b < 128
    ensures 0 <= KeyS(b) < 256 && KeyS(KeyS(b)) == b
  {
  }

  lemma SThenS2(b: int)
    requires 128 <= b < 192
    ensures 0 <= KeyS(b) < 256 && KeyS(KeyS(b)) == b
  {
  }

  lemma SThenS3(b: int)
    requires 192 <= b < 256
    ensures 0 <= KeyS(b) < 256 && KeyS(KeyS(b)) == b
  {
  }

  /** I and R are inverse permutations of the bytes, and S is its own inverse. */
  lemma KeyFacts(b: byte)
    ensures 0 <= KeyR(b) < 256 && KeyI(KeyR(b)) == b
    ensures 0 <= KeyI(b) < 256 && KeyR(KeyI(b)) == b
    ensures 0 <= KeyS(b) < 256 && KeyS(KeyS(b)) == b
  {
    hide KeyR, KeyS, KeyI;
    if b < 64 {
      RThenI0(b);
      IThenR0(b);
      SThenS0(b);
    } else if b < 128 {
      RThenI1(b);
      IThenR1(b);
      SThenS1(b);
    } else if b < 192 {
      RThenI2(b);
      IThenR2(b);
      SThenS2(b);
    } else {
      RThenI3(b);
      IThenR3(b);
      SThenS3(b);
    }
  }

  // --- the transforms ----------------------------------------------------------------

  /** Addition and subtraction wrapping at a byte. */
  function Plus(a: byte, b: byte): (r: byte)
    ensures r == if a + b < 256 then a + b else a + b - 256
  {
    (a + b) % 256
  }

  function Minus(a: byte, b: byte): (r: byte)
    ensures r == if b <= a then a - b else a - b + 256
  {
    (a - b) % 256
  }

  /** The tables as functions on bytes. */
  function R(b: byte): byte {
    KeyFacts(b);
    KeyR(b)
  }

  function S(b: byte): byte {
    KeyFacts(b);
    KeyS(b)
  }

  function I(b: byte): byte {
    KeyFacts(b);
    KeyI(b)
  }

  lemma TableFacts(b: byte)
    ensures I(R(b)) == b && R(I(b)) == b && S(S(b)) == b
  {
    hide KeyR, KeyS, KeyI;
    KeyFacts(b);
  }

  /** `bytes.translate` with the decoding table. */
  function DecodePermute(data: bytes): (r: bytes)
    ensures |r| == |data|
  {
    seq(|data|, i requires 0 <= i < |data| => I(data[i]))
  }

  function EncodePermute(data: bytes): (r: bytes)
    ensures |r| == |data|
  {
    seq(|data|, i requires 0 <= i < |data| => R(data[i]))
  }

  lemma PermuteRoundTrip(data: bytes)
    ensures DecodePermute(EncodePermute(data)) == data
    ensures EncodePermute(DecodePermute(data)) == data
  {
    hide R, I;
    forall i | 0 <= i < |data|
      ensures DecodePermute(EncodePermute(data))[i] == data[i] && EncodePermute(DecodePermute(data))[i] == data[i]
    {
      TableFacts(data[i]);
    }
  }

  /** One byte of the cyclic transform under the 16-bit key `k`. */
  function Turn(b: byte, k: nat): byte {
    var low, high := k % 256, k / 256 % 256;
    Minus(I(Minus(S(Plus(R(Plus(b, low)), high)), high)), low)
  }

  /** Under the same key the transform of a byte is its own inverse. */
  lemma TurnTwice(b: byte, k: nat)
    ensures Turn(Turn(b, k), k) == b
  {
    var low: byte, high: byte := k % 256, k / 256 % 256;
    assert Turn(b, k) == Minus(I(Minus(S(Plus(R(Plus(b, low)), high)), high)), low);
    hide R, S, I;
    var x := Plus(b, low);
    var y := Plus(R(x), high);
    var z := Minus(S(y), high);
    TableFacts(x);
    TableFacts(y);
    TableFacts(z);
    assert Plus(Turn(b, k), low) == I(z);
    assert Plus(R(I(z)), high) == S(y);
    assert Minus(S(S(y)), high) == R(x);
  }

  /** The 32-bit key folded to 16 bits: `(key ^ (key >> 16)) & 0xFFFF`. */
  function FoldKey(key: nat): (k: nat)
    ensures k < U16
  {
    ((key % U16) as bv16 ^ (key / U16 % U16) as bv16) as nat
  }

  /** The transform from key `k` on; the key advances by one per byte and wraps at 16 bits. */
  function Cyclic(data: bytes, k: nat): (r: bytes)
    ensures |r| == |data|
  {
    if data == [] then [] else [Turn(data[0], k)] + Cyclic(data[1..], (k + 1) % U16)
  }

  lemma {:induction false} CyclicTwice(data: bytes, k: nat)
    ensures Cyclic(Cyclic(data, k), k) == data
  {
    hide Turn, Cyclic;
    if data == [] {
      CyclicNothing(k);
    } else {
      var once, next := Cyclic(data, k), (k + 1) % U16;
      CyclicHead(data, k);
      CyclicHead(once, k);
      TurnTwice(data[0], k);
      assert once[1..] == Cyclic(data[1..], next);
      CyclicTwice(data[1..], next);
      assert data == [data[0]] + data[1..];
    }
  }

  lemma CyclicNothing(k: nat)
    ensures Cyclic([], k) == []
  {
  }

  lemma CyclicHead(data: bytes, k: nat)
    requires data != []
    ensures Cyclic(data, k) == [Turn(data[0], k)] + Cyclic(data[1..], (k + 1) % U16)
  {
  }

  /** Byte `i` depends on byte `i` and on the key advanced `i` times. */
  lemma {:induction false} CyclicAt(data: bytes, k: nat, i: nat)
    requires i < |data| && k < U16
    ensures Cyclic(data, k)[i] == Turn(data[i], (k + i) % U16)
    decreases i
  {
    hide Turn, Cyclic;
    CyclicHead(data, k);
    if i > 0 {
      CyclicAt(data[1..], (k + 1) % U16, i - 1);
      KeyAdvances(k, i);
    }
  }

  lemma KeyAdvances(k: nat, i: nat)
    requires k < U16 && i > 0
    ensures ((k + 1) % U16 + (i - 1)) % U16 == (k + i) % U16
  {
  }

  function Transformed(data: bytes, key: int): Result<bytes> {
    if key < 0 then Err(BadArgument) else Ok(Cyclic(data, FoldKey(key)))
  }

  /** The byte loop over an output buffer, advancing the key. */
  method EncodeDecodeCyclic(data: bytes, key: int) returns (r: Result<bytes>)
    ensures r == Transformed(data, key)
  {
    hide Turn;
    if key < 0 {
      return Err(BadArgument);
    }
    var k: nat := FoldKey(key);
    var out := new byte[|data|](_ => 0);
    ghost var done: bytes := [];
    for index := 0 to |data|
      invariant k < U16 && |done| == index && out[..index] == done
      invariant done + Cyclic(data[index..], k) == Cyclic(data, FoldKey(key))
    {
      assert data[index..][1..] == data[index + 1..];
      ghost var b := Turn(data[index], k);
      out[index] := Turn(data[index], k);
      ConcatAssociates(done, [b], Cyclic(data[index + 1..], (k + 1) % U16));
      done := done + [b];
      k := (k + 1) % U16;
    }
    assert done + [] == done;
    assert out[..] == out[..|data|];
    return Ok(out[..]);
  }

  /** Applied twice under one key, whatever the key, the cyclic transform is the identity. */
  lemma CyclicInvolution(data: bytes, key: nat)
    ensures Transformed(data, key).Ok?
    ensures Transformed(Transformed(data, key).value, key) == Ok(data)
  {
    CyclicTwice(data, FoldKey(key));
  }

  const NONE := 0
  const PERMUTE := 1
  const CYCLIC := 2

  /** Decoding by the header's method; a method nobody knows is refused rather than read as plain text. */
  function DecodeBlock(data: bytes, cryptMethod: nat, key: int): Result<bytes> {
    if cryptMethod == NONE then Ok(data)
    else if cryptMethod == PERMUTE then Ok(DecodePermute(data))
    else if cryptMethod == CYCLIC then Transformed(data, key)
    else Err(BadArgument)
  }

  /** The encoding whose inverse the reader applies; the cyclic transform is its own. */
  function EncodeBlock(data: bytes, cryptMethod: nat, key: int): Result<bytes> {
    if cryptMethod == PERMUTE then Ok(EncodePermute(data)) else DecodeBlock(data, cryptMethod, key)
  }

  /** What is encoded by any known method decodes to itself. */
  lemma EncodeBlockDecodes(data: bytes, cryptMethod: nat, key: int)
    requires EncodeBlock(data, cryptMethod, key).Ok?
    ensures var stored := EncodeBlock(data, cryptMethod, key).value;
            |stored| == |data| && DecodeBlock(stored, cryptMethod, key) == Ok(data)
  {
    hide EncodePermute, DecodePermute, Cyclic;
    if cryptMethod == PERMUTE {
      PermuteRoundTrip(data);
    } else if cryptMethod == CYCLIC {
      CyclicInvolution(data, key);
    }
  }

  /** Decoding keeps the length and loses nothing: equal decodings come from equal stored bytes. */
  lemma DecodeBlockInjective(a: bytes, b: bytes, cryptMethod: nat, key: int)
    requires DecodeBlock(a, cryptMethod, key).Ok? && DecodeBlock(a, cryptMethod, key) == DecodeBlock(b, cryptMethod, key)
    ensures a == b && |DecodeBlock(a, cryptMethod, key).value| == |a|
  {
    if cryptMethod == PERMUTE {
      PermuteRoundTrip(a);
      PermuteRoundTrip(b);
    } else if cryptMethod == CYCLIC {
      CyclicInvolution(a, key);
      CyclicInvolution(b, key);
    }
  }
}
