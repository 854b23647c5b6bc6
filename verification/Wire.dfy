/** Bytes, refusals and the fixed-width integer encodings the readers share. */
module Wire {
  type byte = b: int | 0 <= b < 0x100 witness 0
  type bytes = seq<byte>

  /** Why a reader refuses its input; one constructor per exception class that can escape. */
  datatype Error =
    | Format        // PstFormatError
    | NotFound      // PstNotFoundError
    | Limit         // PstLimitError
    | BadArgument   // ValueError, a caller's mistake
    | DivideByZero  // ZeroDivisionError
    | TooWide       // struct.error: a value that does not fit its field

  datatype Result<+T> = Ok(value: T) | Err(error: Error)
  {
    predicate IsFailure() {
      Err?
    }

    function PropagateFailure<U>(): (r: Result<U>)
      requires Err?
    {
      Err(error)
    }

    function Extract(): T
      requires Ok?
    {
      value
    }
  }

  datatype Option<+T> = None | Some(value: T)

  function Min(a: int, b: int): int {
    if a < b then a else b
  }

  function Max(a: int, b: int): int {
    if a < b then b else a
  }

  function Pow2(i: nat): (p: nat)
    ensures p > 0
  {
    if i == 0 then 1 else 2 * Pow2(i - 1)
  }

  lemma ConcatAssociates<T>(a: seq<T>, b: seq<T>, c: seq<T>)
    ensures a + (b + c) == (a + b) + c
  {
  }

  // --- parts of byte sequences ---------------------------------------------------------

  /** `b"".join(items)`. */
  function Join(items: seq<bytes>): bytes {
    if items == [] then [] else items[0] + Join(items[1..])
  }

  lemma {:induction false} JoinSnoc(items: seq<bytes>, i: nat)
    requires i < |items|
    ensures Join(items[..i + 1]) == Join(items[..i]) + items[i]
    decreases i
  {
    if i == 0 {
      assert items[..1] == [items[0]];
      var one: seq<bytes> := [items[0]];
      assert one[1..] == [];
    } else {
      assert items[..i + 1][1..] == items[1..][..i] && items[..i][1..] == items[1..][..i - 1];
      JoinSnoc(items[1..], i - 1);
      ConcatAssociates(items[0], Join(items[1..][..i - 1]), items[i]);
    }
  }

  lemma SliceBehind(front: bytes, back: bytes, low: nat, high: nat)
    requires low <= high <= |back|
    ensures (front + back)[|front| + low..|front| + high] == back[low..high]
  {
  }

  lemma SliceOfTail(data: bytes, from: nat, low: nat, high: nat)
    requires low <= high && from + high <= |data|
    ensures data[from..][low..high] == data[from + low..from + high]
  {
  }

  lemma SliceOfSlice(data: bytes, start: nat, part: bytes, low: nat, high: nat)
    requires low <= high <= |part| && start + |part| <= |data| && data[start..start + |part|] == part
    ensures data[start + low..start + high] == part[low..high]
  {
    forall k | low <= k < high
      ensures data[start + k] == part[k]
    {
      assert data[start..start + |part|][k] == part[k];
    }
  }

  // --- quotients ------------------------------------------------------------------

  lemma TimesMonotonic(a: int, b: int, d: nat)
    requires a <= b
    ensures a * d <= b * d
  {
    assert (b - a) * d >= 0;
  }

  lemma OneMore(n: nat, stride: nat)
    ensures (n + 1) * stride == stride + n * stride
  {
  }

  lemma QuotientIs(n: nat, d: nat, q: nat, r: nat)
    requires r < d && n == q * d + r
    ensures n / d == q && n % d == r
  {
    var k := n / d;
    assert n == k * d + n % d;
    if k < q {
      TimesMonotonic(k + 1, q, d);
      assert false;
    } else if k > q {
      TimesMonotonic(q + 1, k, d);
      assert false;
    }
  }

  // --- little-endian fields -----------------------------------------------------

  function Pow256(width: nat): (p: nat)
    ensures p > 0
  {
    if width == 0 then 1 else 256 * Pow256(width - 1)
  }

  /** `n` as `width` little-endian bytes; what does not fit is cut off. */
  function LE(n: nat, width: nat): (b: bytes)
    ensures |b| == width
    decreases width
  {
    if width == 0 then [] else [n % 256] + LE(n / 256, width - 1)
  }

  function FromLE(b: bytes): (n: nat)
    ensures n < Pow256(|b|)
  {
    if b == [] then 0 else b[0] + 256 * FromLE(b[1..])
  }

  lemma {:induction false} FromLEofLE(n: nat, width: nat)
    requires n < Pow256(width)
    ensures FromLE(LE(n, width)) == n
    decreases width
  {
    if width > 0 {
      FromLEofLE(n / 256, width - 1);
      assert LE(n, width)[1..] == LE(n / 256, width - 1);
    }
  }

  lemma LENext(low: byte, rest: nat, width: nat)
    requires width > 0
    ensures LE(low + 256 * rest, width) == [low] + LE(rest, width - 1)
  {
    hide LE;
    var n := low + 256 * rest;
    LEHead(n, width);
    assert n % 256 == low && n / 256 == rest;
  }

  lemma LEHead(n: nat, width: nat)
    requires width > 0
    ensures LE(n, width) == [n % 256] + LE(n / 256, width - 1)
  {
  }

  lemma {:induction false} LEofFromLE(b: bytes)
    ensures LE(FromLE(b), |b|) == b
  {
    if b != [] {
      var rest := FromLE(b[1..]);
      LEofFromLE(b[1..]);
      LENext(b[0], rest, |b|);
      assert b == [b[0]] + b[1..];
    }
  }

  const U16 := 0x1_0000
  const U32 := 0x1_0000_0000
  const U64 := 0x1_0000_0000_0000_0000

  lemma FieldWidths()
    ensures Pow256(1) == 0x100 && Pow256(2) == U16 && Pow256(4) == U32 && Pow256(8) == U64
  {
    assert Pow256(2) == U16;
    assert Pow256(3) == 256 * Pow256(2);
    assert Pow256(4) == 256 * Pow256(3);
    assert Pow256(5) == 256 * Pow256(4);
    assert Pow256(6) == 256 * Pow256(5);
    assert Pow256(7) == 256 * Pow256(6);
    assert Pow256(8) == 256 * Pow256(7);
  }

  /** `struct.unpack_from` of one unsigned field, failing closed. */
  function Field(b: bytes, offset: nat, width: nat): (r: Result<nat>)
    ensures r.Ok? <==> offset + width <= |b|
    ensures r.Ok? ==> r.value < Pow256(width)
    ensures r.Err? ==> r.error == Format
  {
    if offset + width <= |b| then Ok(FromLE(b[offset..offset + width])) else Err(Format)
  }

  /** A field written after `prefix` reads back whatever follows it. */
  lemma FieldOfLE(prefix: bytes, n: nat, width: nat, suffix: bytes)
    requires n < Pow256(width)
    ensures Field(prefix + LE(n, width) + suffix, |prefix|, width) == Ok(n)
  {
    var b := prefix + LE(n, width) + suffix;
    assert b[|prefix|..|prefix| + width] == LE(n, width);
    FromLEofLE(n, width);
  }
}
