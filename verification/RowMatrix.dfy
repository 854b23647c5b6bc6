/**
 The row matrix of a table context ([MS-PST] section 2.3.4.4): rows packed into blocks, whole rows only, addressed
 by bisecting the running row counts.
 */
module RowMatrix {
  import opened Wire
  import opened Limits
  import opened Bisect
  import opened TableLayout

  // --- the rows of the blocks, one after the other --------------------------------------------

  /** The whole rows at the start of a block; what is left is padding. */
  function Rows(block: bytes, width: nat): seq<bytes>
    requires width > 0
    decreases |block|
  {
    if |block| < width then [] else [block[..width]] + Rows(block[width..], width)
  }

  /** All rows of all blocks. */
  function AllRows(blocks: seq<bytes>, width: nat): seq<bytes>
    requires width > 0
  {
    if blocks == [] then [] else AllRows(blocks[..|blocks| - 1], width) + Rows(blocks[|blocks| - 1], width)
  }

  /** Row `i` of a block is where the arithmetic looks for it. */
  lemma {:induction false} RowsAt(block: bytes, width: nat, i: nat)
    requires width > 0 && i < |Rows(block, width)|
    ensures i * width + width <= |block|
    ensures Rows(block, width)[i] == block[i * width..i * width + width]
    decreases i
  {
    if i > 0 {
      RowsAt(block[width..], width, i - 1);
      OneMore(i - 1, width);
      var at := (i - 1) * width;
      SliceOfTail(block, width, at, at + width);
    } else {
      assert 0 * width == 0;
    }
  }

  lemma {:induction false} RowsBounds(block: bytes, width: nat)
    requires width > 0
    ensures |Rows(block, width)| * width <= |block| < |Rows(block, width)| * width + width
    decreases |block|
  {
    if |block| >= width {
      RowsBounds(block[width..], width);
      OneMore(|Rows(block[width..], width)|, width);
    }
  }

  /** A block holds as many rows as its length divided by the width, rounded down. */
  lemma RowsCount(block: bytes, width: nat)
    requires width > 0
    ensures |Rows(block, width)| == |block| / width
  {
    var n := |Rows(block, width)|;
    RowsBounds(block, width);
    QuotientIs(|block|, width, n, |block| - n * width);
  }

  /** The row counts of the first blocks, added up: where each block's rows start, and the total. */
  function Starts(blocks: seq<bytes>, width: nat): (starts: seq<nat>)
    requires width > 0
    ensures |starts| == |blocks| + 1
  {
    seq<nat>(|blocks| + 1, i requires 0 <= i <= |blocks| => |AllRows(blocks[..i], width)|)
  }

  lemma AllRowsSnoc(blocks: seq<bytes>, width: nat, i: nat)
    requires width > 0 && i < |blocks|
    ensures AllRows(blocks[..i + 1], width) == AllRows(blocks[..i], width) + Rows(blocks[i], width)
  {
    assert blocks[..i + 1][..i] == blocks[..i];
  }

  lemma {:induction false} AllRowsPrefix(blocks: seq<bytes>, width: nat, i: nat, j: nat)
    requires width > 0 && i <= j <= |blocks|
    ensures AllRows(blocks[..i], width) <= AllRows(blocks[..j], width)
    decreases j - i
  {
    if i < j {
      AllRowsPrefix(blocks, width, i, j - 1);
      AllRowsSnoc(blocks, width, j - 1);
    }
  }

  lemma StartsSorted(blocks: seq<bytes>, width: nat)
    requires width > 0
    ensures Sorted(Starts(blocks, width))
    ensures Starts(blocks, width)[|blocks|] == |AllRows(blocks, width)|
  {
    forall i, j | 0 <= i <= j <= |blocks|
      ensures Starts(blocks, width)[i] <= Starts(blocks, width)[j]
    {
      AllRowsPrefix(blocks, width, i, j);
    }
    assert blocks[..|blocks|] == blocks;
  }

  /**
   The block bisecting picks and the offset in it: a slice of one block, and the row of that number among all rows,
   whatever blocks hold no row or end in a ragged tail.
   */
  lemma RowIsSlice(blocks: seq<bytes>, width: nat, index: nat) returns (block: nat, offset: nat)
    requires width > 0 && index < |AllRows(blocks, width)|
    ensures block + 1 == Position(Starts(blocks, width), index, 0, |blocks| + 1) && block < |blocks|
    ensures Starts(blocks, width)[block] <= index && offset == (index - Starts(blocks, width)[block]) * width
    ensures offset + width <= |blocks[block]|
    ensures AllRows(blocks, width)[index] == blocks[block][offset..offset + width]
  {
    hide Position, Rows, AllRows;
    var starts := Starts(blocks, width);
    StartsSorted(blocks, width);
    PositionSplits(starts, index, 0, |starts|);
    NothingBefore(blocks, width);
    var p := Position(starts, index, 0, |starts|);
    assert starts[|blocks|] > index >= starts[0];
    block := p - 1;
    offset := (index - starts[block]) * width;
    RowInBlock(blocks, width, index, block);
  }

  lemma NothingBefore(blocks: seq<bytes>, width: nat)
    requires width > 0
    ensures Starts(blocks, width)[0] == 0
  {
  }

  lemma RowInBlock(blocks: seq<bytes>, width: nat, index: nat, block: nat)
    requires width > 0 && block < |blocks|
    requires Starts(blocks, width)[block] <= index < Starts(blocks, width)[block + 1]
    ensures index < |AllRows(blocks, width)|
    ensures var offset := (index - Starts(blocks, width)[block]) * width;
            offset + width <= |blocks[block]| && AllRows(blocks, width)[index] == blocks[block][offset..offset + width]
  {
    hide Rows, AllRows, Starts;
    StartsAt(blocks, width, block);
    StartsAt(blocks, width, block + 1);
    AllRowsSnoc(blocks, width, block);
    AllRowsPrefix(blocks, width, block + 1, |blocks|);
    assert blocks[..|blocks|] == blocks;
    RowsAt(blocks[block], width, index - Starts(blocks, width)[block]);
  }

  lemma StartsAt(blocks: seq<bytes>, width: nat, i: nat)
    requires width > 0 && i <= |blocks|
    ensures Starts(blocks, width)[i] == |AllRows(blocks[..i], width)|
  {
    hide AllRows;
  }

  // --- what opening the matrix checks ---------------------------------------------------------------

  function TotalBytes(blocks: seq<bytes>): nat {
    if blocks == [] then 0 else TotalBytes(blocks[..|blocks| - 1]) + |blocks[|blocks| - 1]|
  }

  /** The rows of a table, or why its matrix is refused; a width of 0 divides by zero if there is any block. */
  function TableRows(info: Info, blocks: seq<bytes>, limits: Limits): (r: Result<seq<bytes>>)
    ensures r.Ok? ==> |r.value| <= limits.maxItems && (r.value != [] ==> info.end4 >= ROW_HEADER_SIZE)
  {
    if TotalBytes(blocks) > limits.maxAllocation then Err(Limit)
    else if blocks == [] then Ok([])
    else if info.RowWidth() == 0 then Err(DivideByZero)
    else
      var rows := AllRows(blocks, info.RowWidth());
      if rows != [] && info.end4 < ROW_HEADER_SIZE then Err(Format)
      else if |rows| > limits.maxItems then Err(Limit)
      else Ok(rows)
  }

  /** A valid layout divides by zero exactly for a block in a table of no columns and no regions. */
  lemma DividesByZeroIff(info: Info, blocks: seq<bytes>, limits: Limits)
    requires info.Valid()
    ensures TableRows(info, blocks, limits) == Err(DivideByZero)
            <==> blocks != [] && TotalBytes(blocks) <= limits.maxAllocation
                 && info.columns == [] && info.end4 == 0 && info.end2 == 0 && info.end1 == 0
  {
    hide AllRows, TotalBytes;
    NoWidthIff(info);
  }

  /** A layout validation accepts, and a matrix of one byte that cannot be opened. */
  lemma DividesByZero(limits: Limits)
    requires 0 < limits.maxAllocation
    ensures var info := Info(0, 0, 0, 0, []);
            info.Valid() && TableRows(info, [[1]], limits) == Err(DivideByZero)
  {
    var info, blocks: seq<bytes> := Info(0, 0, 0, 0, []), [[1]];
    assert blocks[..0] == [];
    assert TotalBytes(blocks) == TotalBytes(blocks[..0]) + 1;
    DividesByZeroIff(info, blocks, limits);
  }

  /** Every row of a table with a valid layout is as wide as its regions, and has room for its header. */
  lemma RowsHaveWidth(info: Info, blocks: seq<bytes>, limits: Limits, index: nat)
    requires info.Valid() && TableRows(info, blocks, limits).Ok? && index < |TableRows(info, blocks, limits).value|
    ensures |TableRows(info, blocks, limits).value[index]| == info.RowWidth() >= ROW_HEADER_SIZE
  {
    var block, offset := RowIsSlice(blocks, info.RowWidth(), index);
  }

  class TableContext {
    const info: Info
    const blocks: seq<bytes>
    const limits: Limits
    var matrix: Option<seq<bytes>>
    var counts: seq<nat>
    var starts: seq<nat>

    /** Once read, the matrix is the blocks, accepted, with their counts and where their rows start. */
    ghost predicate Valid()
      reads this
    {
      matrix.Some? ==>
        && matrix.value == blocks
        && TableRows(info, blocks, limits).Ok?
        && (blocks == [] ==> starts == [0] && counts == [])
        && (blocks != [] ==> info.RowWidth() > 0 && starts == Starts(blocks, info.RowWidth()))
        && |counts| == |blocks|
        && forall i :: 0 <= i < |blocks| ==> counts[i] == |Rows(blocks[i], info.RowWidth())|
    }

    /** `blocks` is what the table's row reference reads as: no block for a table without rows. */
    constructor (info: Info, blocks: seq<bytes>, limits: Limits)
      ensures Valid() && this.info == info && this.blocks == blocks && this.limits == limits
    {
      this.info := info;
      this.blocks := blocks;
      this.limits := limits;
      matrix := None;
      counts := [];
      starts := [];
    }

    /** The matrix blocks, once, with the rows each holds. */
    method ReadMatrix() returns (refused: Option<Error>)
      requires Valid()
      modifies this`matrix, this`counts, this`starts
      ensures Valid()
      ensures refused == if TableRows(info, blocks, limits).Ok? then None else Some(TableRows(info, blocks, limits).error)
      ensures refused.None? ==> matrix.Some?
      ensures refused.Some? ==> matrix == old(matrix)
    {
      if matrix.Some? {
        return None;
      }
      var total := SumLengths(blocks);
      if total > limits.maxAllocation {
        return Some(Limit);
      }
      var width := info.RowWidth();
      if blocks != [] && width == 0 {
        return Some(DivideByZero);
      }
      var found, running := RowCounts(blocks, width);
      var rows := running[|running| - 1];
      if blocks != [] {
        StartsSorted(blocks, width);
      }
      if rows > 0 && info.end4 < ROW_HEADER_SIZE {
        return Some(Format);
      }
      if rows > limits.maxItems {
        return Some(Limit);
      }
      matrix := Some(blocks);
      counts := found;
      starts := running;
      return None;
    }

    static method SumLengths(blocks: seq<bytes>) returns (total: nat)
      ensures total == TotalBytes(blocks)
    {
      total := 0;
      for i := 0 to |blocks|
        invariant total == TotalBytes(blocks[..i])
      {
        assert blocks[..i + 1][..i] == blocks[..i];
        total := total + |blocks[i]|;
      }
      assert blocks[..|blocks|] == blocks;
    }

    /** Each block's floor, and the running sums. */
    static method RowCounts(blocks: seq<bytes>, width: nat) returns (counts: seq<nat>, starts: seq<nat>)
      requires blocks != [] ==> width > 0
      ensures |counts| == |blocks| && starts != []
      ensures blocks == [] ==> starts == [0]
      ensures blocks != [] ==> starts == Starts(blocks, width)
      ensures forall i :: 0 <= i < |blocks| ==> counts[i] == |Rows(blocks[i], width)|
    {
      counts := [];
      for i := 0 to |blocks|
        invariant |counts| == i
        invariant forall j :: 0 <= j < i ==> counts[j] == |Rows(blocks[j], width)|
      {
        RowsCount(blocks[i], width);
        counts := counts + [|blocks[i]| / width];
      }
      starts := [0];
      if blocks == [] {
        return;
      }
      for i := 0 to |counts|
        invariant starts == Starts(blocks, width)[..i + 1]
      {
        AllRowsSnoc(blocks, width, i);
        starts := starts + [starts[i] + counts[i]];
      }
    }

    /** The rows in the matrix. */
    method RowCount() returns (r: Result<nat>)
      requires Valid()
      modifies this`matrix, this`counts, this`starts
      ensures Valid()
      ensures r == (if TableRows(info, blocks, limits).Ok? then Ok(|TableRows(info, blocks, limits).value|)
                    else Err(TableRows(info, blocks, limits).error))
    {
      var refused := ReadMatrix();
      if refused.Some? {
        return Err(refused.value);
      }
      if blocks != [] {
        StartsSorted(blocks, info.RowWidth());
      }
      return Ok(starts[|starts| - 1]);
    }

    /** The bytes of one row: the row of that number, refused past the last one. */
    method RowBytes(index: int) returns (r: Result<bytes>)
      requires Valid()
      modifies this`matrix, this`counts, this`starts
      ensures Valid()
      ensures r == RowAt(TableRows(info, blocks, limits), index)
      ensures r.Ok? ==> matrix.Some?
    {
      hide AllRows, Rows, TotalBytes, Starts, Position;
      var refused := ReadMatrix();
      if refused.Some? {
        return Err(refused.value);
      }
      if blocks != [] {
        StartsSorted(blocks, info.RowWidth());
      }
      if index < 0 || index >= starts[|starts| - 1] {
        return Err(Format);
      }
      ghost var b, o := RowIsSlice(blocks, info.RowWidth(), index);
      var p := BisectRight(starts, index);
      var offset := (index - starts[p - 1]) * info.RowWidth();
      return Ok(matrix.value[p - 1][offset..offset + info.RowWidth()]);
    }

    /** Every row in matrix order. */
    method AllRowBytes() returns (r: Result<seq<bytes>>)
      requires Valid()
      modifies this`matrix, this`counts, this`starts
      ensures Valid()
      ensures r == TableRows(info, blocks, limits)
    {
      var refused := ReadMatrix();
      if refused.Some? {
        return Err(refused.value);
      }
      if blocks != [] {
        StartsSorted(blocks, info.RowWidth());
      }
      var found: seq<bytes> := [];
      ghost var rows := TableRows(info, blocks, limits).value;
      var n := starts[|starts| - 1];
      for index := 0 to n
        invariant Valid() && n == |rows| && found == rows[..index]
      {
        var row := RowBytes(index);
        found := found + [row.value];
      }
      assert rows[..n] == rows;
      return Ok(found);
    }
  }

  function RowAt(rows: Result<seq<bytes>>, index: int): Result<bytes> {
    if rows.Err? then Err(rows.error)
    else if 0 <= index < |rows.value| then Ok(rows.value[index])
    else Err(Format)
  }
}
