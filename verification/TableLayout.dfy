/**
 The row layout of a table context ([MS-PST] section 2.3.4): where TCINFO lets a column's cell be, and where a cell
 is then read.
 */
module TableLayout {
  import opened Wire

  const ROW_HEADER_SIZE := 8
  const MAX_COLUMNS := 0xFF
  const ROW_ID := 0x67F2
  const ROW_VERSION := 0x67F3

  /** A column's property type by the shape of its cell; `Handle` is a 4-byte reference to a value elsewhere. */
  datatype Shape = OneByte | TwoBytes | Long | FourBytes | EightBytes | Handle | NoCell
  {
    function Width(): nat {
      match this
      case OneByte => 1
      case TwoBytes => 2
      case Long | FourBytes | Handle => 4
      case EightBytes => 8
      case NoCell => 0
    }
  }

  datatype Column = Column(shape: Shape, propId: nat, offset: nat, size: nat, bit: nat)

  /** TCINFO: the ends of the row's four regions and the columns. */
  datatype Info = Info(end4: nat, end2: nat, end1: nat, endBitmap: nat, columns: seq<Column>)
  {
    function RowWidth(): nat {
      endBitmap
    }

    function BitmapSize(): nat {
      (|columns| + 7) / 8
    }

    predicate Valid() {
      && |columns| <= MAX_COLUMNS
      && end4 % 4 == 0 && end2 % 2 == 0 && end4 <= end2 <= end1 <= endBitmap
      && endBitmap - end1 == BitmapSize()
      && forall c :: c in columns ==> ValidColumn(c)
    }

    predicate ValidColumn(c: Column) {
      && (c.shape.Long? && c.propId == ROW_ID ==> c.offset == 0 && c.bit == 0)
      && (c.shape.Long? && c.propId == ROW_VERSION ==> c.offset == 4 && c.bit == 1)
      && !c.shape.NoCell?
      && (match c.shape
          case OneByte => end2 <= c.offset < end1
          case TwoBytes => c.offset % 2 == 0 && end4 <= c.offset && c.offset + 2 <= end2
          case _ => c.offset % 4 == 0 && c.offset + c.shape.Width() <= end4)
      && c.size == c.shape.Width()
      && c.bit <= |columns|
    }

    /** `_check_offset`: inside [`low`, `high`) with room for the whole cell. */
    function CheckOffset(c: Column, low: nat, high: nat): Result<nat> {
      if c.offset < low || c.offset + c.size > high then Err(Format) else Ok(c.offset)
    }

    /** Where the wire form of a present cell starts. */
    function CellOffset(c: Column): Result<nat> {
      match c.shape
      case Handle => CheckOffset(c, ROW_HEADER_SIZE, end4)
      case OneByte => CheckOffset(c, end2, end1)
      case TwoBytes => CheckOffset(c, end4, end2)
      case Long => if c.offset == 0 || c.offset == 4 then Ok(c.offset) else CheckOffset(c, ROW_HEADER_SIZE, end4)
      case _ => CheckOffset(c, ROW_HEADER_SIZE, end4)
    }
  }

  /**
   The check of the offset when a cell is read is called redundant where it is made. It is not: it refuses a cell of
   a validated column exactly when that cell overlaps the row header without being one of its two integers.
   */
  lemma CheckOffsetRefusesIff(info: Info, c: Column)
    requires info.Valid() && c in info.columns
    ensures info.CellOffset(c).Err?
            <==> c.offset < ROW_HEADER_SIZE && (c.shape.FourBytes? || c.shape.EightBytes? || c.shape.Handle?)
  {
    assert info.ValidColumn(c);
  }

  /** A layout validation accepts, with a cell that cannot be read: a 4-byte one on top of the row id. */
  lemma CheckOffsetRefuses()
    ensures var c := Column(FourBytes, 0x3001, 0, 4, 0);
            var info := Info(8, 8, 8, 9, [c]);
            info.Valid() && info.CellOffset(c) == Err(Format)
  {
  }

  /** Whether a column's bit is set; the most significant bit of a byte comes first. */
  function ExistenceBit(bit: nat, bitmap: bytes): Result<bool> {
    if bit >= |bitmap| * 8 then Err(Format) else Ok(bitmap[bit / 8] / Pow2(7 - bit % 8) % 2 == 1)
  }

  /** A validated column's bit can lie past the bitmap only on the boundary validation lets through. */
  lemma ExistenceBitRefusesIff(info: Info, c: Column, bitmap: bytes)
    requires info.Valid() && c in info.columns && |bitmap| == info.BitmapSize()
    ensures ExistenceBit(c.bit, bitmap).Err? <==> c.bit == |info.columns| && |info.columns| % 8 == 0
  {
    assert info.ValidColumn(c);
    var n := |info.columns|;
    assert n == 8 * (n / 8) + n % 8;
    assert n % 8 == 0 ==> info.BitmapSize() == n / 8;
    assert n % 8 > 0 ==> info.BitmapSize() == n / 8 + 1;
  }

  /** A cell that is read lies inside the row, in front of the bitmap, with room for all of it. */
  lemma CellInRow(info: Info, c: Column)
    requires info.Valid() && c in info.columns && info.CellOffset(c).Ok?
    ensures c.offset + c.size <= info.end1 <= info.RowWidth()
    ensures info.CellOffset(c) == Ok(c.offset)
  {
    assert info.ValidColumn(c);
  }

  /** Rows of no width are possible: a table with no columns and no regions at all. */
  lemma NoWidthIff(info: Info)
    requires info.Valid()
    ensures info.RowWidth() == 0 <==> info.columns == [] && info.end4 == 0 && info.end2 == 0 && info.end1 == 0
  {
    if info.columns != [] {
      assert info.BitmapSize() >= 1;
    }
  }
}
