/** Cells, rows and render updates on the wire: nested, length-prefixed, and exact. */
module Render {
  import opened Basics
  import opened Bytes

  datatype WireCell = WireCell(
    codepoint: U32,
    fgR: Byte, fgG: Byte, fgB: Byte, fgType: Byte,
    bgR: Byte, bgG: Byte, bgB: Byte, bgType: Byte,
    flags: U16,
    extra: seq<Byte>)
  {
    function Colors(): (s: seq<Byte>) {
      [fgR, fgG, fgB, fgType, bgR, bgG, bgB, bgType]
    }
  }

  const FIXED_SIZE: nat := 16

  function EncodeCell(c: WireCell): (r: IoResult<seq<Byte>>) {
    if |c.extra| > U16_MAX then Err(InvalidInput)
    else Ok(Le(c.codepoint, 4) + c.Colors() + Le(c.flags, 2) + Le(|c.extra|, 2) + c.extra)
  }

  function DecodeCell(data: seq<Byte>): (r: Decoded<WireCell>)
    ensures r.Ok? ==> FIXED_SIZE <= r.value.1 <= |data|
  {
    if |data| < FIXED_SIZE then Err(UnexpectedEof)
    else
      var total := FIXED_SIZE + U16At(data, 14);
      if |data| < total then Err(UnexpectedEof)
      else
        Ok((WireCell(U32At(data, 0),
                     data[4], data[5], data[6], data[7], data[8], data[9], data[10], data[11],
                     U16At(data, 12), data[FIXED_SIZE..total]),
            total))
  }

  lemma CellFields(c: WireCell, data: seq<Byte>)
    requires EncodeCell(c).Ok?
    ensures At(data, 0, EncodeCell(c).value) <==>
      && At(data, 0, Le(c.codepoint, 4)) && At(data, 4, c.Colors()) && At(data, 12, Le(c.flags, 2))
      && At(data, 14, Le(|c.extra|, 2)) && At(data, 16, c.extra)
    ensures c.Colors() == [c.fgR, c.fgG, c.fgB, c.fgType, c.bgR, c.bgG, c.bgB, c.bgType]
  {
    hide At, Le;
    var a := Le(c.codepoint, 4) + c.Colors();
    var b := a + Le(c.flags, 2);
    AtConcat(data, 0, Le(c.codepoint, 4), c.Colors());
    AtConcat(data, 0, a, Le(c.flags, 2));
    AtConcat(data, 0, b, Le(|c.extra|, 2));
    AtConcat(data, 0, b + Le(|c.extra|, 2), c.extra);
  }

  lemma CellExactAt(data: seq<Byte>, c: WireCell, k: nat)
    ensures ExactAt(EncodeCell, DecodeCell, data, c, k)
  {
    hide Le, FromLe, Pow256;
    if EncodeCell(c).Ok? {
      CellFields(c, data);
      ReadU32(data, 0, c.codepoint);
      ReadU16(data, 12, c.flags);
      ReadU16(data, 14, |c.extra|);
    }
    if FIXED_SIZE <= |data| {
      var colors := data[4..12];
      assert colors == [data[4], data[5], data[6], data[7], data[8], data[9], data[10], data[11]];
    }
  }

  /** A cell decodes from `k` bytes exactly when those bytes are its encoding, whatever follows them. */
  lemma CellIsExact()
    ensures Exact(EncodeCell, DecodeCell)
  {
    forall data, c, k: nat {:trigger ExactAt(EncodeCell, DecodeCell, data, c, k)}
      ensures ExactAt(EncodeCell, DecodeCell, data, c, k)
    {
      CellExactAt(data, c, k);
    }
  }

  // ----- Rows --------------------------------------------------------------------------------------

  datatype DirtyRow = DirtyRow(rowIndex: U16, cells: seq<WireCell>, semanticMark: Byte, markMetadata: seq<Byte>)

  function EncodeRow(row: DirtyRow): (r: IoResult<seq<Byte>>) {
    if |row.cells| > U16_MAX || |row.markMetadata| > U16_MAX then Err(InvalidInput)
    else
      match EncodeMany(EncodeCell, row.cells)
      case Err(e) => Err(e)
      case Ok(cells) =>
        Ok(Le(row.rowIndex, 2) + Le(|row.cells|, 2) + cells
           + [row.semanticMark] + Le(|row.markMetadata|, 2) + row.markMetadata)
  }

  function DecodeRow(data: seq<Byte>): (r: Decoded<DirtyRow>)
    ensures r.Ok? ==> 7 <= r.value.1 <= |data|
  {
    if |data| < 4 then Err(UnexpectedEof)
    else
      match DecodeMany(DecodeCell, U16At(data, 2), data[4..])
      case Err(e) => Err(e)
      case Ok((cells, n)) =>
        var offset := 4 + n;
        if |data| < offset + 3 then Err(UnexpectedEof)
        else
          var metaLen := U16At(data, offset + 1);
          if |data| < offset + 3 + metaLen then Err(UnexpectedEof)
          else
            Ok((DirtyRow(U16At(data, 0), cells, data[offset], data[offset + 3..offset + 3 + metaLen]),
                offset + 3 + metaLen))
  }

  lemma RowFields(row: DirtyRow, data: seq<Byte>)
    requires EncodeRow(row).Ok?
    ensures EncodeMany(EncodeCell, row.cells).Ok?
    ensures var n := |EncodeMany(EncodeCell, row.cells).value|;
      At(data, 0, EncodeRow(row).value) <==>
      && At(data, 0, Le(row.rowIndex, 2)) && At(data, 2, Le(|row.cells|, 2))
      && At(data, 4, EncodeMany(EncodeCell, row.cells).value)
      && At(data, 4 + n, [row.semanticMark]) && At(data, 5 + n, Le(|row.markMetadata|, 2))
      && At(data, 7 + n, row.markMetadata)
  {
    hide At, Le, EncodeMany;
    var cells := EncodeMany(EncodeCell, row.cells).value;
    var a := Le(row.rowIndex, 2) + Le(|row.cells|, 2);
    var b := a + cells;
    var c := b + [row.semanticMark];
    AtConcat(data, 0, Le(row.rowIndex, 2), Le(|row.cells|, 2));
    AtConcat(data, 0, a, cells);
    AtConcat(data, 0, b, [row.semanticMark]);
    AtConcat(data, 0, c, Le(|row.markMetadata|, 2));
    AtConcat(data, 0, c + Le(|row.markMetadata|, 2), row.markMetadata);
  }

  /** The decoder takes an encoded row off the front and reports its exact length. */
  lemma RowYields(data: seq<Byte>, row: DirtyRow)
    requires EncodeRow(row).Ok? && At(data, 0, EncodeRow(row).value)
    ensures DecodeRow(data) == Ok((row, |EncodeRow(row).value|))
  {
    hide Le, FromLe, Pow256, EncodeMany, DecodeMany, EncodeCell, DecodeCell;
    RowFields(row, data);
    var cells := EncodeMany(EncodeCell, row.cells).value;
    var n := |cells|;
    ReadU16(data, 0, row.rowIndex);
    ReadU16(data, 2, |row.cells|);
    ReadU16(data, 5 + n, |row.markMetadata|);
    CellIsExact();
    AtShift(data, 4, 0, cells);
    ManyExact(EncodeCell, DecodeCell, |row.cells|, data[4..], row.cells, n);
    assert data[4 + n] == row.semanticMark by {
      assert data[4 + n..5 + n][0] == data[4 + n];
    }
  }

  /** Whatever decodes as a row is the encoding of that row. */
  lemma RowAccepts(data: seq<Byte>, row: DirtyRow, k: nat)
    requires DecodeRow(data) == Ok((row, k))
    ensures EncodeRow(row).Ok? && k == |EncodeRow(row).value| && At(data, 0, EncodeRow(row).value)
  {
    hide Le, FromLe, Pow256, EncodeMany, DecodeMany, EncodeCell, DecodeCell;
    var (cells, n) := DecodeMany(DecodeCell, U16At(data, 2), data[4..]).value;
    CellIsExact();
    ManyExact(EncodeCell, DecodeCell, U16At(data, 2), data[4..], cells, n);
    var bytes := EncodeMany(EncodeCell, cells).value;
    AtShift(data, 4, 0, bytes);
    RowFields(row, data);
    ReadU16(data, 0, row.rowIndex);
    ReadU16(data, 2, |row.cells|);
    ReadU16(data, 5 + n, |row.markMetadata|);
    assert data[4 + n..5 + n] == [row.semanticMark];
  }

  /** A row decodes from `k` bytes exactly when those bytes are its encoding, whatever follows them. */
  lemma RowIsExact()
    ensures Exact(EncodeRow, DecodeRow)
  {
    hide EncodeRow, DecodeRow;
    forall data, row, k: nat {:trigger ExactAt(EncodeRow, DecodeRow, data, row, k)}
      ensures ExactAt(EncodeRow, DecodeRow, data, row, k)
    {
      if DecodeRow(data) == Ok((row, k)) {
        RowAccepts(data, row, k);
      }
      if EncodeRow(row).Ok? && At(data, 0, EncodeRow(row).value) {
        RowYields(data, row);
      }
    }
  }

  // ----- Render updates ----------------------------------------------------------------------------

  datatype RenderUpdate = RenderUpdate(
    paneId: U32, seqno: U64, cursorX: U16, cursorY: U16,
    cursorStyle: Byte, cursorVisible: bool, bgR: Byte, bgG: Byte, bgB: Byte,
    bracketedPaste: bool, altScreen: bool, inputFlags: Byte, kittyKbdFlags: Byte,
    historyLen: U64,
    dirtyRows: seq<DirtyRow>)
  {
    function Singles(): (s: seq<Byte>) {
      [cursorStyle, FlagByte(cursorVisible), bgR, bgG, bgB,
       FlagByte(bracketedPaste), FlagByte(altScreen), inputFlags, kittyKbdFlags]
    }
  }

  function EncodeUpdate(m: RenderUpdate): (r: IoResult<seq<Byte>>) {
    if |m.dirtyRows| > U16_MAX then Err(InvalidInput)
    else
      match EncodeMany(EncodeRow, m.dirtyRows)
      case Err(e) => Err(e)
      case Ok(rows) =>
        Ok(Le(m.paneId, 4) + Le(m.seqno, 8) + Le(m.cursorX, 2) + Le(m.cursorY, 2) + m.Singles()
           + Le(m.historyLen, 8) + Le(|m.dirtyRows|, 2) + rows)
  }

  /** Bytes past the last row are ignored. */
  function DecodeUpdate(data: seq<Byte>): (r: IoResult<RenderUpdate>) {
    if |data| < 35 then Err(UnexpectedEof)
    else
      match DecodeMany(DecodeRow, U16At(data, 33), data[35..])
      case Err(e) => Err(e)
      case Ok((rows, _)) =>
        Ok(RenderUpdate(
             U32At(data, 0), U64At(data, 4), U16At(data, 12), U16At(data, 14),
             data[16], data[17] != 0, data[18], data[19], data[20],
             data[21] != 0, data[22] != 0, data[23], data[24],
             U64At(data, 25), rows))
  }

  /** The buffer with every nonzero byte at one of these offsets read as 1, the way flags are read. */
  function FlagsAs1(data: seq<Byte>, flags: set<nat>): (s: seq<Byte>)
    ensures |s| == |data|
    ensures forall i :: 0 <= i < |data| ==> s[i] == if i in flags && data[i] != 0 then 1 else data[i]
  {
    seq(|data|, i requires 0 <= i < |data| => if i in flags && data[i] != 0 then 1 else data[i])
  }

  const UPDATE_FLAGS: set<nat> := {17, 21, 22}

  lemma UpdateFields(m: RenderUpdate, data: seq<Byte>)
    requires EncodeUpdate(m).Ok?
    ensures EncodeMany(EncodeRow, m.dirtyRows).Ok?
    ensures At(data, 0, EncodeUpdate(m).value) <==>
      && At(data, 0, Le(m.paneId, 4)) && At(data, 4, Le(m.seqno, 8))
      && At(data, 12, Le(m.cursorX, 2)) && At(data, 14, Le(m.cursorY, 2)) && At(data, 16, m.Singles())
      && At(data, 25, Le(m.historyLen, 8)) && At(data, 33, Le(|m.dirtyRows|, 2))
      && At(data, 35, EncodeMany(EncodeRow, m.dirtyRows).value)
    ensures m.Singles() ==
      [m.cursorStyle, if m.cursorVisible then 1 else 0, m.bgR, m.bgG, m.bgB, if m.bracketedPaste then 1 else 0,
       if m.altScreen then 1 else 0, m.inputFlags, m.kittyKbdFlags]
  {
    hide At, Le, EncodeMany;
    var a := Le(m.paneId, 4) + Le(m.seqno, 8);
    var b := a + Le(m.cursorX, 2);
    var c := b + Le(m.cursorY, 2);
    var d := c + m.Singles();
    var e := d + Le(m.historyLen, 8);
    AtConcat(data, 0, Le(m.paneId, 4), Le(m.seqno, 8));
    AtConcat(data, 0, a, Le(m.cursorX, 2));
    AtConcat(data, 0, b, Le(m.cursorY, 2));
    AtConcat(data, 0, c, m.Singles());
    AtConcat(data, 0, d, Le(m.historyLen, 8));
    AtConcat(data, 0, e, Le(|m.dirtyRows|, 2));
    AtConcat(data, 0, e + Le(|m.dirtyRows|, 2), EncodeMany(EncodeRow, m.dirtyRows).value);
  }

  /** Reading every flag byte as 0 or 1 changes nothing the decoder sees. */
  lemma SameWithFlagsAs1(data: seq<Byte>)
    ensures DecodeUpdate(FlagsAs1(data, UPDATE_FLAGS)) == DecodeUpdate(data)
  {
    hide Le, FromLe, Pow256, DecodeMany, DecodeRow;
    var norm := FlagsAs1(data, UPDATE_FLAGS);
    if 35 <= |data| {
      assert norm[35..] == data[35..];
      assert norm[0..4] == data[0..4] && norm[4..12] == data[4..12];
      assert norm[12..14] == data[12..14] && norm[14..16] == data[14..16];
      assert norm[25..33] == data[25..33] && norm[33..35] == data[33..35];
    }
  }

  lemma SinglesAt(m: RenderUpdate, data: seq<Byte>)
    requires 35 <= |data|
    requires forall i :: i in UPDATE_FLAGS ==> data[i] <= 1
    ensures At(data, 16, m.Singles()) <==>
      && m.cursorStyle == data[16] && m.cursorVisible == (data[17] != 0)
      && m.bgR == data[18] && m.bgG == data[19] && m.bgB == data[20]
      && m.bracketedPaste == (data[21] != 0) && m.altScreen == (data[22] != 0)
      && m.inputFlags == data[23] && m.kittyKbdFlags == data[24]
  {
  }

  /** On a buffer whose flag bytes are 0 or 1, an update decodes exactly from a buffer its encoding starts. */
  lemma UpdateExactOnFlags(data: seq<Byte>, m: RenderUpdate)
    requires |data| < 35 || forall i :: i in UPDATE_FLAGS ==> data[i] <= 1
    ensures DecodeUpdate(data) == Ok(m) <==> EncodeUpdate(m).Ok? && At(data, 0, EncodeUpdate(m).value)
  {
    hide Le, FromLe, Pow256, EncodeMany, DecodeMany, EncodeRow, DecodeRow;
    RowIsExact();
    if EncodeUpdate(m).Ok? {
      UpdateFields(m, data);
    }
    if 35 <= |data| {
      ReadU32(data, 0, m.paneId);
      ReadU64(data, 4, m.seqno);
      ReadU16(data, 12, m.cursorX);
      ReadU16(data, 14, m.cursorY);
      SinglesAt(m, data);
      ReadU64(data, 25, m.historyLen);
      var count := U16At(data, 33);
      ListStands(EncodeRow, DecodeRow, count, data, 35, m.dirtyRows);
      if |m.dirtyRows| <= U16_MAX {
        ReadU16(data, 33, |m.dirtyRows|);
      }
    }
  }

  /**
   * A buffer decodes to an update exactly when, flag bytes read as 0 or 1, it starts with the update's
   * encoding: the round trip with trailing bytes, and its converse.
   */
  lemma UpdateIsExact(data: seq<Byte>, m: RenderUpdate)
    ensures DecodeUpdate(data) == Ok(m) <==>
      EncodeUpdate(m).Ok? && EncodeUpdate(m).value <= FlagsAs1(data, UPDATE_FLAGS)
  {
    hide DecodeUpdate, EncodeUpdate;
    var norm := FlagsAs1(data, UPDATE_FLAGS);
    SameWithFlagsAs1(data);
    UpdateExactOnFlags(norm, m);
    if EncodeUpdate(m).Ok? {
      AtPrefix(norm, EncodeUpdate(m).value);
    }
  }

  lemma UpdateRoundTrip(m: RenderUpdate, rest: seq<Byte>)
    requires EncodeUpdate(m).Ok?
    ensures DecodeUpdate(EncodeUpdate(m).value + rest) == Ok(m)
  {
    hide Le, EncodeMany, DecodeUpdate, EncodeRow;
    var data := EncodeUpdate(m).value + rest;
    UpdateFields(m, data);
    assert At(data, 0, EncodeUpdate(m).value);
    assert data[16..25] == m.Singles();
    assert data[17] == data[16..25][1] && data[21] == data[16..25][5] && data[22] == data[16..25][6];
    assert forall i :: i in UPDATE_FLAGS ==> data[i] <= 1;
    UpdateExactOnFlags(data, m);
  }

  /** An update cut short anywhere is rejected, never read as some other update. */
  lemma UpdateRejectsTruncation(m: RenderUpdate, n: nat)
    requires EncodeUpdate(m).Ok? && n < |EncodeUpdate(m).value|
    ensures DecodeUpdate(EncodeUpdate(m).value[..n]).Err?
  {
    hide DecodeUpdate, EncodeUpdate;
    var bytes := EncodeUpdate(m).value;
    var data := bytes[..n];
    UpdateRoundTrip(m, []);
    assert bytes + [] == bytes;
    UpdateIsExact(bytes, m);
    assert bytes == FlagsAs1(bytes, UPDATE_FLAGS);
    if DecodeUpdate(data).Ok? {
      var y := DecodeUpdate(data).value;
      UpdateIsExact(data, y);
      assert FlagsAs1(data, UPDATE_FLAGS) == data;
      UpdateIsExact(bytes, y);
    }
  }
}
