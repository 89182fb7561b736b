/** The encoders and decoders as the code runs them: a growing buffer, an advancing offset, early returns. */
module WireCode {
  import opened Bytes
  import opened Basics
  import opened Render
  import opened Messages

  /** The decoders' shared loop: take one item at the offset, push it, advance by what it consumed. */
  method DecodeEach<T>(dec: seq<Byte> -> Decoded<T>, count: nat, data: seq<Byte>, start: nat)
    returns (r: Decoded<seq<T>>)
    requires start <= |data|
    requires forall d {:trigger dec(d)} :: dec(d).Ok? ==> dec(d).value.1 <= |d|
    ensures r == match DecodeMany(dec, count, data[start..]) {
      case Err(e) => Err(e)
      case Ok((xs, n)) => Ok((xs, start + n))
    }
    ensures r.Ok? ==> start <= r.value.1 <= |data|
  {
    hide DecodeMany, Resumed;
    var offset := start;
    var xs: seq<T> := [];
    ResumedStart(DecodeMany(dec, count, data[start..]));
    for i := 0 to count
      invariant start <= offset <= |data|
      invariant DecodeMany(dec, count, data[start..]) ==
                Resumed(xs, offset - start, DecodeMany(dec, count - i, data[offset..]))
    {
      ResumedItem(dec, count - i, data, offset, xs, offset - start);
      var item :- dec(data[offset..]);
      var (x, consumed) := item;
      xs := xs + [x];
      offset := offset + consumed;
    }
    ResumedEnd(dec, data[offset..], xs, offset - start);
    return Ok((xs, offset));
  }

  /** What a list decoder reports after `xs` were taken from the first `n` bytes. */
  ghost function Resumed<T>(xs: seq<T>, n: nat, r: Decoded<seq<T>>): Decoded<seq<T>> {
    match r
    case Err(e) => Err(e)
    case Ok((ys, k)) => Ok((xs + ys, n + k))
  }

  lemma ResumedStart<T>(r: Decoded<seq<T>>)
    ensures Resumed([], 0, r) == r
  {
    if r.Ok? {
      assert [] + r.value.0 == r.value.0;
    }
  }

  lemma ResumedEnd<T>(dec: seq<Byte> -> Decoded<T>, data: seq<Byte>, xs: seq<T>, n: nat)
    ensures Resumed(xs, n, DecodeMany(dec, 0, data)) == Ok((xs, n))
  {
    assert xs + [] == xs;
  }

  /** The next item joins those taken, or its error is the list's. */
  lemma ResumedItem<T>(dec: seq<Byte> -> Decoded<T>, count: nat, data: seq<Byte>, offset: nat, xs: seq<T>, n: nat)
    requires count > 0 && offset <= |data|
    requires dec(data[offset..]).Ok? ==> dec(data[offset..]).value.1 <= |data| - offset
    ensures match dec(data[offset..])
      case Err(e) => Resumed(xs, n, DecodeMany(dec, count, data[offset..])) == Err(e)
      case Ok((x, k)) =>
        Resumed(xs, n, DecodeMany(dec, count, data[offset..])) ==
        Resumed(xs + [x], n + k, DecodeMany(dec, count - 1, data[offset + k..]))
  {
    if dec(data[offset..]).Ok? {
      var (x, k) := dec(data[offset..]).value;
      assert data[offset..][k..] == data[offset + k..];
      var rest := DecodeMany(dec, count - 1, data[offset + k..]);
      if rest.Ok? {
        assert xs + ([x] + rest.value.0) == xs + [x] + rest.value.0;
      }
    }
  }

  /** The encoders' shared loop: append each item's bytes, stopping at the first that cannot be encoded. */
  method EncodeEach<T>(enc: T -> IoResult<seq<Byte>>, xs: seq<T>, prefix: seq<Byte>) returns (r: IoResult<seq<Byte>>)
    ensures r == match EncodeMany(enc, xs) {
      case Err(e) => Err(e)
      case Ok(bytes) => Ok(prefix + bytes)
    }
  {
    var buf := prefix;
    for i := 0 to |xs|
      invariant match EncodeMany(enc, xs[i..])
        case Err(e) => EncodeMany(enc, xs) == Err(e)
        case Ok(rest) => EncodeMany(enc, xs).Ok? && prefix + EncodeMany(enc, xs).value == buf + rest
    {
      assert xs[i..][1..] == xs[i + 1..];
      var bytes :- enc(xs[i]);
      buf := buf + bytes;
    }
    assert buf + [] == buf;
    return Ok(buf);
  }

  method RowEncode(row: DirtyRow) returns (r: IoResult<seq<Byte>>)
    ensures r == EncodeRow(row)
  {
    hide EncodeMany, EncodeCell, Le;
    if |row.cells| > U16_MAX || |row.markMetadata| > U16_MAX {
      return Err(InvalidInput);
    }
    var buf := Le(row.rowIndex, 2);
    buf := buf + Le(|row.cells|, 2);
    buf :- EncodeEach(EncodeCell, row.cells, buf);
    buf := buf + [row.semanticMark];
    buf := buf + Le(|row.markMetadata|, 2);
    buf := buf + row.markMetadata;
    return Ok(buf);
  }

  method RowDecode(data: seq<Byte>) returns (r: Decoded<DirtyRow>)
    ensures r == DecodeRow(data)
  {
    hide DecodeMany, DecodeCell, FromLe;
    if |data| < 4 {
      return Err(UnexpectedEof);
    }
    var rowIndex := U16At(data, 0);
    var cellCount := U16At(data, 2);
    var list :- DecodeEach(DecodeCell, cellCount, data, 4);
    var cells := list.0;
    var offset: nat := list.1;
    if |data| < offset + 3 {
      return Err(UnexpectedEof);
    }
    var semanticMark := data[offset];
    offset := offset + 1;
    var metaLen := U16At(data, offset);
    offset := offset + 2;
    if |data| < offset + metaLen {
      return Err(UnexpectedEof);
    }
    var markMetadata := data[offset..offset + metaLen];
    offset := offset + metaLen;
    return Ok((DirtyRow(rowIndex, cells, semanticMark, markMetadata), offset));
  }

  method UpdateEncode(m: RenderUpdate) returns (r: IoResult<seq<Byte>>)
    ensures r == EncodeUpdate(m)
  {
    hide EncodeMany, EncodeRow, Le;
    if |m.dirtyRows| > U16_MAX {
      return Err(InvalidInput);
    }
    var buf := Le(m.paneId, 4);
    buf := buf + Le(m.seqno, 8);
    buf := buf + Le(m.cursorX, 2);
    buf := buf + Le(m.cursorY, 2);
    buf := buf + m.Singles();
    buf := buf + Le(m.historyLen, 8);
    buf := buf + Le(|m.dirtyRows|, 2);
    r := EncodeEach(EncodeRow, m.dirtyRows, buf);
  }

  method UpdateDecode(data: seq<Byte>) returns (r: IoResult<RenderUpdate>)
    ensures r == DecodeUpdate(data)
  {
    hide DecodeMany, DecodeRow, FromLe;
    if |data| < 35 {
      return Err(UnexpectedEof);
    }
    var dirtyRowCount := U16At(data, 33);
    var list :- DecodeEach(DecodeRow, dirtyRowCount, data, 35);
    var dirtyRows := list.0;
    return Ok(RenderUpdate(
      U32At(data, 0), U64At(data, 4), U16At(data, 12), U16At(data, 14),
      data[16], data[17] != 0, data[18], data[19], data[20],
      data[21] != 0, data[22] != 0, data[23], data[24],
      U64At(data, 25), dirtyRows));
  }

  method ScrollbackEncode(m: ScrollbackData) returns (r: IoResult<seq<Byte>>)
    ensures r == EncodeScrollback(m)
  {
    hide EncodeMany, EncodeRow, Le;
    if |m.rows| > U32_MAX {
      return Err(InvalidInput);
    }
    var buf := Le(m.paneId, 4);
    buf := buf + Le(Unsigned64(m.startRow), 8);
    buf := buf + [FlagByte(m.hasMore)];
    buf := buf + Le(m.totalRows, 4);
    buf := buf + Le(m.base, 8);
    buf := buf + Le(|m.rows|, 4);
    r := EncodeEach(EncodeRow, m.rows, buf);
  }

  method ScrollbackDecode(data: seq<Byte>) returns (r: IoResult<ScrollbackData>)
    ensures r == DecodeScrollback(data)
  {
    hide DecodeMany, DecodeRow, FromLe;
    if |data| < 29 {
      return Err(UnexpectedEof);
    }
    var rowCount := U32At(data, 25);
    if rowCount > MAX_SCROLLBACK_ROWS {
      return Err(InvalidData);
    }
    var list :- DecodeEach(DecodeRow, rowCount, data, 29);
    var rows := list.0;
    return Ok(ScrollbackData(
      U32At(data, 0), Signed64(U64At(data, 4)), data[12] != 0, U32At(data, 13), U64At(data, 17), rows));
  }

  method SearchEncode(m: SearchResults) returns (r: IoResult<seq<Byte>>)
    ensures r == EncodeSearch(m)
  {
    hide EncodeMany, EncodeMatch, Le;
    if |m.visibleMatches| > U16_MAX {
      return Err(InvalidInput);
    }
    var buf := Le(m.paneId, 4);
    buf := buf + Le(m.totalMatches, 4);
    buf := buf + Le(ActiveWord(m.activeIndex), 4);
    buf := buf + Le(Unsigned64(m.activeRowOffset), 8);
    buf := buf + [FlagByte(m.capped)];
    buf := buf + Le(|m.visibleMatches|, 2);
    r := EncodeEach(EncodeMatch, m.visibleMatches, buf);
  }

  method SearchDecode(data: seq<Byte>) returns (r: IoResult<SearchResults>)
    ensures r == DecodeSearch(data)
  {
    hide DecodeMany, DecodeMatch, FromLe;
    if |data| < 23 {
      return Err(UnexpectedEof);
    }
    var rawActive := U32At(data, 8);
    var activeIndex: Option<U32> := if rawActive == U32_MAX then None else Some(rawActive);
    var matchCount := U16At(data, 21);
    var list :- DecodeEach(DecodeMatch, matchCount, data, 23);
    var visibleMatches := list.0;
    return Ok(SearchResults(
      U32At(data, 0), U32At(data, 4), activeIndex, Signed64(U64At(data, 12)), data[20] != 0, visibleMatches));
  }

  method PanesEncode(panes: seq<PaneInfo>) returns (r: IoResult<seq<Byte>>)
    ensures r == EncodePanes(panes)
  {
    hide EncodeMany, EncodePane, Le;
    if |panes| > U16_MAX {
      return Err(InvalidInput);
    }
    r := EncodeEach(EncodePane, panes, Le(|panes|, 2));
  }

  method PanesDecode(data: seq<Byte>) returns (r: IoResult<seq<PaneInfo>>)
    ensures r == DecodePanes(data)
  {
    hide DecodeMany, DecodePane, FromLe;
    if |data| < 2 {
      return Err(UnexpectedEof);
    }
    var list :- DecodeEach(DecodePane, U16At(data, 0), data, 2);
    var panes := list.0;
    return Ok(panes);
  }

  method TabsEncode(l: TabList) returns (r: IoResult<seq<Byte>>)
    ensures r == EncodeTabs(l)
  {
    hide EncodeMany, EncodeTab, Le, IsUtf8;
    if |l.workspaceName| > U16_MAX || |l.tabs| > U16_MAX {
      return Err(InvalidInput);
    }
    var buf: seq<Byte> := Le(l.workspaceId, 4);
    buf := buf + Le(|l.workspaceName|, 2);
    buf := buf + l.workspaceName;
    buf := buf + Le(l.activeTab, 4);
    buf := buf + Le(|l.tabs|, 2);
    r := EncodeEach(EncodeTab, l.tabs, buf);
  }

  method TabsDecode(data: seq<Byte>) returns (r: IoResult<TabList>)
    ensures r == DecodeTabs(data)
  {
    hide DecodeMany, DecodeTab, FromLe, IsUtf8;
    if |data| < 6 {
      return Err(UnexpectedEof);
    }
    var wlen: nat := U16At(data, 4);
    var fixed := 6 + wlen;
    if |data| < fixed + 6 {
      return Err(UnexpectedEof);
    }
    if !IsUtf8(data[6..6 + wlen]) {
      return Err(InvalidData);
    }
    var workspaceName: Text := data[6..6 + wlen];
    var activeTab := U32At(data, fixed);
    var count := U16At(data, fixed + 4);
    var list :- DecodeEach(DecodeTab, count, data, fixed + 6);
    var tabs := list.0;
    return Ok(TabList(U32At(data, 0), workspaceName, activeTab, tabs));
  }
}
