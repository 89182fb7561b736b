/** Request and response payloads that nest rows, strings and lists. */
module Messages {
  import opened Bytes
  import opened Basics
  import opened Render

  // ----- Length-prefixed strings -------------------------------------------------------------------

  function EncodeStr(s: Text): (r: IoResult<seq<Byte>>) {
    if |s| > U16_MAX then Err(InvalidInput) else Ok(Le(|s|, 2) + s)
  }

  function DecodeStr(data: seq<Byte>, offset: nat): (r: Decoded<Text>) {
    if |data| < offset + 2 then Err(UnexpectedEof)
    else
      var len := U16At(data, offset);
      if |data| < offset + 2 + len then Err(UnexpectedEof)
      else if !IsUtf8(data[offset + 2..offset + 2 + len]) then Err(InvalidData)
      else Ok((data[offset + 2..offset + 2 + len], 2 + len))
  }

  /** A string decodes at an offset exactly when its encoding stands there. */
  lemma StrIsExact(data: seq<Byte>, offset: nat, s: Text, k: nat)
    ensures DecodeStr(data, offset) == Ok((s, k)) <==>
      EncodeStr(s).Ok? && k == |EncodeStr(s).value| && At(data, offset, EncodeStr(s).value)
  {
    hide Le, FromLe, Pow256, IsUtf8;
    if |s| <= U16_MAX {
      AtConcat(data, offset, Le(|s|, 2), s);
      ReadU16(data, offset, |s|);
    }
  }

  // ----- Panes -------------------------------------------------------------------------------------

  datatype PaneInfo = PaneInfo(
    paneId: U32, title: Text, cols: U16, rows: U16, pid: U32, exitCode: I32, cwd: Text)

  function EncodePane(p: PaneInfo): (r: IoResult<seq<Byte>>) {
    if |p.title| > U16_MAX || |p.cwd| > U16_MAX then Err(InvalidInput)
    else
      Ok(Le(p.paneId, 4) + Le(|p.title|, 2) + p.title + Le(p.cols, 2) + Le(p.rows, 2) + Le(p.pid, 4)
         + Le(Unsigned32(p.exitCode), 4) + Le(|p.cwd|, 2) + p.cwd)
  }

  function DecodePane(data: seq<Byte>): (r: Decoded<PaneInfo>)
    ensures r.Ok? ==> r.value.1 <= |data|
  {
    if |data| < 6 then Err(UnexpectedEof)
    else
      var tlen := U16At(data, 4);
      var fixed := 6 + tlen;
      if |data| < fixed + 12 then Err(UnexpectedEof)
      else if !IsUtf8(data[6..6 + tlen]) then Err(InvalidData)
      else
        var cwdOff := fixed + 12;
        if |data| < cwdOff + 2 then Err(UnexpectedEof)
        else
          var cwdlen := U16At(data, cwdOff);
          var cwdStart := cwdOff + 2;
          if |data| < cwdStart + cwdlen then Err(UnexpectedEof)
          else if !IsUtf8(data[cwdStart..cwdStart + cwdlen]) then Err(InvalidData)
          else
            Ok((PaneInfo(U32At(data, 0), data[6..6 + tlen], U16At(data, fixed), U16At(data, fixed + 2),
                         U32At(data, fixed + 4), Signed32(U32At(data, fixed + 8)),
                         data[cwdStart..cwdStart + cwdlen]),
                cwdStart + cwdlen))
  }

  lemma PaneFields(p: PaneInfo, data: seq<Byte>)
    requires EncodePane(p).Ok?
    ensures var n := |p.title|;
      At(data, 0, EncodePane(p).value) <==>
      && At(data, 0, Le(p.paneId, 4)) && At(data, 4, Le(n, 2)) && At(data, 6, p.title)
      && At(data, 6 + n, Le(p.cols, 2)) && At(data, 8 + n, Le(p.rows, 2)) && At(data, 10 + n, Le(p.pid, 4))
      && At(data, 14 + n, Le(Unsigned32(p.exitCode), 4)) && At(data, 18 + n, Le(|p.cwd|, 2))
      && At(data, 20 + n, p.cwd)
  {
    hide At, Le, IsUtf8;
    var a := Le(p.paneId, 4) + Le(|p.title|, 2);
    var b := a + p.title;
    var c := b + Le(p.cols, 2);
    var d := c + Le(p.rows, 2);
    var e := d + Le(p.pid, 4);
    var f := e + Le(Unsigned32(p.exitCode), 4);
    AtConcat(data, 0, Le(p.paneId, 4), Le(|p.title|, 2));
    AtConcat(data, 0, a, p.title);
    AtConcat(data, 0, b, Le(p.cols, 2));
    AtConcat(data, 0, c, Le(p.rows, 2));
    AtConcat(data, 0, d, Le(p.pid, 4));
    AtConcat(data, 0, e, Le(Unsigned32(p.exitCode), 4));
    AtConcat(data, 0, f, Le(|p.cwd|, 2));
    AtConcat(data, 0, f + Le(|p.cwd|, 2), p.cwd);
  }

  lemma PaneExactAt(data: seq<Byte>, p: PaneInfo, k: nat)
    ensures ExactAt(EncodePane, DecodePane, data, p, k)
  {
    hide Le, FromLe, Pow256, IsUtf8;
    if EncodePane(p).Ok? {
      PaneFields(p, data);
      var n := |p.title|;
      ReadU32(data, 0, p.paneId);
      ReadU16(data, 4, n);
      ReadU16(data, 6 + n, p.cols);
      ReadU16(data, 8 + n, p.rows);
      ReadU32(data, 10 + n, p.pid);
      ReadU32(data, 14 + n, Unsigned32(p.exitCode));
      ReadU16(data, 18 + n, |p.cwd|);
    }
  }

  /** Pane metadata decodes from `k` bytes exactly when those bytes are its encoding. */
  lemma PaneIsExact()
    ensures Exact(EncodePane, DecodePane)
  {
    forall data, p, k: nat {:trigger ExactAt(EncodePane, DecodePane, data, p, k)}
      ensures ExactAt(EncodePane, DecodePane, data, p, k)
    {
      PaneExactAt(data, p, k);
    }
  }

  /** `ListPanesResponse`. */
  function EncodePanes(panes: seq<PaneInfo>): (r: IoResult<seq<Byte>>) {
    if |panes| > U16_MAX then Err(InvalidInput)
    else
      match EncodeMany(EncodePane, panes)
      case Err(e) => Err(e)
      case Ok(bytes) => Ok(Le(|panes|, 2) + bytes)
  }

  function DecodePanes(data: seq<Byte>): (r: IoResult<seq<PaneInfo>>) {
    if |data| < 2 then Err(UnexpectedEof)
    else
      match DecodeMany(DecodePane, U16At(data, 0), data[2..])
      case Err(e) => Err(e)
      case Ok((panes, _)) => Ok(panes)
  }

  /** A buffer decodes to a pane list exactly when the list's encoding starts it. */
  lemma PanesAreExact(data: seq<Byte>, panes: seq<PaneInfo>)
    ensures DecodePanes(data) == Ok(panes) <==> EncodePanes(panes).Ok? && EncodePanes(panes).value <= data
  {
    hide Le, FromLe, Pow256, EncodeMany, DecodeMany, EncodePane, DecodePane;
    PaneIsExact();
    if EncodePanes(panes).Ok? {
      AtPrefix(data, EncodePanes(panes).value);
      AtConcat(data, 0, Le(|panes|, 2), EncodeMany(EncodePane, panes).value);
    }
    if 2 <= |data| {
      ListStands(EncodePane, DecodePane, U16At(data, 0), data, 2, panes);
      if |panes| <= U16_MAX {
        ReadU16(data, 0, |panes|);
      }
    }
  }

  // ----- Tabs --------------------------------------------------------------------------------------

  datatype TabEntry = TabEntry(tabId: U32, focusedPane: U32, name: Text)

  function EncodeTab(t: TabEntry): (r: IoResult<seq<Byte>>) {
    if |t.name| > U16_MAX then Err(InvalidInput)
    else Ok(Le(t.tabId, 4) + Le(t.focusedPane, 4) + Le(|t.name|, 2) + t.name)
  }

  function DecodeTab(data: seq<Byte>): (r: Decoded<TabEntry>)
    ensures r.Ok? ==> r.value.1 <= |data|
  {
    if |data| < 10 then Err(UnexpectedEof)
    else
      var total := 10 + U16At(data, 8);
      if |data| < total then Err(UnexpectedEof)
      else if !IsUtf8(data[10..total]) then Err(InvalidData)
      else Ok((TabEntry(U32At(data, 0), U32At(data, 4), data[10..total]), total))
  }

  lemma TabExactAt(data: seq<Byte>, t: TabEntry, k: nat)
    ensures ExactAt(EncodeTab, DecodeTab, data, t, k)
  {
    hide Le, FromLe, Pow256, IsUtf8;
    if EncodeTab(t).Ok? {
      var a := Le(t.tabId, 4) + Le(t.focusedPane, 4);
      AtConcat(data, 0, Le(t.tabId, 4), Le(t.focusedPane, 4));
      AtConcat(data, 0, a, Le(|t.name|, 2));
      AtConcat(data, 0, a + Le(|t.name|, 2), t.name);
      ReadU32(data, 0, t.tabId);
      ReadU32(data, 4, t.focusedPane);
      ReadU16(data, 8, |t.name|);
    }
  }

  /** A tab entry decodes from `k` bytes exactly when those bytes are its encoding. */
  lemma TabIsExact()
    ensures Exact(EncodeTab, DecodeTab)
  {
    forall data, t, k: nat {:trigger ExactAt(EncodeTab, DecodeTab, data, t, k)}
      ensures ExactAt(EncodeTab, DecodeTab, data, t, k)
    {
      TabExactAt(data, t, k);
    }
  }

  datatype TabList = TabList(workspaceId: U32, workspaceName: Text, activeTab: U32, tabs: seq<TabEntry>)

  function EncodeTabs(l: TabList): (r: IoResult<seq<Byte>>) {
    if |l.workspaceName| > U16_MAX || |l.tabs| > U16_MAX then Err(InvalidInput)
    else
      match EncodeMany(EncodeTab, l.tabs)
      case Err(e) => Err(e)
      case Ok(tabs) =>
        Ok(Le(l.workspaceId, 4) + Le(|l.workspaceName|, 2) + l.workspaceName + Le(l.activeTab, 4)
           + Le(|l.tabs|, 2) + tabs)
  }

  function DecodeTabs(data: seq<Byte>): (r: IoResult<TabList>) {
    if |data| < 6 then Err(UnexpectedEof)
    else
      var wlen := U16At(data, 4);
      var fixed := 6 + wlen;
      if |data| < fixed + 6 then Err(UnexpectedEof)
      else if !IsUtf8(data[6..6 + wlen]) then Err(InvalidData)
      else
        match DecodeMany(DecodeTab, U16At(data, fixed + 4), data[fixed + 6..])
        case Err(e) => Err(e)
        case Ok((tabs, _)) => Ok(TabList(U32At(data, 0), data[6..6 + wlen], U32At(data, fixed), tabs))
  }

  lemma TabsFields(l: TabList, data: seq<Byte>)
    requires EncodeTabs(l).Ok?
    ensures EncodeMany(EncodeTab, l.tabs).Ok?
    ensures var n := |l.workspaceName|;
      At(data, 0, EncodeTabs(l).value) <==>
      && At(data, 0, Le(l.workspaceId, 4)) && At(data, 4, Le(n, 2)) && At(data, 6, l.workspaceName)
      && At(data, 6 + n, Le(l.activeTab, 4)) && At(data, 10 + n, Le(|l.tabs|, 2))
      && At(data, 12 + n, EncodeMany(EncodeTab, l.tabs).value)
  {
    hide At, Le, IsUtf8, EncodeMany;
    var a := Le(l.workspaceId, 4) + Le(|l.workspaceName|, 2);
    var b := a + l.workspaceName;
    var c := b + Le(l.activeTab, 4);
    AtConcat(data, 0, Le(l.workspaceId, 4), Le(|l.workspaceName|, 2));
    AtConcat(data, 0, a, l.workspaceName);
    AtConcat(data, 0, b, Le(l.activeTab, 4));
    AtConcat(data, 0, c, Le(|l.tabs|, 2));
    AtConcat(data, 0, c + Le(|l.tabs|, 2), EncodeMany(EncodeTab, l.tabs).value);
  }

  /** A buffer decodes to a tab list exactly when the list's encoding starts it. */
  lemma TabsAreExact(data: seq<Byte>, l: TabList)
    ensures DecodeTabs(data) == Ok(l) <==> EncodeTabs(l).Ok? && EncodeTabs(l).value <= data
  {
    hide Le, FromLe, Pow256, IsUtf8, EncodeMany, DecodeMany, EncodeTab, DecodeTab;
    TabIsExact();
    var n := |l.workspaceName|;
    if EncodeTabs(l).Ok? {
      AtPrefix(data, EncodeTabs(l).value);
      TabsFields(l, data);
    }
    ReadU32(data, 0, l.workspaceId);
    ReadU32(data, 6 + n, l.activeTab);
    if n <= U16_MAX {
      ReadU16(data, 4, n);
    }
    if |l.tabs| <= U16_MAX {
      ReadU16(data, 10 + n, |l.tabs|);
    }
    if 12 + n <= |data| {
      ListStands(EncodeTab, DecodeTab, U16At(data, 10 + n), data, 12 + n, l.tabs);
    }
  }

  // ----- Scrollback --------------------------------------------------------------------------------

  datatype ScrollbackData = ScrollbackData(
    paneId: U32, startRow: I64, hasMore: bool, totalRows: U32, base: U64, rows: seq<DirtyRow>)

  const MAX_SCROLLBACK_ROWS: nat := 10_000
  const SCROLLBACK_FLAGS: set<nat> := {12}

  /** The encoder takes up to 2^32 - 1 rows, more than the decoder below will. */
  function EncodeScrollback(m: ScrollbackData): (r: IoResult<seq<Byte>>) {
    if |m.rows| > U32_MAX then Err(InvalidInput)
    else
      match EncodeMany(EncodeRow, m.rows)
      case Err(e) => Err(e)
      case Ok(rows) =>
        Ok(Le(m.paneId, 4) + Le(Unsigned64(m.startRow), 8) + [FlagByte(m.hasMore)] + Le(m.totalRows, 4)
           + Le(m.base, 8) + Le(|m.rows|, 4) + rows)
  }

  function DecodeScrollback(data: seq<Byte>): (r: IoResult<ScrollbackData>) {
    if |data| < 29 then Err(UnexpectedEof)
    else
      var count := U32At(data, 25);
      if count > MAX_SCROLLBACK_ROWS then Err(InvalidData)
      else
        match DecodeMany(DecodeRow, count, data[29..])
        case Err(e) => Err(e)
        case Ok((rows, _)) =>
          Ok(ScrollbackData(U32At(data, 0), Signed64(U64At(data, 4)), data[12] != 0,
                            U32At(data, 13), U64At(data, 17), rows))
  }

  lemma ScrollbackFields(m: ScrollbackData, data: seq<Byte>)
    requires EncodeScrollback(m).Ok?
    ensures EncodeMany(EncodeRow, m.rows).Ok?
    ensures At(data, 0, EncodeScrollback(m).value) <==>
      && At(data, 0, Le(m.paneId, 4)) && At(data, 4, Le(Unsigned64(m.startRow), 8))
      && At(data, 12, [FlagByte(m.hasMore)]) && At(data, 13, Le(m.totalRows, 4)) && At(data, 17, Le(m.base, 8))
      && At(data, 25, Le(|m.rows|, 4)) && At(data, 29, EncodeMany(EncodeRow, m.rows).value)
  {
    hide At, Le, EncodeMany;
    var a := Le(m.paneId, 4) + Le(Unsigned64(m.startRow), 8);
    var b := a + [FlagByte(m.hasMore)];
    var c := b + Le(m.totalRows, 4);
    var d := c + Le(m.base, 8);
    AtConcat(data, 0, Le(m.paneId, 4), Le(Unsigned64(m.startRow), 8));
    AtConcat(data, 0, a, [FlagByte(m.hasMore)]);
    AtConcat(data, 0, b, Le(m.totalRows, 4));
    AtConcat(data, 0, c, Le(m.base, 8));
    AtConcat(data, 0, d, Le(|m.rows|, 4));
    AtConcat(data, 0, d + Le(|m.rows|, 4), EncodeMany(EncodeRow, m.rows).value);
  }

  lemma ScrollbackSameWithFlagsAs1(data: seq<Byte>)
    ensures DecodeScrollback(FlagsAs1(data, SCROLLBACK_FLAGS)) == DecodeScrollback(data)
  {
    hide Le, FromLe, Pow256, DecodeMany, DecodeRow;
    var norm := FlagsAs1(data, SCROLLBACK_FLAGS);
    if 29 <= |data| {
      assert norm[29..] == data[29..];
      assert norm[0..4] == data[0..4] && norm[4..12] == data[4..12] && norm[13..17] == data[13..17];
      assert norm[17..25] == data[17..25] && norm[25..29] == data[25..29];
    }
  }

  /**
   * A buffer decodes to scrollback data exactly when, its flag byte read as 0 or 1, it starts with the
   * data's encoding and the data holds at most 10,000 rows.
   */
  lemma ScrollbackIsExact(data: seq<Byte>, m: ScrollbackData)
    ensures DecodeScrollback(data) == Ok(m) <==>
      && |m.rows| <= MAX_SCROLLBACK_ROWS
      && EncodeScrollback(m).Ok?
      && EncodeScrollback(m).value <= FlagsAs1(data, SCROLLBACK_FLAGS)
  {
    hide Le, FromLe, Pow256, EncodeMany, DecodeMany, EncodeRow, DecodeRow;
    var norm := FlagsAs1(data, SCROLLBACK_FLAGS);
    ScrollbackSameWithFlagsAs1(data);
    RowIsExact();
    if EncodeScrollback(m).Ok? {
      AtPrefix(norm, EncodeScrollback(m).value);
      ScrollbackFields(m, norm);
    }
    if 29 <= |data| {
      ReadU32(norm, 0, m.paneId);
      ReadU64(norm, 4, Unsigned64(m.startRow));
      ReadU32(norm, 13, m.totalRows);
      ReadU64(norm, 17, m.base);
      assert norm[12..13] == [norm[12]] && norm[12] <= 1;
      ListStands(EncodeRow, DecodeRow, U32At(norm, 25), norm, 29, m.rows);
      if |m.rows| <= U32_MAX {
        ReadU32(norm, 25, |m.rows|);
      }
    }
  }

  /** An encoded message comes back, whatever follows it, if and only if it is within the row cap. */
  lemma ScrollbackRoundTrip(m: ScrollbackData, rest: seq<Byte>)
    requires EncodeScrollback(m).Ok?
    ensures DecodeScrollback(EncodeScrollback(m).value + rest) == Ok(m) <==> |m.rows| <= MAX_SCROLLBACK_ROWS
  {
    hide Le, EncodeMany, DecodeScrollback, EncodeRow;
    var data := EncodeScrollback(m).value + rest;
    ScrollbackFields(m, data);
    assert At(data, 0, EncodeScrollback(m).value);
    assert data[12] == data[12..13][0];
    assert FlagsAs1(data, SCROLLBACK_FLAGS) == data;
    ScrollbackIsExact(data, m);
  }

  lemma {:induction false} RepeatedEncodes(row: DirtyRow, n: nat)
    requires EncodeRow(row).Ok?
    ensures EncodeMany(EncodeRow, seq(n, _ => row)).Ok?
    decreases n
  {
    hide EncodeRow;
    var rows := seq(n, _ => row);
    if n == 0 {
    } else {
      RepeatedEncodes(row, n - 1);
      assert rows[1..] == seq(n - 1, _ => row);
    }
  }

  /** Messages beyond the cap exist: ten thousand and one copies of any encodable row are sent and never read. */
  lemma ScrollbackBeyondCap(row: DirtyRow, rest: seq<Byte>)
    requires EncodeRow(row).Ok?
    ensures var m := ScrollbackData(0, 0, false, 0, 0, seq(MAX_SCROLLBACK_ROWS + 1, _ => row));
      EncodeScrollback(m).Ok? && DecodeScrollback(EncodeScrollback(m).value + rest) == Err(InvalidData)
  {
    hide EncodeRow, DecodeRow, EncodeMany, DecodeMany, Le, FromLe, Pow256;
    var m := ScrollbackData(0, 0, false, 0, 0, seq(MAX_SCROLLBACK_ROWS + 1, _ => row));
    RepeatedEncodes(row, MAX_SCROLLBACK_ROWS + 1);
    var data := EncodeScrollback(m).value + rest;
    ScrollbackFields(m, data);
    assert At(data, 0, EncodeScrollback(m).value);
    ReadU32(data, 25, |m.rows|);
  }

  /** One such message: empty rows. */
  lemma EmptyRowsBeyondCap(rest: seq<Byte>)
    ensures var m := ScrollbackData(0, 0, false, 0, 0, seq(MAX_SCROLLBACK_ROWS + 1, _ => DirtyRow(0, [], 0, [])));
      EncodeScrollback(m).Ok? && DecodeScrollback(EncodeScrollback(m).value + rest) == Err(InvalidData)
  {
    assert EncodeRow(DirtyRow(0, [], 0, [])).Ok?;
    hide EncodeRow, EncodeScrollback, DecodeScrollback;
    ScrollbackBeyondCap(DirtyRow(0, [], 0, []), rest);
  }

  // ----- Search results ----------------------------------------------------------------------------

  datatype VisibleMatch = VisibleMatch(row: U16, colStart: U16, colEnd: U16, isActive: bool)

  datatype SearchResults = SearchResults(
    paneId: U32, totalMatches: U32, activeIndex: Option<U32>, activeRowOffset: I64, capped: bool,
    visibleMatches: seq<VisibleMatch>)

  function EncodeMatch(m: VisibleMatch): (r: IoResult<seq<Byte>>) {
    Ok(Le(m.row, 2) + Le(m.colStart, 2) + Le(m.colEnd, 2) + [FlagByte(m.isActive)])
  }

  function DecodeMatch(data: seq<Byte>): (r: Decoded<VisibleMatch>)
    ensures r.Ok? ==> r.value.1 == 7 <= |data|
  {
    if |data| < 7 then Err(UnexpectedEof)
    else Ok((VisibleMatch(U16At(data, 0), U16At(data, 2), U16At(data, 4), data[6] != 0), 7))
  }

  /** `None` is sent as the largest index. */
  function ActiveWord(i: Option<U32>): (n: U32) {
    match i
    case None => U32_MAX
    case Some(n) => n
  }

  function EncodeSearch(m: SearchResults): (r: IoResult<seq<Byte>>) {
    if |m.visibleMatches| > U16_MAX then Err(InvalidInput)
    else
      match EncodeMany(EncodeMatch, m.visibleMatches)
      case Err(e) => Err(e)
      case Ok(matches) =>
        Ok(Le(m.paneId, 4) + Le(m.totalMatches, 4) + Le(ActiveWord(m.activeIndex), 4)
           + Le(Unsigned64(m.activeRowOffset), 8) + [FlagByte(m.capped)] + Le(|m.visibleMatches|, 2) + matches)
  }

  function DecodeSearch(data: seq<Byte>): (r: IoResult<SearchResults>) {
    if |data| < 23 then Err(UnexpectedEof)
    else
      var rawActive := U32At(data, 8);
      match DecodeMany(DecodeMatch, U16At(data, 21), data[23..])
      case Err(e) => Err(e)
      case Ok((matches, _)) =>
        Ok(SearchResults(U32At(data, 0), U32At(data, 4), if rawActive == U32_MAX then None else Some(rawActive),
                         Signed64(U64At(data, 12)), data[20] != 0, matches))
  }

  /** Where flag bytes stand in a search result: the cap flag, and the last byte of each 7-byte match. */
  function SearchFlags(size: nat): (flags: set<nat>) {
    {20} + set j | 0 <= j < size :: 29 + 7 * j
  }

  ghost predicate MatchFlagsAre01(data: seq<Byte>) {
    forall j :: 0 <= j && 7 * j + 6 < |data| ==> data[7 * j + 6] <= 1
  }

  /** Two match lists that differ only in how a set flag is written. */
  ghost predicate AlikeMatches(a: seq<Byte>, b: seq<Byte>) {
    && |a| == |b|
    && forall i :: 0 <= i < |a| ==> if i % 7 == 6 then (a[i] != 0) == (b[i] != 0) else a[i] == b[i]
  }

  lemma {:induction false} AlikeMatchesDecodeAlike(count: nat, a: seq<Byte>, b: seq<Byte>)
    requires AlikeMatches(a, b)
    ensures DecodeMany(DecodeMatch, count, a) == DecodeMany(DecodeMatch, count, b)
  {
    hide FromLe, Le, Pow256;
    if count > 0 && 7 <= |a| {
      assert a[0..2] == b[0..2] && a[2..4] == b[2..4] && a[4..6] == b[4..6];
      assert AlikeMatches(a[7..], b[7..]) by {
        assert forall i :: 0 <= i < |a| - 7 ==> (i + 7) % 7 == i % 7;
      }
      AlikeMatchesDecodeAlike(count - 1, a[7..], b[7..]);
    }
  }

  lemma MatchExactAt(data: seq<Byte>, m: VisibleMatch)
    requires 7 <= |data| ==> data[6] <= 1
    ensures DecodeMatch(data) == Ok((m, 7)) <==> At(data, 0, EncodeMatch(m).value)
  {
    hide FromLe, Le, Pow256;
    var a := Le(m.row, 2) + Le(m.colStart, 2);
    AtConcat(data, 0, Le(m.row, 2), Le(m.colStart, 2));
    AtConcat(data, 0, a, Le(m.colEnd, 2));
    AtConcat(data, 0, a + Le(m.colEnd, 2), [FlagByte(m.isActive)]);
    ReadU16(data, 0, m.row);
    ReadU16(data, 2, m.colStart);
    ReadU16(data, 4, m.colEnd);
    if 7 <= |data| {
      assert data[6..7] == [data[6]];
    }
  }

  /** On a buffer whose match flags are 0 or 1, a match list decodes exactly where its encoding stands. */
  lemma {:induction false} MatchesStand(count: nat, data: seq<Byte>, xs: seq<VisibleMatch>)
    requires MatchFlagsAre01(data)
    ensures EncodeMany(EncodeMatch, xs).Ok?
    ensures DecodeMany(DecodeMatch, count, data).Ok? && DecodeMany(DecodeMatch, count, data).value.0 == xs <==>
      |xs| == count && At(data, 0, EncodeMany(EncodeMatch, xs).value)
    decreases count + |xs|
  {
    hide FromLe, Le, Pow256;
    if xs == [] {
    } else {
      MatchesStand(0, [], xs[1..]);
      assert 7 <= |data| ==> data[7 * 0 + 6] <= 1;
      MatchExactAt(data, xs[0]);
      var head, tail := EncodeMatch(xs[0]).value, EncodeMany(EncodeMatch, xs[1..]).value;
      AtConcat(data, 0, head, tail);
      if count > 0 && 7 <= |data| {
        forall j | 0 <= j && 7 * j + 6 < |data| - 7 ensures data[7..][7 * j + 6] <= 1 {
          assert data[7 * (j + 1) + 6] <= 1;
        }
        MatchesStand(count - 1, data[7..], xs[1..]);
        AtShift(data, 7, 0, tail);
        assert xs == [xs[0]] + xs[1..];
      }
    }
  }

  lemma SearchFields(m: SearchResults, data: seq<Byte>)
    requires EncodeSearch(m).Ok?
    ensures EncodeMany(EncodeMatch, m.visibleMatches).Ok?
    ensures At(data, 0, EncodeSearch(m).value) <==>
      && At(data, 0, Le(m.paneId, 4)) && At(data, 4, Le(m.totalMatches, 4))
      && At(data, 8, Le(ActiveWord(m.activeIndex), 4)) && At(data, 12, Le(Unsigned64(m.activeRowOffset), 8))
      && At(data, 20, [FlagByte(m.capped)]) && At(data, 21, Le(|m.visibleMatches|, 2))
      && At(data, 23, EncodeMany(EncodeMatch, m.visibleMatches).value)
  {
    hide At, Le, EncodeMany;
    var a := Le(m.paneId, 4) + Le(m.totalMatches, 4);
    var b := a + Le(ActiveWord(m.activeIndex), 4);
    var c := b + Le(Unsigned64(m.activeRowOffset), 8);
    var d := c + [FlagByte(m.capped)];
    AtConcat(data, 0, Le(m.paneId, 4), Le(m.totalMatches, 4));
    AtConcat(data, 0, a, Le(ActiveWord(m.activeIndex), 4));
    AtConcat(data, 0, b, Le(Unsigned64(m.activeRowOffset), 8));
    AtConcat(data, 0, c, [FlagByte(m.capped)]);
    AtConcat(data, 0, d, Le(|m.visibleMatches|, 2));
    AtConcat(data, 0, d + Le(|m.visibleMatches|, 2), EncodeMany(EncodeMatch, m.visibleMatches).value);
  }

  lemma SearchFlagsWithin(size: nat, i: nat)
    requires i < size
    ensures i in SearchFlags(size) <==> i == 20 || (i >= 23 && (i - 23) % 7 == 6)
  {
    if i >= 23 && (i - 23) % 7 == 6 {
      var j := (i - 23) / 7;
      assert i == 29 + 7 * j && 0 <= j < size;
    }
  }

  lemma SearchSameWithFlagsAs1(data: seq<Byte>)
    ensures DecodeSearch(FlagsAs1(data, SearchFlags(|data|))) == DecodeSearch(data)
  {
    hide Le, FromLe, Pow256, DecodeMany, DecodeMatch, SearchFlags;
    var norm := FlagsAs1(data, SearchFlags(|data|));
    forall i | 0 <= i < |data| ensures i in SearchFlags(|data|) <==> i == 20 || (i >= 23 && (i - 23) % 7 == 6) {
      SearchFlagsWithin(|data|, i);
    }
    if 23 <= |data| {
      AlikeMatchesDecodeAlike(U16At(data, 21), norm[23..], data[23..]);
      assert norm[0..4] == data[0..4] && norm[4..8] == data[4..8] && norm[8..12] == data[8..12];
      assert norm[12..20] == data[12..20] && norm[21..23] == data[21..23];
    }
  }

  lemma NormalMatchFlags(data: seq<Byte>)
    requires 23 <= |data|
    ensures MatchFlagsAre01(FlagsAs1(data, SearchFlags(|data|))[23..])
    ensures FlagsAs1(data, SearchFlags(|data|))[20] <= 1
  {
  }

  /**
   * A buffer decodes to a search result exactly when, its flag bytes read as 0 or 1, it starts with the
   * result's encoding and the active index is not the one value that stands for "none".
   */
  lemma SearchIsExact(data: seq<Byte>, m: SearchResults)
    ensures DecodeSearch(data) == Ok(m) <==>
      && m.activeIndex != Some(U32_MAX)
      && EncodeSearch(m).Ok?
      && EncodeSearch(m).value <= FlagsAs1(data, SearchFlags(|data|))
  {
    hide Le, FromLe, Pow256, EncodeMany, DecodeMany, EncodeMatch, DecodeMatch, SearchFlags;
    var norm := FlagsAs1(data, SearchFlags(|data|));
    SearchSameWithFlagsAs1(data);
    if EncodeSearch(m).Ok? {
      AtPrefix(norm, EncodeSearch(m).value);
      SearchFields(m, norm);
    }
    if 23 <= |data| {
      NormalMatchFlags(data);
      ReadU32(norm, 0, m.paneId);
      ReadU32(norm, 4, m.totalMatches);
      ReadU32(norm, 8, ActiveWord(m.activeIndex));
      ReadU64(norm, 12, Unsigned64(m.activeRowOffset));
      assert norm[20..21] == [norm[20]];
      MatchesStand(U16At(norm, 21), norm[23..], m.visibleMatches);
      AtShift(norm, 23, 0, EncodeMany(EncodeMatch, m.visibleMatches).value);
      if |m.visibleMatches| <= U16_MAX {
        ReadU16(norm, 21, |m.visibleMatches|);
      }
    }
  }

  lemma {:induction false} EncodedMatchFlags(xs: seq<VisibleMatch>)
    ensures EncodeMany(EncodeMatch, xs).Ok? && MatchFlagsAre01(EncodeMany(EncodeMatch, xs).value)
  {
    hide Le;
    if xs == [] {
    } else {
      EncodedMatchFlags(xs[1..]);
      var tail := EncodeMany(EncodeMatch, xs[1..]).value;
      var all := EncodeMany(EncodeMatch, xs).value;
      forall j | 0 <= j && 7 * j + 6 < |all| ensures all[7 * j + 6] <= 1 {
        if j > 0 {
          assert all[7 * j + 6] == tail[7 * (j - 1) + 6];
        }
      }
    }
  }

  /** The result with the active index that reads as "none" replaced by none. */
  function AsDecoded(m: SearchResults): (r: SearchResults) {
    if m.activeIndex == Some(U32_MAX) then m.(activeIndex := None) else m
  }

  /** In an encoding every flag byte is 0 or 1 already. */
  lemma EncodedSearchFlags(m: SearchResults, rest: seq<Byte>, i: nat)
    requires EncodeSearch(m).Ok? && i < |EncodeSearch(m).value|
    ensures var data := EncodeSearch(m).value + rest; i in SearchFlags(|data|) ==> data[i] <= 1
  {
    var bytes := EncodeSearch(m).value;
    var data := bytes + rest;
    EncodedMatchFlags(m.visibleMatches);
    SearchFields(m, data);
    hide Le, EncodeMany, EncodeSearch, EncodeMatch, SearchFlags;
    var matches := EncodeMany(EncodeMatch, m.visibleMatches).value;
    assert At(data, 0, bytes);
    assert data[20] == data[20..21][0];
    SearchFlagsWithin(|data|, i);
    if i >= 23 && (i - 23) % 7 == 6 {
      var j := (i - 23) / 7;
      assert i == 23 + (7 * j + 6);
      assert matches[7 * j + 6] <= 1;
      assert data[i] == data[23..23 + |matches|][7 * j + 6];
    }
  }

  /** An encoded result comes back, whatever follows it, except that the largest index comes back as none. */
  lemma SearchRoundTrip(m: SearchResults, rest: seq<Byte>)
    requires EncodeSearch(m).Ok?
    ensures DecodeSearch(EncodeSearch(m).value + rest) == Ok(AsDecoded(m))
  {
    assert EncodeSearch(m).value == EncodeSearch(AsDecoded(m)).value;
    hide DecodeSearch, EncodeSearch, SearchFlags;
    var bytes := EncodeSearch(m).value;
    var data := bytes + rest;
    forall i | 0 <= i < |bytes| ensures FlagsAs1(data, SearchFlags(|data|))[i] == data[i] {
      EncodedSearchFlags(m, rest, i);
    }
    SearchIsExact(data, AsDecoded(m));
  }

  /** A result that does not come back as it was sent. */
  lemma SearchLosesLargestIndex(rest: seq<Byte>)
    ensures var m := SearchResults(0, 1, Some(U32_MAX), 0, false, []);
      && EncodeSearch(m).Ok?
      && DecodeSearch(EncodeSearch(m).value + rest) == Ok(m.(activeIndex := None))
      && DecodeSearch(EncodeSearch(m).value + rest) != Ok(m)
  {
    var m := SearchResults(0, 1, Some(U32_MAX), 0, false, []);
    SearchRoundTrip(m, rest);
  }
}
