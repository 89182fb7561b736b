/** When the codecs refuse: which values cannot be encoded, and what is wrong with bytes that do not decode. */
module WireErrors {
  import opened Basics
  import opened Bytes
  import opened Render
  import opened Messages

  // ----- encoding: every length field must fit -----

  /** A list is encodable exactly when each item is, and otherwise fails as its first bad item does. */
  lemma {:induction false} ManyEncodesIff<T>(enc: T -> IoResult<seq<Byte>>, xs: seq<T>)
    ensures EncodeMany(enc, xs).Ok? <==> forall x <- xs :: enc(x).Ok?
    ensures EncodeMany(enc, xs).Err? ==> exists x <- xs :: enc(x) == Err(EncodeMany(enc, xs).error)
  {
    if xs == [] {
    } else {
      ManyEncodesIff(enc, xs[1..]);
      assert xs == [xs[0]] + xs[1..];
    }
  }

  /** Items stand in the order of the list. */
  lemma {:induction false} ManyInOrder<T>(enc: T -> IoResult<seq<Byte>>, xs: seq<T>, x: T)
    requires EncodeMany(enc, xs).Ok? && enc(x).Ok?
    ensures EncodeMany(enc, xs + [x]) == Ok(EncodeMany(enc, xs).value + enc(x).value)
  {
    if xs == [] {
      assert xs + [x] == [x] && [x][1..] == [];
      assert EncodeMany(enc, [x]) == Ok(enc(x).value + []);
      assert enc(x).value + [] == [] + enc(x).value;
    } else {
      ManyInOrder(enc, xs[1..], x);
      assert (xs + [x])[1..] == xs[1..] + [x];
      var head, tail := enc(xs[0]).value, EncodeMany(enc, xs[1..]).value;
      assert head + tail + enc(x).value == head + (tail + enc(x).value);
    }
  }

  ghost predicate CellFits(c: WireCell) {
    |c.extra| <= 0xFFFF
  }

  ghost predicate RowFits(r: DirtyRow) {
    |r.cells| <= 0xFFFF && |r.markMetadata| <= 0xFFFF && forall c <- r.cells :: CellFits(c)
  }

  lemma CellEncodesIff(c: WireCell)
    ensures EncodeCell(c).Ok? <==> CellFits(c)
    ensures EncodeCell(c).Err? ==> EncodeCell(c) == Err(InvalidInput)
  {
  }

  /** A row can be sent exactly when its counts and every cell's extra bytes fit their 16-bit length fields. */
  lemma RowEncodesIff(r: DirtyRow)
    ensures EncodeRow(r).Ok? <==> RowFits(r)
    ensures EncodeRow(r).Err? ==> EncodeRow(r) == Err(InvalidInput)
  {
    hide EncodeCell, CellFits, EncodeMany;
    forall c ensures EncodeCell(c).Ok? <==> CellFits(c) {
      CellEncodesIff(c);
    }
    ManyEncodesIff(EncodeCell, r.cells);
    if EncodeMany(EncodeCell, r.cells).Err? {
      var c :| c in r.cells && EncodeCell(c) == Err(EncodeMany(EncodeCell, r.cells).error);
      CellEncodesIff(c);
    }
  }

  lemma RowsEncodeIff(rows: seq<DirtyRow>)
    ensures EncodeMany(EncodeRow, rows).Ok? <==> forall r <- rows :: RowFits(r)
    ensures EncodeMany(EncodeRow, rows).Err? ==> EncodeMany(EncodeRow, rows) == Err(InvalidInput)
  {
    hide EncodeRow, RowFits, EncodeMany;
    forall r ensures EncodeRow(r).Ok? <==> RowFits(r) {
      RowEncodesIff(r);
    }
    ManyEncodesIff(EncodeRow, rows);
    if EncodeMany(EncodeRow, rows).Err? {
      var r :| r in rows && EncodeRow(r) == Err(EncodeMany(EncodeRow, rows).error);
      RowEncodesIff(r);
    }
  }

  /** Updates count their rows in 16 bits, scrollback in 32. */
  lemma UpdateEncodesIff(m: RenderUpdate, d: ScrollbackData)
    ensures EncodeUpdate(m).Ok? <==> |m.dirtyRows| <= 0xFFFF && forall r <- m.dirtyRows :: RowFits(r)
    ensures EncodeUpdate(m).Err? ==> EncodeUpdate(m) == Err(InvalidInput)
    ensures EncodeScrollback(d).Ok? <==> |d.rows| <= 0xFFFF_FFFF && forall r <- d.rows :: RowFits(r)
    ensures EncodeScrollback(d).Err? ==> EncodeScrollback(d) == Err(InvalidInput)
  {
    hide EncodeRow, RowFits, EncodeMany, Le;
    RowsEncodeIff(m.dirtyRows);
    RowsEncodeIff(d.rows);
  }

  ghost predicate PaneFits(p: PaneInfo) {
    |p.title| <= 0xFFFF && |p.cwd| <= 0xFFFF
  }

  /** Pane lists, tab lists and search results: every text and every count in 16 bits. */
  lemma ListsEncodeIff(panes: seq<PaneInfo>, l: TabList, m: SearchResults)
    ensures EncodePanes(panes).Ok? <==> |panes| <= 0xFFFF && forall p <- panes :: PaneFits(p)
    ensures EncodePanes(panes).Err? ==> EncodePanes(panes) == Err(InvalidInput)
    ensures EncodeTabs(l).Ok? <==>
      |l.workspaceName| <= 0xFFFF && |l.tabs| <= 0xFFFF && forall t <- l.tabs :: |t.name| <= 0xFFFF
    ensures EncodeTabs(l).Err? ==> EncodeTabs(l) == Err(InvalidInput)
    ensures EncodeSearch(m).Ok? <==> |m.visibleMatches| <= 0xFFFF
    ensures EncodeSearch(m).Err? ==> EncodeSearch(m) == Err(InvalidInput)
  {
    hide EncodeMany, Le, IsUtf8;
    forall p ensures EncodePane(p).Ok? <==> PaneFits(p) {}
    forall t ensures EncodeTab(t).Ok? <==> |t.name| <= 0xFFFF {}
    ManyEncodesIff(EncodePane, panes);
    ManyEncodesIff(EncodeTab, l.tabs);
    ManyEncodesIff(EncodeMatch, m.visibleMatches);
  }

  // ----- decoding: too short, or wrong -----

  /** The decoder only ever complains that bytes are missing. */
  ghost predicate OnlyShort<T>(dec: seq<Byte> -> Decoded<T>) {
    forall data :: match dec(data) {
      case Ok((_, k)) => k <= |data|
      case Err(e) => e == UnexpectedEof
    }
  }

  lemma {:induction false} ManyOnlyShort<T>(dec: seq<Byte> -> Decoded<T>, count: nat, data: seq<Byte>)
    requires OnlyShort(dec)
    ensures DecodeMany(dec, count, data).Err? ==> DecodeMany(dec, count, data) == Err(UnexpectedEof)
    decreases count
  {
    if count == 0 {
    } else if dec(data).Ok? {
      ManyOnlyShort(dec, count - 1, data[dec(data).value.1..]);
    }
  }

  lemma RowsOnlyShort()
    ensures OnlyShort(DecodeRow)
  {
    hide DecodeMany, Le, FromLe, Pow256;
    assert OnlyShort(DecodeCell);
    hide DecodeCell, OnlyShort;
    forall data ensures DecodeRow(data).Err? ==> DecodeRow(data) == Err(UnexpectedEof) {
      if |data| >= 4 {
        ManyOnlyShort(DecodeCell, U16At(data, 2), data[4..]);
      }
    }
    RowVerdicts();
  }

  lemma RowVerdicts()
    requires forall data :: DecodeRow(data).Err? ==> DecodeRow(data) == Err(UnexpectedEof)
    ensures OnlyShort(DecodeRow)
  {
    forall data ensures match DecodeRow(data) { case Ok((_, k)) => k <= |data| case Err(e) => e == UnexpectedEof } {
      assert DecodeRow(data).Ok? ==> DecodeRow(data).value.1 <= |data|;
    }
  }

  /** Updates and search results that do not decode are cut short; scrollback data also when it claims more
      than ten thousand rows. */
  lemma RejectedIsShort(data: seq<Byte>)
    ensures DecodeUpdate(data).Err? ==> DecodeUpdate(data) == Err(UnexpectedEof)
    ensures DecodeSearch(data).Err? ==> DecodeSearch(data) == Err(UnexpectedEof)
    ensures DecodeScrollback(data) == Err(InvalidData) <==> |data| >= 29 && FromLe(data[25..29]) > 10_000
    ensures DecodeScrollback(data) != Err(InvalidInput)
  {
    hide DecodeMany, DecodeRow, Le, FromLe, Pow256;
    RowsOnlyShort();
    assert OnlyShort(DecodeMatch);
    hide OnlyShort, DecodeMatch;
    if |data| >= 23 {
      ManyOnlyShort(DecodeMatch, U16At(data, 21), data[23..]);
    }
    if |data| >= 29 {
      ManyOnlyShort(DecodeRow, U32At(data, 25), data[29..]);
    }
    if |data| >= 35 {
      ManyOnlyShort(DecodeRow, U16At(data, 33), data[35..]);
    }
  }

  /** A string is cut short, or complete and not UTF-8, or read. */
  lemma StrVerdict(data: seq<Byte>, offset: nat)
    ensures DecodeStr(data, offset) == Err(UnexpectedEof) <==>
      |data| < offset + 2 || |data| < offset + 2 + FromLe(data[offset..offset + 2])
    ensures DecodeStr(data, offset) == Err(InvalidData) <==>
      && |data| >= offset + 2 && |data| >= offset + 2 + FromLe(data[offset..offset + 2])
      && !IsUtf8(data[offset + 2..offset + 2 + FromLe(data[offset..offset + 2])])
  {
    hide IsUtf8, FromLe, Le, Pow256;
  }

  /** Pane metadata is checked front to back: too short for the title, a bad title, too short for the
      directory, a bad directory. */
  lemma PaneVerdict(data: seq<Byte>)
    requires |data| >= 6
    ensures var t := FromLe(data[4..6]);
      && (|data| < 18 + t ==> DecodePane(data) == Err(UnexpectedEof))
      && (|data| >= 18 + t && !IsUtf8(data[6..6 + t]) ==> DecodePane(data) == Err(InvalidData))
      && (|data| >= 18 + t && IsUtf8(data[6..6 + t]) && |data| < 20 + t ==> DecodePane(data) == Err(UnexpectedEof))
      && (|data| >= 20 + t && IsUtf8(data[6..6 + t]) ==>
            var c := FromLe(data[18 + t..20 + t]);
            && (|data| < 20 + t + c ==> DecodePane(data) == Err(UnexpectedEof))
            && (|data| >= 20 + t + c && !IsUtf8(data[20 + t..20 + t + c]) ==> DecodePane(data) == Err(InvalidData))
            && (|data| >= 20 + t + c && IsUtf8(data[20 + t..20 + t + c]) ==> DecodePane(data).Ok?))
  {
    hide IsUtf8, FromLe, Le, Pow256;
  }

  /** A tab entry, and the head of a tab list, likewise: cut short, or a bad name. */
  lemma TabVerdict(data: seq<Byte>)
    ensures DecodeTab(data) == Err(UnexpectedEof) <==> |data| < 10 || |data| < 10 + FromLe(data[8..10])
    ensures DecodeTab(data) == Err(InvalidData) <==>
      |data| >= 10 && |data| >= 10 + FromLe(data[8..10]) && !IsUtf8(data[10..10 + FromLe(data[8..10])])
    ensures |data| < 6 || |data| < 12 + FromLe(data[4..6]) ==> DecodeTabs(data) == Err(UnexpectedEof)
    ensures |data| >= 6 && |data| >= 12 + FromLe(data[4..6]) && !IsUtf8(data[6..6 + FromLe(data[4..6])]) ==>
      DecodeTabs(data) == Err(InvalidData)
    ensures |data| < 6 ==> DecodePane(data) == Err(UnexpectedEof)
    ensures |data| < 2 ==> DecodePanes(data) == Err(UnexpectedEof)
  {
    hide IsUtf8, FromLe, Le, Pow256, DecodeMany;
  }

  /** Every run of these bytes is UTF-8. */
  ghost predicate AllText(data: seq<Byte>) {
    forall i, j :: 0 <= i <= j <= |data| ==> IsUtf8(data[i..j])
  }

  lemma AllTextAfter(data: seq<Byte>, k: nat)
    requires AllText(data) && k <= |data|
    ensures AllText(data[k..])
  {
    hide IsUtf8;
    forall i, j | 0 <= i <= j <= |data| - k ensures IsUtf8(data[k..][i..j]) {
      assert data[k..][i..j] == data[k + i..k + j];
    }
  }

  /** On bytes that are all text the decoder only ever complains that some are missing. */
  ghost predicate TextOnlyShort<T>(dec: seq<Byte> -> Decoded<T>) {
    forall data :: AllText(data) ==>
      match dec(data) {
        case Ok((_, k)) => k <= |data|
        case Err(e) => e == UnexpectedEof
      }
  }

  lemma {:induction false} ManyTextsOnlyShort<T>(dec: seq<Byte> -> Decoded<T>, count: nat, data: seq<Byte>)
    requires TextOnlyShort(dec) && AllText(data)
    ensures DecodeMany(dec, count, data).Err? ==> DecodeMany(dec, count, data) == Err(UnexpectedEof)
    decreases count
  {
    hide AllText;
    if count == 0 {
    } else if dec(data).Ok? {
      AllTextAfter(data, dec(data).value.1);
      ManyTextsOnlyShort(dec, count - 1, data[dec(data).value.1..]);
    }
  }

  /** Where all bytes are text a list of panes or tabs is never bad: it can only be cut short. */
  lemma TextsOnlyShort(data: seq<Byte>)
    requires AllText(data)
    ensures DecodePanes(data).Err? ==> DecodePanes(data) == Err(UnexpectedEof)
    ensures DecodeTabs(data).Err? ==> DecodeTabs(data) == Err(UnexpectedEof)
  {
    hide IsUtf8, FromLe, Le, Pow256, DecodeMany;
    assert TextOnlyShort(DecodePane);
    assert TextOnlyShort(DecodeTab);
    hide DecodePane, DecodeTab, TextOnlyShort;
    if |data| >= 2 {
      AllTextAfter(data, 2);
      ManyTextsOnlyShort(DecodePane, U16At(data, 0), data[2..]);
    }
    var tabs := if |data| >= 6 then 12 + U16At(data, 4) else 0;
    if |data| >= 6 && tabs <= |data| {
      AllTextAfter(data, tabs);
      ManyTextsOnlyShort(DecodeTab, U16At(data, tabs - 2), data[tabs..]);
    }
  }
}
