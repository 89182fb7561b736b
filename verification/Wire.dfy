/** From message to bytes on a socket and back: the framing and the payload codecs together. */
module Wire {
  import opened Basics
  import opened Bytes
  import opened Frames
  import opened Messages

  const MSG_SEARCH_RESULTS: U16 := 0x78
  const MSG_LIST_PANES_RESPONSE: U16 := 0x96
  const MSG_TAB_LIST: U16 := 0xB0

  /** `SearchResults::to_frame`. */
  function SearchToFrame(m: SearchResults, serial: U32): (r: IoResult<Frame>) {
    match EncodeSearch(m)
    case Err(e) => Err(e)
    case Ok(payload) => NewFrame(MSG_SEARCH_RESULTS, serial, payload)
  }

  /** `TabList::to_frame`. */
  function TabsToFrame(l: TabList, serial: U32): (r: IoResult<Frame>) {
    match EncodeTabs(l)
    case Err(e) => Err(e)
    case Ok(payload) => NewFrame(MSG_TAB_LIST, serial, payload)
  }

  /** `ListPanesResponse::to_frame`. */
  function PanesToFrame(panes: seq<PaneInfo>, serial: U32): (r: IoResult<Frame>) {
    match EncodePanes(panes)
    case Err(e) => Err(e)
    case Ok(payload) => NewFrame(MSG_LIST_PANES_RESPONSE, serial, payload)
  }

  datatype Reply = SearchReply(results: SearchResults) | TabsReply(tabs: TabList) | PanesReply(panes: seq<PaneInfo>)

  function ToFrame(m: Reply, serial: U32): (r: IoResult<Frame>) {
    match m
    case SearchReply(results) => SearchToFrame(results, serial)
    case TabsReply(tabs) => TabsToFrame(tabs, serial)
    case PanesReply(panes) => PanesToFrame(panes, serial)
  }

  /** How a client reads a frame: by its message type. */
  function FromFrame(f: Frame): (r: IoResult<Reply>) {
    if f.msgType == MSG_SEARCH_RESULTS then
      match DecodeSearch(f.payload)
      case Err(e) => Err(e)
      case Ok(m) => Ok(SearchReply(m))
    else if f.msgType == MSG_TAB_LIST then
      match DecodeTabs(f.payload)
      case Err(e) => Err(e)
      case Ok(l) => Ok(TabsReply(l))
    else if f.msgType == MSG_LIST_PANES_RESPONSE then
      match DecodePanes(f.payload)
      case Err(e) => Err(e)
      case Ok(panes) => Ok(PanesReply(panes))
    else Err(InvalidData)
  }

  /** A reply as it arrives; only a search result can change, in its one ambiguous index. */
  function AsReceived(m: Reply): (r: Reply) {
    match m
    case SearchReply(results) => SearchReply(AsDecoded(results))
    case TabsReply(_) | PanesReply(_) => m
  }

  lemma FramedReply(m: Reply, serial: U32)
    requires ToFrame(m, serial).Ok?
    ensures Encodable(ToFrame(m, serial).value) && ToFrame(m, serial).value.serial == serial
    ensures ToFrame(m, serial).value.flags == 0
    ensures ToFrame(m, serial).value.msgType == if m.SearchReply? then 0x78 else if m.TabsReply? then 0xB0 else 0x96
    ensures FromFrame(ToFrame(m, serial).value) == Ok(AsReceived(m))
  {
    hide EncodeSearch, DecodeSearch, EncodeTabs, DecodeTabs, EncodePanes, DecodePanes, AsDecoded;
    match m
    case SearchReply(results) =>
      SearchRoundTrip(results, []);
      assert EncodeSearch(results).value + [] == EncodeSearch(results).value;
    case TabsReply(tabs) =>
      TabsAreExact(EncodeTabs(tabs).value, tabs);
    case PanesReply(panes) =>
      PanesAreExact(EncodePanes(panes).value, panes);
  }

  /**
   * Replies framed and sent one after another are received whole, in order and with their serials,
   * however the bytes are cut into reads, and nothing is left in the buffer.
   */
  lemma RepliesArriveAsSent(ms: seq<Reply>, serials: seq<U32>, fs: seq<Frame>, chunks: seq<seq<Byte>>)
    requires |serials| == |ms| == |fs|
    requires forall i :: 0 <= i < |ms| ==> ToFrame(ms[i], serials[i]) == Ok(fs[i])
    requires Concat(chunks) == EncodeFrames(fs)
    ensures FeedAll(FRESH_READER, chunks) == Reader(fs, [], false)
    ensures forall i :: 0 <= i < |ms| ==> fs[i].serial == serials[i] && FromFrame(fs[i]) == Ok(AsReceived(ms[i]))
  {
    hide ToFrame, FromFrame, AsReceived, FeedAll;
    forall i | 0 <= i < |ms|
      ensures Encodable(fs[i]) && fs[i].serial == serials[i] && FromFrame(fs[i]) == Ok(AsReceived(ms[i]))
    {
      FramedReply(ms[i], serials[i]);
    }
    StreamRoundTrip(fs, chunks);
  }
}
