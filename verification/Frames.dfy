/** The 13-byte frame header, the one-shot decoder, and the streaming codec over a growing buffer. */
module Frames {
  import opened Bytes
  import opened Basics

  const MAGIC: seq<Byte> := [0x4F, 0x54]
  const MAX_PAYLOAD: U32 := 16 * 1024 * 1024
  const HEADER_SIZE: nat := 13

  datatype Frame = Frame(flags: Byte, msgType: U16, serial: U32, payload: seq<Byte>)

  /** The payload bound every frame made through the constructor or the stream encoder meets. */
  predicate Encodable(f: Frame) {
    |f.payload| <= MAX_PAYLOAD
  }

  /** `Frame::new`. */
  function NewFrame(msgType: U16, serial: U32, payload: seq<Byte>): (r: IoResult<Frame>) {
    if |payload| > MAX_PAYLOAD then Err(InvalidInput) else Ok(Frame(0, msgType, serial, payload))
  }

  /** `Frame::encode_to_vec`; the length field is cast to 32 bits, so an oversized payload truncates it. */
  function EncodeToVec(f: Frame): (r: seq<Byte>)
    ensures |r| == HEADER_SIZE + |f.payload|
  {
    MAGIC + [f.flags] + Le(f.msgType, 2) + Le(f.serial, 4) + Le(|f.payload| % 0x1_0000_0000, 4) + f.payload
  }

  /** `Frame::decode_from_slice`: the first frame in `data` and the bytes it took. */
  function DecodeFromSlice(data: seq<Byte>): (r: Decoded<Frame>)
    ensures r.Ok? ==> HEADER_SIZE <= r.value.1 <= |data|
  {
    if |data| < HEADER_SIZE then Err(UnexpectedEof)
    else if data[0..2] != MAGIC then Err(InvalidData)
    else
      var length := U32At(data, 9);
      if length > MAX_PAYLOAD then Err(InvalidData)
      else
        var total := HEADER_SIZE + length;
        if |data| < total then Err(UnexpectedEof)
        else Ok((Frame(data[2], U16At(data, 3), U32At(data, 5), data[HEADER_SIZE..total]), total))
  }

  /** A new frame carries no flags, its type, its serial and its payload, which may take up to 16 MiB. */
  lemma NewFrameIs(msgType: U16, serial: U32, payload: seq<Byte>)
    ensures var r := NewFrame(msgType, serial, payload);
      if |payload| <= 0x100_0000 then
        && r.Ok? && Encodable(r.value) && r.value.flags == 0 && r.value.msgType == msgType
        && r.value.serial == serial && r.value.payload == payload
      else r == Err(InvalidInput)
  {
  }

  /** Where each header field of an encoding stands. */
  lemma EncodingFields(f: Frame, data: seq<Byte>)
    ensures At(data, 0, EncodeToVec(f)) <==>
      && At(data, 0, MAGIC) && At(data, 2, [f.flags]) && At(data, 3, Le(f.msgType, 2))
      && At(data, 5, Le(f.serial, 4)) && At(data, 9, Le(|f.payload| % 0x1_0000_0000, 4))
      && At(data, 13, f.payload)
  {
    hide At;
    var a := MAGIC + [f.flags];
    var b := a + Le(f.msgType, 2);
    var c := b + Le(f.serial, 4);
    var d := c + Le(|f.payload| % 0x1_0000_0000, 4);
    AtConcat(data, 0, MAGIC, [f.flags]);
    AtConcat(data, 0, a, Le(f.msgType, 2));
    AtConcat(data, 0, b, Le(f.serial, 4));
    AtConcat(data, 0, c, Le(|f.payload| % 0x1_0000_0000, 4));
    AtConcat(data, 0, d, f.payload);
  }

  /**
   * The one-shot decoder accepts the first `n` bytes as `f` exactly when `f` is within the payload bound
   * and those bytes are its encoding.
   */
  lemma DecodeIsExact(data: seq<Byte>, f: Frame, n: nat)
    ensures DecodeFromSlice(data) == Ok((f, n)) <==>
      Encodable(f) && n == |EncodeToVec(f)| && At(data, 0, EncodeToVec(f))
  {
    hide IsUtf8, Le, FromLe, Pow256;
    EncodingFields(f, data);
    ReadU16(data, 3, f.msgType);
    ReadU32(data, 5, f.serial);
    ReadU32(data, 9, |f.payload| % 0x1_0000_0000);
    if HEADER_SIZE <= |data| {
      assert data[0..2] == data[0..0 + |MAGIC|];
      assert data[2..3] == [data[2]];
    }
  }

  /** Encoding then decoding gives the frame back, whatever follows, exactly when the payload fits. */
  lemma FrameRoundTrip(f: Frame, rest: seq<Byte>)
    ensures DecodeFromSlice(EncodeToVec(f) + rest) == Ok((f, |EncodeToVec(f)|)) <==> Encodable(f)
  {
    var data := EncodeToVec(f) + rest;
    assert data[0..|EncodeToVec(f)|] == EncodeToVec(f);
    DecodeIsExact(data, f, |EncodeToVec(f)|);
  }

  /** More bytes never change a verdict other than "incomplete". */
  lemma DecodeIsStable(data: seq<Byte>, more: seq<Byte>)
    requires DecodeFromSlice(data) != Err(UnexpectedEof)
    ensures DecodeFromSlice(data + more) == DecodeFromSlice(data)
  {
    hide Le, FromLe, Pow256;
    var all := data + more;
    assert all[0..2] == data[0..2];
    SameReads(data, more);
    if DecodeFromSlice(data).Ok? {
      var total := DecodeFromSlice(data).value.1;
      assert all[HEADER_SIZE..total] == data[HEADER_SIZE..total];
    }
  }

  lemma SameReads(data: seq<Byte>, more: seq<Byte>)
    requires |data| >= HEADER_SIZE
    ensures U16At(data + more, 3) == U16At(data, 3)
    ensures U32At(data + more, 5) == U32At(data, 5)
    ensures U32At(data + more, 9) == U32At(data, 9)
  {
    var all := data + more;
    assert all[3..5] == data[3..5];
    assert all[5..9] == data[5..9];
    assert all[9..13] == data[9..13];
  }

  /** A header within the bound whose payload is cut short is completed by any bytes, zeros for instance. */
  lemma CutShortContinues(data: seq<Byte>)
    requires |data| >= HEADER_SIZE && DecodeFromSlice(data) == Err(UnexpectedEof)
    ensures exists f :: Encodable(f) && data < EncodeToVec(f)
  {
    hide EncodeToVec, Le, FromLe, Pow256;
    var total := HEADER_SIZE + U32At(data, 9);
    var all := data + seq(total - |data|, _ => 0);
    SameReads(data, seq(total - |data|, _ => 0));
    assert all[0..2] == data[0..2];
    var (f, n) := DecodeFromSlice(all).value;
    DecodeIsExact(all, f, n);
    assert EncodeToVec(f) == all[0..|all|] == all;
    assert data < EncodeToVec(f);
  }

  /**
   * The three verdicts, by what the bytes could be: incomplete when they are no whole header or the proper
   * start of some frame's encoding, a frame when they start with its encoding, and bad when neither.
   */
  lemma VerdictIff(data: seq<Byte>)
    ensures DecodeFromSlice(data) == Err(UnexpectedEof) <==>
      |data| < HEADER_SIZE || exists f :: Encodable(f) && data < EncodeToVec(f)
    ensures DecodeFromSlice(data).Ok? <==> exists f :: Encodable(f) && EncodeToVec(f) <= data
    ensures DecodeFromSlice(data) == Err(InvalidData) <==>
      && |data| >= HEADER_SIZE
      && forall f :: Encodable(f) ==> !(data < EncodeToVec(f)) && !(EncodeToVec(f) <= data)
  {
    assert DecodeFromSlice(data).Ok? || DecodeFromSlice(data) == Err(UnexpectedEof)
           || DecodeFromSlice(data) == Err(InvalidData);
    assert |data| < HEADER_SIZE ==> DecodeFromSlice(data) == Err(UnexpectedEof);
    hide DecodeFromSlice, EncodeToVec, Encodable;
    forall f | Encodable(f) && EncodeToVec(f) <= data ensures DecodeFromSlice(data).Ok? {
      AtPrefix(data, EncodeToVec(f));
      DecodeIsExact(data, f, |EncodeToVec(f)|);
    }
    forall f | Encodable(f) && data < EncodeToVec(f) ensures DecodeFromSlice(data) == Err(UnexpectedEof) {
      FrameRoundTrip(f, []);
      var rest := EncodeToVec(f)[|data|..];
      assert data + rest == EncodeToVec(f) == EncodeToVec(f) + [];
      if DecodeFromSlice(data) != Err(UnexpectedEof) {
        DecodeIsStable(data, rest);
      }
    }
    if DecodeFromSlice(data).Ok? {
      var (f, n) := DecodeFromSlice(data).value;
      DecodeIsExact(data, f, n);
      AtPrefix(data, EncodeToVec(f));
    } else if DecodeFromSlice(data) == Err(UnexpectedEof) && |data| >= HEADER_SIZE {
      CutShortContinues(data);
    }
  }

  // ----- The streaming codec -----------------------------------------------------------------------

  /** The `bytes` crate's buffer: bytes leave at the front and arrive at the back. */
  class BytesMut {
    var data: seq<Byte>

    constructor ()
      ensures data == []
    {
      data := [];
    }

    method SplitTo(n: nat) returns (front: seq<Byte>)
      requires n <= |data|
      modifies this
      ensures front == old(data[..n]) && data == old(data[n..])
    {
      front := data[..n];
      data := data[n..];
    }

    method Clear()
      modifies this
      ensures data == []
    {
      data := [];
    }

    method PutSlice(s: seq<Byte>)
      modifies this
      ensures data == old(data) + s
    {
      data := data + s;
    }
  }

  class FrameCodec {
    constructor () {
    }

    /**
     * On every buffer the streaming decoder agrees with the one-shot decoder: a frame is taken off the
     * front, an incomplete frame leaves the buffer alone, and bad data clears it.
     */
    method Decode(src: BytesMut) returns (r: IoResult<Option<Frame>>)
      modifies src
      ensures match DecodeFromSlice(old(src.data)) {
        case Ok((f, n)) => r == Ok(Some(f)) && src.data == old(src.data)[n..]
        case Err(UnexpectedEof) => r == Ok(None) && src.data == old(src.data)
        case Err(e) => r == Err(e) && e == InvalidData && src.data == []
      }
    {
      hide Le, FromLe, Pow256;
      if |src.data| < HEADER_SIZE {
        return Ok(None);
      }
      if src.data[0..2] != MAGIC {
        src.Clear();
        return Err(InvalidData);
      }
      var payloadLength := U32At(src.data, 9);
      if payloadLength > MAX_PAYLOAD {
        src.Clear();
        return Err(InvalidData);
      }
      var total := HEADER_SIZE + payloadLength;
      if |src.data| < total {
        return Ok(None);
      }
      ghost var was := src.data;
      var headerBytes := src.SplitTo(HEADER_SIZE);
      var payload := src.SplitTo(payloadLength);
      assert was[HEADER_SIZE..][..payloadLength] == was[HEADER_SIZE..total];
      assert was[HEADER_SIZE..][payloadLength..] == was[total..];
      assert headerBytes + was[HEADER_SIZE..] == was;
      SameReads(headerBytes, was[HEADER_SIZE..]);
      return Ok(Some(Frame(headerBytes[2], U16At(headerBytes, 3), U32At(headerBytes, 5), payload)));
    }

    /** Appends the encoding of a frame within the bound; refuses any other and leaves the buffer alone. */
    method Encode(frame: Frame, dst: BytesMut) returns (r: IoResult<()>)
      modifies dst
      ensures r == if Encodable(frame) then Ok(()) else Err(InvalidInput)
      ensures dst.data == if Encodable(frame) then old(dst.data) + EncodeToVec(frame) else old(dst.data)
    {
      hide Le, Pow256;
      var payloadLen := |frame.payload|;
      if payloadLen > MAX_PAYLOAD {
        return Err(InvalidInput);
      }
      ghost var was := dst.data;
      dst.PutSlice(MAGIC);
      dst.PutSlice([frame.flags]);
      assert dst.data == was + (MAGIC + [frame.flags]);
      dst.PutSlice(Le(frame.msgType, 2));
      assert dst.data == was + (MAGIC + [frame.flags] + Le(frame.msgType, 2));
      dst.PutSlice(Le(frame.serial, 4));
      assert dst.data == was + (MAGIC + [frame.flags] + Le(frame.msgType, 2) + Le(frame.serial, 4));
      dst.PutSlice(Le(payloadLen, 4));
      dst.PutSlice(frame.payload);
      assert dst.data == was + EncodeToVec(frame);
      return Ok(());
    }
  }

  // ----- A connection over many reads --------------------------------------------------------------

  /** What a reader has: the frames delivered, the bytes still buffered, and whether the stream failed. */
  datatype Reader = Reader(frames: seq<Frame>, buffer: seq<Byte>, failed: bool)

  function Prepend(f: Frame, r: Reader): (r': Reader) {
    r.(frames := [f] + r.frames)
  }

  /** Decoding until the codec asks for more bytes or reports an error. */
  function Drain(buf: seq<Byte>): (r: Reader)
    decreases |buf|
  {
    match DecodeFromSlice(buf)
    case Ok((f, n)) =>
      Prepend(f, Drain(buf[n..]))
    case Err(UnexpectedEof) => Reader([], buf, false)
    case Err(_) => Reader([], [], true)
  }

  /** A chunk arrives: it joins the buffer, which is drained; a failed connection takes no more. */
  function Feed(r: Reader, chunk: seq<Byte>): (r': Reader) {
    if r.failed then r
    else
      var d := Drain(r.buffer + chunk);
      d.(frames := r.frames + d.frames)
  }

  function FeedAll(r: Reader, chunks: seq<seq<Byte>>): (r': Reader)
    decreases chunks
  {
    if chunks == [] then r else FeedAll(Feed(r, chunks[0]), chunks[1..])
  }

  function Concat(chunks: seq<seq<Byte>>): (s: seq<Byte>) {
    if chunks == [] then [] else chunks[0] + Concat(chunks[1..])
  }

  function EncodeFrames(fs: seq<Frame>): (s: seq<Byte>) {
    if fs == [] then [] else EncodeToVec(fs[0]) + EncodeFrames(fs[1..])
  }

  /**
   * The server's receive loop: decode every buffered frame, hand each one on, and close the connection
   * on an error. `handed` collects the frames in the order they are dispatched.
   */
  method DispatchIncoming(codec: FrameCodec, buf: BytesMut) returns (handed: seq<Frame>, closed: bool)
    modifies buf
    ensures Drain(old(buf.data)) == Reader(handed, buf.data, closed)
  {
    hide DecodeFromSlice;
    handed, closed := [], false;
    while true
      invariant !closed
      invariant Drain(old(buf.data)) == After(handed, Drain(buf.data))
      decreases |buf.data|
    {
      ghost var was := buf.data;
      var r := codec.Decode(buf);
      match r
      case Err(_) =>
        closed := true;
        break;
      case Ok(None) => break;
      case Ok(Some(frame)) =>
        ghost var rest := Drain(buf.data);
        assert handed + Prepend(frame, rest).frames == handed + [frame] + rest.frames;
        handed := handed + [frame];
    }
  }

  /** A reader that had already handed on `fs`. */
  ghost function After(fs: seq<Frame>, r: Reader): Reader {
    r.(frames := fs + r.frames)
  }

  const FRESH_READER := Reader([], [], false)

  lemma Prepended(f: Frame, r: Reader, chunk: seq<Byte>)
    ensures Feed(Prepend(f, r), chunk) == Prepend(f, Feed(r, chunk))
  {
  }

  lemma FeedIncomplete(buf: seq<Byte>, more: seq<Byte>)
    ensures Feed(Reader([], buf, false), more) == Drain(buf + more)
  {
  }

  /** Draining early does not matter: what is left over is drained with the bytes that follow. */
  lemma {:induction false} DrainThenMore(buf: seq<Byte>, more: seq<Byte>)
    ensures Drain(buf + more) == Feed(Drain(buf), more)
    decreases |buf|
  {
    hide DecodeFromSlice;
    if DecodeFromSlice(buf) == Err(UnexpectedEof) {
      FeedIncomplete(buf, more);
    } else {
      DecodeIsStable(buf, more);
      if DecodeFromSlice(buf).Ok? {
        var (f, n) := DecodeFromSlice(buf).value;
        DrainThenMore(buf[n..], more);
        assert (buf + more)[n..] == buf[n..] + more;
        Prepended(f, Drain(buf[n..]), more);
      }
    }
  }

  /** Every cutting of the same bytes gives the same frames, the same leftover and the same failure. */
  lemma {:induction false} FragmentationIndependent(buf: seq<Byte>, chunks: seq<seq<Byte>>)
    ensures FeedAll(Drain(buf), chunks) == Drain(buf + Concat(chunks))
    decreases chunks
  {
    hide Drain, Feed;
    if chunks == [] {
      assert buf + Concat(chunks) == buf;
    } else {
      DrainThenMore(buf, chunks[0]);
      FragmentationIndependent(buf + chunks[0], chunks[1..]);
      assert buf + chunks[0] + Concat(chunks[1..]) == buf + Concat(chunks);
    }
  }

  /**
   * A byte stream delivers the frames `fs` and keeps `rest` if and only if it is the encodings of `fs`,
   * each within the bound, followed by an incomplete frame `rest`: no frame is lost, made up or reordered.
   */
  lemma {:induction false} DrainIsExact(buf: seq<Byte>, fs: seq<Frame>, rest: seq<Byte>)
    ensures Drain(buf) == Reader(fs, rest, false) <==>
      && buf == EncodeFrames(fs) + rest
      && (forall i :: 0 <= i < |fs| ==> Encodable(fs[i]))
      && DecodeFromSlice(rest) == Err(UnexpectedEof)
    decreases |buf|
  {
    hide EncodeToVec, DecodeFromSlice, Encodable;
    if fs == [] {
      assert EncodeFrames(fs) + rest == rest;
    } else {
      var bytes := EncodeToVec(fs[0]);
      DecodeIsExact(buf, fs[0], |bytes|);
      AtPrefix(buf, bytes);
      assert EncodeFrames(fs) + rest == bytes + (EncodeFrames(fs[1..]) + rest);
      if DecodeFromSlice(buf) == Ok((fs[0], |bytes|)) {
        DrainIsExact(buf[|bytes|..], fs[1..], rest);
        assert buf == bytes + buf[|bytes|..];
        assert fs == [fs[0]] + fs[1..];
      } else if DecodeFromSlice(buf).Ok? {
        var (f, n) := DecodeFromSlice(buf).value;
        DecodeIsExact(buf, f, n);
      }
    }
  }

  /** Frames sent through the encoder arrive as sent, in order, however the bytes are cut up. */
  lemma StreamRoundTrip(fs: seq<Frame>, chunks: seq<seq<Byte>>)
    requires forall i :: 0 <= i < |fs| ==> Encodable(fs[i])
    requires Concat(chunks) == EncodeFrames(fs)
    ensures FeedAll(FRESH_READER, chunks) == Reader(fs, [], false)
  {
    assert DecodeFromSlice([]) == Err(UnexpectedEof);
    hide DecodeFromSlice, EncodeToVec, FeedAll;
    FragmentationIndependent([], chunks);
    assert [] + Concat(chunks) == EncodeFrames(fs) + [];
    DrainIsExact(Concat(chunks), fs, []);
  }
}
