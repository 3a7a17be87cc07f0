/**
 Reassembly of LLRP messages from an arbitrarily cut byte stream
 (`LLRPReaderClient.raw_data_received`). The header is that of section 17.1 of
 GS1 LLRP 1.1: a 16-bit word, the 32-bit total length and the 32-bit message ID.
 */
module Framing {
  import opened Prelude
  import opened Bytes
  import Header

  const HEADER_LEN := 10

  /** What a session fixes: `max_message_size`, and which complete frames are
      decoded and handled without raising. */
  datatype Session = Session(maxSize: Option<nat>, decodable: seq<byte> -> bool)

  datatype FrameError = TooShort(length: nat) | TooLong(length: nat) | Undecodable(frame: seq<byte>)

  /** The result of parsing a stream: the frames delivered, then either the
      incomplete tail and the size it waits for, or the error that stopped it. */
  datatype Parse =
    | Parsed(frames: seq<seq<byte>>, rest: seq<byte>, expected: nat)
    | Broken(frames: seq<seq<byte>>, error: FrameError)

  function Declared(data: seq<byte>): nat
    requires |data| >= HEADER_LEN
  {
    Unpack(data[2..6])
  }

  function Prepend(frames: seq<seq<byte>>, p: Parse): Parse {
    p.(frames := frames + p.frames)
  }

  /** The one-shot parser: the whole stream at once. */
  function ParseStream(s: Session, data: seq<byte>): Parse
    decreases |data|
  {
    if data == [] then Parsed([], [], 0)
    else if |data| < HEADER_LEN then Parsed([], data, HEADER_LEN)
    else
      var length := Declared(data);
      if length < HEADER_LEN then Broken([], TooShort(length))
      else if s.maxSize.Some? && length > s.maxSize.value then Broken([], TooLong(length))
      else if |data| < length then Parsed([], data, length)
      else if !s.decodable(data[..length]) then Broken([], Undecodable(data[..length]))
      else Prepend([data[..length]], ParseStream(s, data[length..]))
  }

  function Flatten(chunks: seq<seq<byte>>): seq<byte> {
    if chunks == [] then [] else chunks[0] + Flatten(chunks[1..])
  }

  // -------------------------------------------------- feeding in chunks

  /** What one more chunk does to a session that has delivered `p.frames` and
      holds `p.rest`. */
  function Feed(s: Session, p: Parse, chunk: seq<byte>): Parse {
    if p.Broken? then p else Prepend(p.frames, ParseStream(s, p.rest + chunk))
  }

  function FeedAll(s: Session, p: Parse, chunks: seq<seq<byte>>): Parse
    decreases |chunks|
  {
    if chunks == [] then p else FeedAll(s, Feed(s, p, chunks[0]), chunks[1..])
  }

  /** More bytes continue where the parser stopped, or change nothing after
      an error. */
  lemma {:induction false} ParseAppend(s: Session, data: seq<byte>, more: seq<byte>)
    ensures ParseStream(s, data + more) == Feed(s, ParseStream(s, data), more)
    decreases |data|
  {
    var all := data + more;
    if data == [] {
      assert all == more && [] + more == more;
    } else if |data| >= HEADER_LEN {
      assert all[2..6] == data[2..6];
      var length := Declared(data);
      if HEADER_LEN <= length <= |data| && !(s.maxSize.Some? && length > s.maxSize.value) {
        assert all[..length] == data[..length];
        assert all[length..] == data[length..] + more;
        ParseAppend(s, data[length..], more);
        if s.decodable(data[..length]) {
          PrependPrepend([data[..length]], ParseStream(s, data[length..]), s, more);
        }
      }
    }
  }

  lemma PrependPrepend(frames: seq<seq<byte>>, p: Parse, s: Session, more: seq<byte>)
    ensures Prepend(frames, Feed(s, p, more)) == Feed(s, Prepend(frames, p), more)
  {
    if p.Parsed? {
      var q := ParseStream(s, p.rest + more);
      assert frames + (p.frames + q.frames) == frames + p.frames + q.frames;
    }
  }

  lemma PrependOne(frames: seq<seq<byte>>, frame: seq<byte>, p: Parse)
    ensures Prepend(frames + [frame], p) == Prepend(frames, Prepend([frame], p))
  {
    assert frames + [frame] + p.frames == frames + ([frame] + p.frames);
  }

  lemma {:induction false} FeedAllIsParse(s: Session, before: seq<byte>, chunks: seq<seq<byte>>)
    ensures FeedAll(s, ParseStream(s, before), chunks) == ParseStream(s, before + Flatten(chunks))
    decreases |chunks|
  {
    if chunks == [] {
      assert before + [] == before;
    } else {
      ParseAppend(s, before, chunks[0]);
      FeedAllIsParse(s, before + chunks[0], chunks[1..]);
      Associate(before, chunks[0], Flatten(chunks[1..]));
    }
  }

  /** Chunking invariance: however a stream is cut, the same frames are
      delivered in the same order, and the same tail or error is left, as
      when the stream arrives whole. */
  lemma ChunkingInvariance(s: Session, chunks: seq<seq<byte>>)
    ensures FeedAll(s, Parsed([], [], 0), chunks) == ParseStream(s, Flatten(chunks))
  {
    FeedAllIsParse(s, [], chunks);
    assert [] + Flatten(chunks) == Flatten(chunks);
  }

  /** Two cuts of one stream cannot be told apart. */
  lemma CutsAgree(s: Session, a: seq<seq<byte>>, b: seq<seq<byte>>)
    requires Flatten(a) == Flatten(b)
    ensures FeedAll(s, Parsed([], [], 0), a) == FeedAll(s, Parsed([], [], 0), b)
  {
    ChunkingInvariance(s, a);
    ChunkingInvariance(s, b);
  }

  // ------------------------------------------------------ the frame buffer

  ghost predicate IsFrame(s: Session, frame: seq<byte>) {
    && |frame| >= HEADER_LEN
    && Declared(frame) == |frame|
    && (s.maxSize.Some? ==> |frame| <= s.maxSize.value)
    && s.decodable(frame)
  }

  ghost predicate AllFrames(s: Session, frames: seq<seq<byte>>) {
    forall i | 0 <= i < |frames| :: IsFrame(s, frames[i])
  }

  /** What a session holds between calls: nothing, or a proper part of a
      message of acceptable size. */
  ghost predicate Retained(s: Session, rest: seq<byte>, expected: nat) {
    && (expected == 0 <==> rest == [])
    && (rest != [] ==> |rest| < expected == if |rest| < HEADER_LEN then HEADER_LEN else Declared(rest))
    && (s.maxSize.Some? && s.maxSize.value >= HEADER_LEN ==> expected <= s.maxSize.value)
  }

  lemma FlattenCons(frame: seq<byte>, frames: seq<seq<byte>>)
    ensures Flatten([frame] + frames) == frame + Flatten(frames)
  {
    assert ([frame] + frames)[1..] == frames;
  }

  lemma {:induction false} FramesComplete(s: Session, data: seq<byte>)
    ensures AllFrames(s, ParseStream(s, data).frames)
    decreases |data|
  {
    var p := ParseStream(s, data);
    if |data| >= HEADER_LEN && p.frames != [] {
      var length := Declared(data);
      assert data[..length][2..6] == data[2..6];
      FramesComplete(s, data[length..]);
      assert IsFrame(s, data[..length]);
      assert p.frames == [data[..length]] + ParseStream(s, data[length..]).frames;
    }
  }

  /** Frame buffer invariant: the frames delivered and the bytes retained
      are exactly the bytes received, every frame is complete and of its
      declared size, and the tail is short of what it waits for. */
  lemma {:induction false} FrameBuffer(s: Session, data: seq<byte>)
    ensures var p := ParseStream(s, data);
            && AllFrames(s, p.frames)
            && (p.Parsed? ==> Flatten(p.frames) + p.rest == data && Retained(s, p.rest, p.expected))
            && (p.Broken? ==> Flatten(p.frames) <= data)
    decreases |data|
  {
    FramesComplete(s, data);
    BytesAccountedFor(s, data);
    TailIsShort(s, data);
  }

  /** The frames, and the rest if there was no error, are the bytes received. */
  ghost predicate AccountsFor(p: Parse, data: seq<byte>) {
    && (p.Parsed? ==> Flatten(p.frames) + p.rest == data)
    && (p.Broken? ==> Flatten(p.frames) <= data)
  }

  lemma {:induction false} BytesAccountedFor(s: Session, data: seq<byte>)
    ensures AccountsFor(ParseStream(s, data), data)
    decreases |data|
  {
    var p := ParseStream(s, data);
    if |data| < HEADER_LEN || p.frames == [] {
      assert p.frames == [] && Flatten([]) == [];
      assert p.Parsed? ==> p.rest == data && [] + data == data;
    } else {
      var frame, tail := data[..Declared(data)], data[Declared(data)..];
      assert data == frame + tail;
      BytesAccountedFor(s, tail);
      FramePlusTail(frame, tail, ParseStream(s, tail));
    }
  }

  lemma FramePlusTail(frame: seq<byte>, tail: seq<byte>, q: Parse)
    requires AccountsFor(q, tail)
    ensures AccountsFor(Prepend([frame], q), frame + tail)
  {
    FlattenCons(frame, q.frames);
    if q.Parsed? {
      Associate(frame, Flatten(q.frames), q.rest);
    }
  }

  lemma {:induction false} TailIsShort(s: Session, data: seq<byte>)
    ensures var p := ParseStream(s, data); p.Parsed? ==> Retained(s, p.rest, p.expected)
    decreases |data|
  {
    if |data| >= HEADER_LEN && ParseStream(s, data).frames != [] {
      TailIsShort(s, data[Declared(data)..]);
    }
  }

  /** The declared length is the four bytes after the first two. */
  lemma DeclaredBytes(data: seq<byte>)
    requires |data| >= HEADER_LEN
    ensures Declared(data) == Long(data[2], data[3], data[4], data[5])
  {
    FourBytes(data[2], data[3], data[4], data[5]);
    assert data[2..6] == [data[2], data[3], data[4], data[5]];
  }

  /** An error is about the first message that is not delivered: it declares
      less than a header, more than the session allows, or cannot be decoded. */
  ghost predicate IsDue(s: Session, error: FrameError, tail: seq<byte>) {
    && |tail| >= HEADER_LEN
    && var length := Declared(tail);
    match error
    case TooShort(l) => l == length < HEADER_LEN
    case TooLong(l) => HEADER_LEN <= length == l && s.maxSize.Some? && s.maxSize.value < l
    case Undecodable(frame) =>
      && HEADER_LEN <= length <= |tail| && (s.maxSize.Some? ==> length <= s.maxSize.value)
      && frame == tail[..length] && !s.decodable(frame)
  }

  lemma {:induction false} ErrorIsDue(s: Session, data: seq<byte>)
    ensures var p := ParseStream(s, data);
            p.Broken? ==> |Flatten(p.frames)| <= |data| && IsDue(s, p.error, data[|Flatten(p.frames)|..])
    decreases |data|
  {
    var p := ParseStream(s, data);
    if data == [] {
    } else if p.Broken? {
      ParseStep(s, data);
      if p.frames == [] {
        assert Flatten([]) == [] && data[0..] == data;
      } else {
        var frame, tail := data[..Declared(data)], data[Declared(data)..];
        var q := ParseStream(s, tail);
        ErrorIsDue(s, tail);
        FlattenCons(frame, q.frames);
        assert p.frames == [frame] + q.frames;
        assert data[|frame| + |Flatten(q.frames)|..] == tail[|Flatten(q.frames)|..];
      }
    }
  }

  /** And such a message breaks the session, after what came before it. */
  lemma BadMessageBreaks(s: Session, messages: seq<seq<byte>>, error: FrameError, tail: seq<byte>)
    requires AllFrames(s, messages) && IsDue(s, error, tail)
    ensures ParseStream(s, Flatten(messages) + tail) == Broken(messages, error)
  {
    StreamDelivery(s, messages);
    ParseAppend(s, Flatten(messages), tail);
    ParseStep(s, tail);
    assert [] + tail == tail && messages + [] == messages;
  }

  /** Every stream of acceptable messages is delivered message by message,
      however it is cut, and nothing is left over. */
  lemma {:induction false} StreamDelivery(s: Session, messages: seq<seq<byte>>)
    requires AllFrames(s, messages)
    ensures ParseStream(s, Flatten(messages)) == Parsed(messages, [], 0)
    ensures forall chunks | Flatten(chunks) == Flatten(messages) ::
              FeedAll(s, Parsed([], [], 0), chunks) == Parsed(messages, [], 0)
    decreases |messages|
  {
    if messages == [] {
    } else {
      var frame, tail := messages[0], Flatten(messages[1..]);
      var data := Flatten(messages);
      StreamDelivery(s, messages[1..]);
      assert data[2..6] == frame[2..6];
      assert data[..|frame|] == frame && data[|frame|..] == tail;
      assert [frame] + messages[1..] == messages;
    }
    forall chunks | Flatten(chunks) == Flatten(messages)
      ensures FeedAll(s, Parsed([], [], 0), chunks) == Parsed(messages, [], 0)
    {
      ChunkingInvariance(s, chunks);
    }
  }

  /** Every message that the client's own encoder frames is a frame for the
      reassembler, if the session accepts its size and content. */
  lemma EncodedMessageIsFrame(s: Session, msgType: nat, version: nat, msgId: nat, vendorId: nat, subtype: nat,
                              body: seq<byte>)
    requires Header.MsgHeaderEncode(msgType, version, |body|, msgId, vendorId, subtype).Ok?
    ensures var m := Header.MsgHeaderEncode(msgType, version, |body|, msgId, vendorId, subtype).value + body;
            (s.maxSize.Some? ==> |m| <= s.maxSize.value) && s.decodable(m) ==> IsFrame(s, m)
  {
    Header.MsgHeaderRoundTrip(msgType, version, msgId, vendorId, subtype, body);
  }

  // ---------------------------------------------------------- the reader

  /** A retained tail is what the one-shot parser leaves over for it. */
  ghost predicate WaitsFor(s: Session, rest: seq<byte>, expected: nat) {
    ParseStream(s, rest) == Parsed([], rest, expected)
  }

  lemma {:induction false} RestWaits(s: Session, data: seq<byte>)
    ensures var p := ParseStream(s, data); p.Parsed? ==> WaitsFor(s, p.rest, p.expected)
    decreases |data|
  {
    var p := ParseStream(s, data);
    if |data| >= HEADER_LEN && p.frames != [] {
      RestWaits(s, data[Declared(data)..]);
    }
  }

  /** While the tail is still too short, more bytes only make it longer. */
  lemma StillWaits(s: Session, rest: seq<byte>, expected: nat, more: seq<byte>)
    requires WaitsFor(s, rest, expected) && expected > 0 && |rest| + |more| < expected
    ensures WaitsFor(s, rest + more, expected)
  {
    var all := rest + more;
    if |rest| >= HEADER_LEN {
      assert all[2..6] == rest[2..6];
    }
  }

  lemma HeaderSlice(data: seq<byte>, start: nat)
    requires start + HEADER_LEN <= |data|
    ensures data[start..start + HEADER_LEN][2..6] == data[start..][2..6]
  {
    var a, b := data[start..start + HEADER_LEN], data[start..];
    assert forall i | 2 <= i < 6 :: a[i] == data[start + i] && b[i] == data[start + i];
  }

  lemma FrameSlice(data: seq<byte>, start: nat, length: nat)
    requires start + length <= |data|
    ensures data[start..start + length] == data[start..][..length]
    ensures data[start + length..] == data[start..][length..]
  {
  }

  /** What the one-shot parser does with the front of a stream. */
  lemma ParseStep(s: Session, data: seq<byte>)
    requires data != []
    ensures |data| < HEADER_LEN ==> ParseStream(s, data) == Parsed([], data, HEADER_LEN)
    ensures |data| >= HEADER_LEN ==>
              var length := Declared(data);
              ParseStream(s, data) ==
              if length < HEADER_LEN then Broken([], TooShort(length))
              else if s.maxSize.Some? && length > s.maxSize.value then Broken([], TooLong(length))
              else if |data| < length then Parsed([], data, length)
              else if !s.decodable(data[..length]) then Broken([], Undecodable(data[..length]))
              else Prepend([data[..length]], ParseStream(s, data[length..]))
  {
  }

  class FrameReader {
    var partialData: seq<byte>
    var expectedBytes: nat
    const session: Session
    ghost var delivered: seq<seq<byte>>

    ghost predicate Valid()
      reads this
    {
      WaitsFor(session, partialData, expectedBytes)
    }

    /** What the session has done so far, as a parse result. */
    ghost function View(): Parse
      reads this
    {
      Parsed(delivered, partialData, expectedBytes)
    }

    constructor (session: Session)
      ensures Valid() && View() == Parsed([], [], 0) && this.session == session
    {
      partialData, expectedBytes := [], 0;
      this.session := session;
      delivered := [];
    }

    /** raw_data_received. On an error the session is over: the caller closes
        the connection, and only what was delivered matters. */
    method RawDataReceived(chunk: seq<byte>) returns (result: Result<(), FrameError>)
      requires Valid()
      modifies this
      ensures var p := Feed(session, old(View()), chunk);
              && delivered == p.frames
              && (p.Parsed? ==> result == Ok(()) && View() == p && Valid())
              && (p.Broken? ==> result == Err(p.error))
    {
      var data := chunk;
      if expectedBytes > 0 {
        partialData := partialData + chunk;
        data := partialData;
        if |data| < expectedBytes {
          StillWaits(session, old(partialData), expectedBytes, chunk);
          assert delivered + [] == delivered;
          return Ok(());
        }
      } else {
        assert partialData + chunk == chunk;
      }
      RestWaits(session, data);
      result := DispatchFrames(data);
    }

    /** The loop of raw_data_received over the buffered bytes. */
    method DispatchFrames(data: seq<byte>) returns (result: Result<(), FrameError>)
      requires data == [] ==> expectedBytes == 0
      modifies this
      ensures var p := Prepend(old(delivered), ParseStream(session, data));
              && delivered == p.frames
              && (p.Parsed? ==> result == Ok(()) && View() == p)
              && (p.Broken? ==> result == Err(p.error))
    {
      ghost var whole := Prepend(delivered, ParseStream(session, data));
      ghost var tail := data;
      assert data[0..] == data;
      var startPos, dataLen := 0, |data|;
      while dataLen > 0
        invariant 0 <= startPos && 0 <= dataLen && startPos + dataLen == |data| && tail == data[startPos..]
        invariant Prepend(delivered, ParseStream(session, tail)) == whole
        invariant dataLen == 0 ==> expectedBytes == 0
        decreases dataLen
      {
        ghost var before := delivered;
        assert before + [] == before;
        var length :- DispatchOne(data, startPos, dataLen);
        if length == 0 {
          return Ok(());
        }
        PrependOne(before, tail[..length], ParseStream(session, tail[length..]));
        FrameSlice(data, startPos, length);
        tail := tail[length..];
        startPos := startPos + length;
        dataLen := dataLen - length;
      }
      assert tail == [] && delivered + [] == delivered;
      partialData := [];
      result := Ok(());
    }

    /** One round of the loop: a message is delivered and its size returned,
        or what is there is kept for later and 0 returned. */
    method DispatchOne(data: seq<byte>, startPos: nat, dataLen: nat) returns (r: Result<nat, FrameError>)
      requires dataLen > 0 && startPos + dataLen == |data|
      modifies this
      ensures var tail := data[startPos..];
              && (r.Err? ==> ParseStream(session, tail) == Broken([], r.error) && delivered == old(delivered))
              && (r == Ok(0) ==>
                    ParseStream(session, tail) == Parsed([], partialData, expectedBytes) && delivered == old(delivered))
              && (r.Ok? && r.value > 0 ==>
                    && r.value <= dataLen && expectedBytes == 0 && delivered == old(delivered) + [tail[..r.value]]
                    && ParseStream(session, tail) == Prepend([tail[..r.value]], ParseStream(session, tail[r.value..])))
    {
      ParseStep(session, data[startPos..]);
      if dataLen < HEADER_LEN {
        partialData, expectedBytes := data[startPos..], HEADER_LEN;
        return Ok(0);
      }
      var length :- FrameLength(data, startPos);
      if dataLen < length {
        partialData, expectedBytes := data[startPos..], length;
        return Ok(0);
      }
      expectedBytes := 0;
      var frame := data[startPos..startPos + length];
      FrameSlice(data, startPos, length);
      if !session.decodable(frame) {
        return Err(Undecodable(frame));
      }
      delivered := delivered + [frame];
      r := Ok(length);
    }

    /** The size that a header declares, if it is an acceptable one. */
    method FrameLength(data: seq<byte>, startPos: nat) returns (r: Result<nat, FrameError>)
      requires startPos + HEADER_LEN <= |data|
      ensures var length := Declared(data[startPos..]);
              r == if length < HEADER_LEN then Err(TooShort(length))
                   else if session.maxSize.Some? && length > session.maxSize.value then Err(TooLong(length))
                   else Ok(length)
    {
      var length := Unpack(data[startPos..startPos + HEADER_LEN][2..6]);
      HeaderSlice(data, startPos);
      if length < HEADER_LEN {
        return Err(TooShort(length));
      }
      if session.maxSize.Some? && length > session.maxSize.value {
        return Err(TooLong(length));
      }
      r := Ok(length);
    }

    /** The receive loop over the chunks a socket returns, up to the first error. */
    method ReceiveAll(chunks: seq<seq<byte>>) returns (result: Result<(), FrameError>)
      requires Valid() && View() == Parsed([], [], 0)
      modifies this
      ensures var p := ParseStream(session, Flatten(chunks));
              && delivered == p.frames
              && (p.Parsed? ==> result == Ok(()) && View() == p)
              && (p.Broken? ==> result == Err(p.error))
    {
      ChunkingInvariance(session, chunks);
      result := Ok(());
      for i := 0 to |chunks|
        invariant Valid() && result == Ok(())
        invariant FeedAll(session, View(), chunks[i..]) == ParseStream(session, Flatten(chunks))
      {
        ghost var before := View();
        assert chunks[i..][0] == chunks[i] && chunks[i..][1..] == chunks[i + 1..];
        result := RawDataReceived(chunks[i]);
        if result.Err? {
          BrokenStays(session, Feed(session, before, chunks[i]), chunks[i + 1..]);
          return;
        }
      }
    }
  }

  lemma {:induction false} BrokenStays(s: Session, p: Parse, chunks: seq<seq<byte>>)
    requires p.Broken?
    ensures FeedAll(s, p, chunks) == p
    decreases |chunks|
  {
    if chunks == [] {
    } else {
      BrokenStays(s, p, chunks[1..]);
    }
  }
}
