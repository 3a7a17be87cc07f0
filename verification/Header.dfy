/**
 Message and parameter headers (`sllurp/llrp_decoder.py`), in the layout of
 sections 17.1 and 17.2.1 of GS1 LLRP 1.1.
 */
module Header {
  import opened Prelude
  import opened Bytes

  datatype HeaderError = DoesNotFit | TruncatedHeader | ImpossibleLength(length: nat)

  const TYPE_CUSTOM := 1023
  const MSG_HEADER_LEN := 10
  const CUSTOM_MSG_HEADER_LEN := 15

  // ---------------------------------------------------------------- messages

  datatype MsgHeader = MsgHeader(
    msgType: nat, vendorId: nat, subtype: nat, version: nat, headerLen: nat, length: nat, msgId: nat)

  /** The header of a message whose body has `length` bytes. */
  function MsgHeaderEncode(msgType: nat, version: nat, length: nat, msgId: nat, vendorId: nat, subtype: nat)
    : Result<seq<byte>, HeaderError>
  {
    var word := FirstWord(msgType, version);
    if msgType % 1024 == TYPE_CUSTOM then
      if CUSTOM_MSG_HEADER_LEN + length < Pow256(4) && msgId < Pow256(4) && vendorId < Pow256(4) && subtype < 256
      then Ok(Pack(word, 2) + Pack(CUSTOM_MSG_HEADER_LEN + length, 4) + Pack(msgId, 4)
              + Pack(vendorId, 4) + Pack(subtype, 1))
      else Err(DoesNotFit)
    else if MSG_HEADER_LEN + length < Pow256(4) && msgId < Pow256(4)
    then Ok(Pack(word, 2) + Pack(MSG_HEADER_LEN + length, 4) + Pack(msgId, 4))
    else Err(DoesNotFit)
  }

  function MsgHeaderDecode(data: seq<byte>): Result<MsgHeader, HeaderError> {
    if |data| < MSG_HEADER_LEN then Err(TruncatedHeader)
    else
      var word, length, msgId := Unpack(data[..2]), Unpack(data[2..6]), Unpack(data[6..10]);
      var msgType, version := word % 1024, (word / 1024) % 8;
      if msgType == TYPE_CUSTOM then
        if |data| < CUSTOM_MSG_HEADER_LEN then Err(TruncatedHeader)
        else if length < CUSTOM_MSG_HEADER_LEN then Err(ImpossibleLength(length))
        else Ok(MsgHeader(msgType, Unpack(data[10..14]), Unpack(data[14..15]), version,
                          CUSTOM_MSG_HEADER_LEN, length, msgId))
      else if length < MSG_HEADER_LEN then Err(ImpossibleLength(length))
      else Ok(MsgHeader(msgType, 0, 0, version, MSG_HEADER_LEN, length, msgId))
  }

  function FirstWord(msgType: nat, version: nat): nat {
    (version % 8) * 1024 + msgType % 1024
  }

  lemma FirstWordSplits(msgType: nat, version: nat)
    ensures FirstWord(msgType, version) < 65536
    ensures FirstWord(msgType, version) % 1024 == msgType % 1024
    ensures (FirstWord(msgType, version) / 1024) % 8 == version % 8
  {
  }

  lemma CommonFields(word: nat, length: nat, msgId: nat, rest: seq<byte>)
    requires word < 65536 && length < Pow256(4) && msgId < Pow256(4)
    ensures var data := Pack(word, 2) + Pack(length, 4) + Pack(msgId, 4) + rest;
            Unpack(data[..2]) == word && Unpack(data[2..6]) == length && Unpack(data[6..10]) == msgId
            && data[10..] == rest
  {
    Widths();
    UnpackPack(word, 2);
    UnpackPack(length, 4);
    UnpackPack(msgId, 4);
    var data := Pack(word, 2) + Pack(length, 4) + Pack(msgId, 4) + rest;
    assert data[..2] == Pack(word, 2);
    assert data[2..6] == Pack(length, 4);
    assert data[6..10] == Pack(msgId, 4);
  }

  lemma VendorFields(vendorId: nat, subtype: nat, body: seq<byte>)
    requires vendorId < Pow256(4) && subtype < 256
    ensures var rest := Pack(vendorId, 4) + Pack(subtype, 1) + body;
            Unpack(rest[0..4]) == vendorId && Unpack(rest[4..5]) == subtype
  {
    Widths();
    UnpackPack(vendorId, 4);
    UnpackPack(subtype, 1);
    var rest := Pack(vendorId, 4) + Pack(subtype, 1) + body;
    assert rest[0..4] == Pack(vendorId, 4);
    assert rest[4..5] == Pack(subtype, 1);
  }

  lemma StandardHeader(word: nat, msgId: nat, body: seq<byte>)
    requires word < 65536 && word % 1024 != TYPE_CUSTOM && MSG_HEADER_LEN + |body| < Pow256(4) && msgId < Pow256(4)
    ensures MsgHeaderDecode(Pack(word, 2) + Pack(MSG_HEADER_LEN + |body|, 4) + Pack(msgId, 4) + body) ==
            Ok(MsgHeader(word % 1024, 0, 0, (word / 1024) % 8, MSG_HEADER_LEN, MSG_HEADER_LEN + |body|, msgId))
  {
    CommonFields(word, MSG_HEADER_LEN + |body|, msgId, body);
  }

  lemma CustomHeader(word: nat, length: nat, msgId: nat, rest: seq<byte>)
    requires word < 65536 && word % 1024 == TYPE_CUSTOM && CUSTOM_MSG_HEADER_LEN <= length < Pow256(4)
    requires msgId < Pow256(4) && |rest| >= 5
    ensures MsgHeaderDecode(Pack(word, 2) + Pack(length, 4) + Pack(msgId, 4) + rest) ==
            Ok(MsgHeader(TYPE_CUSTOM, Unpack(rest[0..4]), Unpack(rest[4..5]), (word / 1024) % 8,
                         CUSTOM_MSG_HEADER_LEN, length, msgId))
  {
    CommonFields(word, length, msgId, rest);
    var data := Pack(word, 2) + Pack(length, 4) + Pack(msgId, 4) + rest;
    assert data[10..14] == rest[0..4] && data[14..15] == rest[4..5];
  }

  /** The bytes of a header: version and type share the first two, then come
      the total length and the message ID, four bytes each; a custom message
      adds its vendor and subtype. */
  lemma MsgHeaderBytes(msgType: nat, version: nat, length: nat, msgId: nat, vendorId: nat, subtype: nat)
    requires MsgHeaderEncode(msgType, version, length, msgId, vendorId, subtype).Ok?
    ensures var header := MsgHeaderEncode(msgType, version, length, msgId, vendorId, subtype).value;
            var custom := msgType % 1024 == TYPE_CUSTOM;
            && |header| == (if custom then 15 else 10)
            && header[0] == 4 * (version % 8) + msgType % 1024 / 256 && header[1] == msgType % 256
            && Unpack(header[2..6]) == |header| + length && Unpack(header[6..10]) == msgId
            && (custom ==> Unpack(header[10..14]) == vendorId && header[14] == subtype)
  {
    var word := FirstWord(msgType, version);
    FirstWordSplits(msgType, version);
    FirstWordBytes(msgType, version);
    if msgType % 1024 == TYPE_CUSTOM {
      CustomBytes(word, CUSTOM_MSG_HEADER_LEN + length, msgId, vendorId, subtype);
    } else {
      FrontBytes(word, MSG_HEADER_LEN + length, msgId, []);
      var header := Pack(word, 2) + Pack(MSG_HEADER_LEN + length, 4) + Pack(msgId, 4);
      assert header + [] == header;
    }
  }

  lemma FirstWordBytes(msgType: nat, version: nat)
    ensures FirstWord(msgType, version) / 256 == 4 * (version % 8) + msgType % 1024 / 256
    ensures FirstWord(msgType, version) % 256 == msgType % 256
  {
    var v, t, k := version % 8, msgType % 1024, msgType / 1024;
    Quotient(v * 1024 + t, 4 * v + t / 256, t % 256);
    Quotient(msgType, 4 * k + t / 256, t % 256);
  }

  lemma Quotient(n: nat, q: nat, r: nat)
    requires n == 256 * q + r && r < 256
    ensures n / 256 == q && n % 256 == r
  {
  }

  lemma FrontBytes(word: nat, length: nat, msgId: nat, rest: seq<byte>)
    requires word < 65536 && length < Pow256(4) && msgId < Pow256(4)
    ensures var data := Pack(word, 2) + Pack(length, 4) + Pack(msgId, 4) + rest;
            && data[0] == word / 256 && data[1] == word % 256
            && Unpack(data[2..6]) == length && Unpack(data[6..10]) == msgId && data[10..] == rest
  {
    CommonFields(word, length, msgId, rest);
    TwoBytes(word / 256, word % 256);
    assert Short(word / 256, word % 256) == word;
    var data := Pack(word, 2) + Pack(length, 4) + Pack(msgId, 4) + rest;
    assert data[..2] == Pack(word, 2);
  }

  lemma CustomBytes(word: nat, length: nat, msgId: nat, vendorId: nat, subtype: nat)
    requires word < 65536 && length < Pow256(4) && msgId < Pow256(4) && vendorId < Pow256(4) && subtype < 256
    ensures var data := Pack(word, 2) + Pack(length, 4) + Pack(msgId, 4) + Pack(vendorId, 4) + Pack(subtype, 1);
            && data[0] == word / 256 && data[1] == word % 256
            && Unpack(data[2..6]) == length && Unpack(data[6..10]) == msgId
            && Unpack(data[10..14]) == vendorId && data[14] == subtype
  {
    var front := Pack(word, 2) + Pack(length, 4) + Pack(msgId, 4);
    var rest := Pack(vendorId, 4) + Pack(subtype, 1);
    Associate(front, Pack(vendorId, 4), Pack(subtype, 1));
    FrontBytes(word, length, msgId, rest);
    UnpackPack(vendorId, 4);
    OneByte(subtype);
    VendorSlices(front, Pack(vendorId, 4), subtype);
  }

  lemma VendorSlices(front: seq<byte>, vendor: seq<byte>, subtype: byte)
    requires |front| == 10 && |vendor| == 4
    ensures (front + (vendor + [subtype]))[10..14] == vendor && (front + (vendor + [subtype]))[14] == subtype
  {
  }

  lemma CustomHeaderRoundTrip(word: nat, msgId: nat, vendorId: nat, subtype: nat, body: seq<byte>)
    requires word < 65536 && word % 1024 == TYPE_CUSTOM && CUSTOM_MSG_HEADER_LEN + |body| < Pow256(4)
    requires msgId < Pow256(4) && vendorId < Pow256(4) && subtype < 256
    ensures var length := CUSTOM_MSG_HEADER_LEN + |body|;
            var header := Pack(word, 2) + Pack(length, 4) + Pack(msgId, 4) + Pack(vendorId, 4) + Pack(subtype, 1);
            MsgHeaderDecode(header + body) ==
            Ok(MsgHeader(TYPE_CUSTOM, vendorId, subtype, (word / 1024) % 8, CUSTOM_MSG_HEADER_LEN, length, msgId))
  {
    var length := CUSTOM_MSG_HEADER_LEN + |body|;
    VendorFields(vendorId, subtype, body);
    CustomHeader(word, length, msgId, Pack(vendorId, 4) + Pack(subtype, 1) + body);
    Regroup(Pack(word, 2) + Pack(length, 4) + Pack(msgId, 4), Pack(vendorId, 4), Pack(subtype, 1), body);
  }

  /** An encoded header in front of its body decodes to the fields it was
      made from, with the total length of the message. */
  lemma MsgHeaderRoundTrip(msgType: nat, version: nat, msgId: nat, vendorId: nat, subtype: nat, body: seq<byte>)
    requires MsgHeaderEncode(msgType, version, |body|, msgId, vendorId, subtype).Ok?
    ensures var header := MsgHeaderEncode(msgType, version, |body|, msgId, vendorId, subtype).value;
            var custom := msgType % 1024 == TYPE_CUSTOM;
            MsgHeaderDecode(header + body) ==
            Ok(MsgHeader(msgType % 1024, if custom then vendorId else 0, if custom then subtype else 0,
                         version % 8, |header|, |header + body|, msgId))
  {
    var word := FirstWord(msgType, version);
    FirstWordSplits(msgType, version);
    if msgType % 1024 == TYPE_CUSTOM {
      CustomHeaderRoundTrip(word, msgId, vendorId, subtype, body);
    } else {
      StandardHeader(word, msgId, body);
    }
  }

  // -------------------------------------------------------------- parameters

  datatype ParamHeader = ParamHeader(parType: nat, vendorId: nat, subtype: nat, headerLen: nat, length: nat)

  const TLV_HEADER_LEN := 4
  const CUSTOM_TLV_HEADER_LEN := 12
  const TV_HEADER_LEN := 1

  /** TVE_PARAM_FORMATS: the body size of each TV parameter, 0 for other types. */
  function TvBodySize(parType: nat): nat {
    match parType
    case 2 | 3 | 4 | 5 => 8
    case 6 => 1
    case 9 | 16 | 18 => 4
    case 13 => 12
    case _ => if 1 <= parType <= 20 then 2 else 0
  }

  /** `None` for a header that is not complete. */
  function TlvHeaderDecode(data: seq<byte>): Result<Option<ParamHeader>, HeaderError> {
    if |data| < TLV_HEADER_LEN then Ok(None)
    else
      var parType, length := Unpack(data[..2]) % 1024, Unpack(data[2..4]);
      if length < TLV_HEADER_LEN then Err(ImpossibleLength(length))
      else if parType != TYPE_CUSTOM then Ok(Some(ParamHeader(parType, 0, 0, TLV_HEADER_LEN, length)))
      else if |data| < CUSTOM_TLV_HEADER_LEN then Ok(None)
      else if length < CUSTOM_TLV_HEADER_LEN then Err(ImpossibleLength(length))
      else Ok(Some(ParamHeader(parType, Unpack(data[4..8]), Unpack(data[8..12]), CUSTOM_TLV_HEADER_LEN, length)))
  }

  /** `None` for input that is not a known TV parameter. */
  function TvHeaderDecode(data: seq<byte>): Option<ParamHeader> {
    if data == [] || data[0] < 128 || TvBodySize(data[0] - 128) == 0 then None
    else Some(ParamHeader(data[0] - 128, 0, 0, TV_HEADER_LEN, TV_HEADER_LEN + TvBodySize(data[0] - 128)))
  }

  function ParamHeaderDecode(data: seq<byte>): Result<Option<ParamHeader>, HeaderError> {
    if data == [] then Ok(None)
    else
      var tv := TvHeaderDecode(data);
      if tv.Some? then Ok(tv) else TlvHeaderDecode(data)
  }

  /** A complete header says that the parameter is at least as long as it. */
  lemma ParamHeaderBounds(data: seq<byte>)
    ensures var r := ParamHeaderDecode(data);
            r.Ok? && r.value.Some? ==>
              0 < r.value.value.headerLen <= r.value.value.length && r.value.value.headerLen <= |data|
  {
  }

  /** A complete header does not depend on what follows it. */
  lemma ParamHeaderStable(data: seq<byte>, more: seq<byte>)
    requires ParamHeaderDecode(data).Ok? && ParamHeaderDecode(data).value.Some?
    ensures ParamHeaderDecode(data + more) == ParamHeaderDecode(data)
  {
    var all := data + more;
    if TvHeaderDecode(data).None? {
      assert all[..2] == data[..2] && all[2..4] == data[2..4];
      if |data| >= CUSTOM_TLV_HEADER_LEN {
        assert all[4..8] == data[4..8] && all[8..12] == data[8..12];
      }
    }
  }

  /** A header is recognised from its own bytes. */
  lemma ParamHeaderPrefix(data: seq<byte>)
    requires ParamHeaderDecode(data).Ok? && ParamHeaderDecode(data).value.Some?
    ensures var h := ParamHeaderDecode(data).value.value;
            h.headerLen <= |data| && ParamHeaderDecode(data[..h.headerLen]) == ParamHeaderDecode(data)
  {
    ParamHeaderBounds(data);
    var n := ParamHeaderDecode(data).value.value.headerLen;
    var front := data[..n];
    assert front[0] == data[0];
    if n >= 4 {
      assert front[..2] == data[..2] && front[2..4] == data[2..4];
    }
    if n >= 12 {
      assert front[4..8] == data[4..8] && front[8..12] == data[8..12];
    }
  }
}
