/**
 The registry-driven codec of TLV, TV and custom parameters
 (`sllurp/llrp_proto.py` with the encoder of `sllurp/_protocol_fixes.py`), per
 section 17.2.1 of GS1 LLRP 1.1. A parameter is its fixed fields followed by
 child parameters in the registry's order.
 */
module Codec {
  import opened Prelude
  import opened Bytes
  import opened Header

  type Name = string

  // ---------------------------------------------------------------- registry

  datatype Ident = Ident(parType: nat, vendorId: nat, subtype: nat)

  /** The fixed part of a body: packed integers, the counted antenna list of
      AISpec, or the flag word of TagReportContentSelector. */
  datatype Prefix = Fixed(widths: seq<nat>) | AntennaList | Flags(count: nat)

  datatype FieldSpec = FieldSpec(name: Name, multiple: bool)

  /** One entry of Param_struct. `auto` bodies carry child parameters after
      the fixed part; `repeated` is `n_fields`. */
  datatype Info = Info(
    ident: Ident,
    tv: bool,
    prefix: Prefix,
    auto: bool,
    fields: seq<FieldSpec>,
    repeated: set<Name>,
    hasEncoder: bool,
    hasDecoder: bool)

  /** Param_struct and Param_Type2Name. */
  datatype Registry = Registry(params: map<Name, Info>, names: map<Ident, Name>)

  // -------------------------------------------------------------- parameters

  /** A parameter's dictionary: the values of its fixed fields, its children,
      and the parameters below it that could not be decoded. */
  datatype Par = Par(vals: seq<nat>, kids: map<Name, Kid>, errors: seq<Unknown>)

  datatype Kid = One(par: Par) | Many(pars: seq<Par>)

  datatype Unknown = Unknown(name: Name, ident: Ident, data: seq<byte>)

  datatype CodecError = StructError | MissingField | BadHeader | Truncated | InvalidStream

  type Encoded = Result<seq<byte>, CodecError>

  // ----------------------------------------------------------- fixed fields

  function Sum(widths: seq<nat>): nat {
    if widths == [] then 0 else widths[0] + Sum(widths[1..])
  }

  function PackAll(widths: seq<nat>, vals: seq<nat>): Encoded {
    if |widths| != |vals| then Err(MissingField)
    else if widths == [] then Ok([])
    else if vals[0] >= Pow256(widths[0]) then Err(StructError)
    else
      var rest :- PackAll(widths[1..], vals[1..]);
      Ok(Pack(vals[0], widths[0]) + rest)
  }

  function UnpackAll(widths: seq<nat>, data: seq<byte>): seq<nat>
    requires |data| == Sum(widths)
  {
    if widths == [] then [] else [Unpack(data[..widths[0]])] + UnpackAll(widths[1..], data[widths[0]..])
  }

  lemma {:induction false} PackAllRoundTrip(widths: seq<nat>, vals: seq<nat>)
    requires PackAll(widths, vals).Ok?
    ensures |PackAll(widths, vals).value| == Sum(widths)
    ensures UnpackAll(widths, PackAll(widths, vals).value) == vals
  {
    if widths == [] {
    } else {
      PackAllRoundTrip(widths[1..], vals[1..]);
      var data, rest := PackAll(widths, vals).value, PackAll(widths[1..], vals[1..]).value;
      UnpackPack(vals[0], widths[0]);
      assert data[..widths[0]] == Pack(vals[0], widths[0]) && data[widths[0]..] == rest;
    }
  }

  /** `count` copies of the 16-bit width. */
  function Shorts(count: nat): (ws: seq<nat>)
    ensures |ws| == count
  {
    if count == 0 then [] else [2] + Shorts(count - 1)
  }

  lemma {:induction false} ShortsSum(count: nat)
    ensures Sum(Shorts(count)) == 2 * count
  {
    if count > 0 {
      ShortsSum(count - 1);
      assert Shorts(count)[1..] == Shorts(count - 1);
    }
  }

  function Pow2(n: nat): (p: nat)
    ensures p > 0
  {
    if n == 0 then 1 else 2 * Pow2(n - 1)
  }

  /** The flag word: the first flag is bit 15, the next bit 14, and so on. */
  function FlagWord(vals: seq<nat>): nat
    requires |vals| <= 16
  {
    if vals == [] then 0
    else
      var n := |vals| - 1;
      FlagWord(vals[..n]) + if vals[n] != 0 then Pow2(15 - n) else 0
  }

  function FlagVals(word: nat, count: nat): (vs: seq<nat>)
    requires count <= 16
    ensures |vs| == count
  {
    seq(count, i requires 0 <= i < count => (word / Pow2(15 - i)) % 2)
  }

  function EncodePrefix(p: Prefix, vals: seq<nat>): Encoded {
    match p
    case Fixed(widths) => PackAll(widths, vals)
    case AntennaList =>
      if vals == [] then Err(MissingField) else PackAll([2] + Shorts(|vals| - 1), [|vals| - 1] + vals[1..])
    case Flags(count) =>
      if |vals| != count || count > 16 then Err(MissingField) else Ok(Pack(FlagWord(vals), 2))
  }

  function Min(a: nat, b: nat): nat { if a < b then a else b }

  /** The fixed values and how many bytes they took. An antenna count that
      the data does not bear out is kept, with the antennas there are. */
  function DecodePrefix(p: Prefix, data: seq<byte>): (r: Result<(seq<nat>, nat), CodecError>)
    ensures r.Ok? ==> r.value.1 <= |data|
  {
    match p
    case Fixed(widths) =>
      if |data| < Sum(widths) then Err(StructError)
      else Ok((UnpackAll(widths, data[..Sum(widths)]), Sum(widths)))
    case AntennaList =>
      if |data| < 2 then Err(StructError)
      else
        var count := Unpack(data[..2]);
        var end := Min(2 + 2 * count, |data|);
        var there := (end - 2) / 2;
        ShortsSum(there);
        Ok(([count] + UnpackAll(Shorts(there), data[2..2 + 2 * there]), end))
    case Flags(count) =>
      if |data| < 2 || count > 16 then Err(StructError)
      else Ok((FlagVals(Unpack(data[..2]), count), 2))
  }

  /** Values that a decoder can return for a prefix. */
  predicate CanonicalVals(p: Prefix, vals: seq<nat>) {
    match p
    case Fixed(_) => true
    case AntennaList => vals != [] && vals[0] == |vals| - 1
    case Flags(_) => forall i | 0 <= i < |vals| :: vals[i] <= 1
  }

  // ---------------------------------------------------------------- encoding

  function EncodeHeader(info: Info, size: nat): Encoded {
    var id := info.ident;
    if info.tv then
      if id.parType > 127 then Err(BadHeader) else Ok([128 + id.parType])
    else if id.parType == TYPE_CUSTOM then
      if CUSTOM_TLV_HEADER_LEN + size < Pow256(2) && id.vendorId < Pow256(4) && id.subtype < Pow256(4)
      then Ok(Pack(id.parType, 2) + Pack(CUSTOM_TLV_HEADER_LEN + size, 2) + Pack(id.vendorId, 4) + Pack(id.subtype, 4))
      else Err(StructError)
    else if id.parType < Pow256(2) && TLV_HEADER_LEN + size < Pow256(2)
    then Ok(Pack(id.parType, 2) + Pack(TLV_HEADER_LEN + size, 2))
    else Err(StructError)
  }

  /** encode_param. A name without an encoder is dropped with a warning. */
  function EncodeParam(reg: Registry, name: Name, par: Par): Encoded
    decreases par, 2
  {
    if name !in reg.params || !reg.params[name].hasEncoder then Ok([])
    else
      var info := reg.params[name];
      var body :- EncodeBody(reg, info, par);
      var header :- EncodeHeader(info, |body|);
      Ok(header + body)
  }

  function EncodeBody(reg: Registry, info: Info, par: Par): Encoded
    decreases par, 1
  {
    var prefix :- EncodePrefix(info.prefix, par.vals);
    if !info.auto then Ok(prefix)
    else
      var children :- EncodeFields(reg, par, info.fields);
      Ok(prefix + children)
  }

  /** encode_all_parameters: the children in the registry's order. */
  function EncodeFields(reg: Registry, par: Par, fields: seq<FieldSpec>): Encoded
    decreases par, 0, |fields|
  {
    if fields == [] then Ok([])
    else
      var n := |fields| - 1;
      var before :- EncodeFields(reg, par, fields[..n]);
      var last :- EncodeField(reg, par, fields[n]);
      Ok(before + last)
  }

  /** One field: absent, a single child, or a list; a repeated field whose
      value is not a list is skipped with a warning. */
  function EncodeField(reg: Registry, par: Par, field: FieldSpec): Encoded
    decreases par, 0, 0
  {
    if field.name !in par.kids then Ok([])
    else
      match par.kids[field.name]
      case One(p) => if field.multiple then Ok([]) else EncodeParam(reg, field.name, p)
      case Many(ps) => if field.multiple then EncodeMany(reg, field.name, ps) else Err(StructError)
  }

  function EncodeMany(reg: Registry, name: Name, pars: seq<Par>): Encoded
    decreases pars, 3
  {
    if pars == [] then Ok([])
    else
      var n := |pars| - 1;
      var before :- EncodeMany(reg, name, pars[..n]);
      var last :- EncodeParam(reg, name, pars[n]);
      Ok(before + last)
  }

  // ---------------------------------------------------------------- decoding

  datatype Decoded = Known(name: Name, par: Par) | Undecoded(unknown: Unknown)

  datatype Item = Item(decoded: Decoded, size: nat)

  /** decode_param on the parameter at the front of `data`; `None` when no
      parameter can be recognised there. */
  function DecodeParam(reg: Registry, data: seq<byte>): (r: Result<Option<Item>, CodecError>)
    ensures r.Ok? && r.value.Some? ==> 0 < r.value.value.size <= |data|
    decreases |data|, 1
  {
    ParamHeaderBounds(data);
    match ParamHeaderDecode(data)
    case Err(_) => Err(BadHeader)
    case Ok(None) => Ok(None)
    case Ok(Some(h)) =>
      if h.parType == 0 then Ok(None)
      else if h.length > |data| then Err(Truncated)
      else
        var decoded :- DecodeNamed(reg, Ident(h.parType, h.vendorId, h.subtype), data[h.headerLen..h.length]);
        Ok(Some(Item(decoded, h.length)))
  }

  /** The body of a parameter, by its identity. */
  function DecodeNamed(reg: Registry, ident: Ident, body: seq<byte>): Result<Decoded, CodecError>
    decreases |body|, 4
  {
    if ident !in reg.names || reg.names[ident] !in reg.params then Ok(Undecoded(Unknown("", ident, body)))
    else
      var name := reg.names[ident];
      if !reg.params[name].hasDecoder then Ok(Undecoded(Unknown(name, ident, body)))
      else
        var par :- DecodeBody(reg, reg.params[name], body);
        Ok(Known(name, par))
  }

  /** A decoder: the fixed part, then the children, if the body has any. */
  function DecodeBody(reg: Registry, info: Info, body: seq<byte>): Result<Par, CodecError>
    decreases |body|, 3
  {
    var (vals, used) :- DecodePrefix(info.prefix, body);
    if !info.auto then
      if used != |body| then Err(StructError) else Ok(Par(vals, map[], []))
    else
      var items :- DecodeItems(reg, body[used..]);
      Ok(Collect(Par(vals, map[], []), items, info.repeated))
  }

  /** The parameters that follow one another in `data`. */
  function DecodeItems(reg: Registry, data: seq<byte>): Result<seq<Item>, CodecError>
    decreases |data|, 2
  {
    if data == [] then Ok([])
    else
      var first :- DecodeParam(reg, data);
      if first.None? then Err(InvalidStream)
      else
        var rest :- DecodeItems(reg, data[first.value.size..]);
        Ok([first.value] + rest)
  }

  /** What decode_all_parameters does with one decoded parameter. */
  function AddItem(par: Par, item: Item, repeated: set<Name>): Par {
    match item.decoded
    case Undecoded(u) => par.(errors := par.errors + [u])
    case Known(name, p) =>
      if name !in repeated then par.(kids := par.kids[name := One(p)])
      else par.(kids := par.kids[name := Many(Listed(par, name) + [p])])
  }

  function Listed(par: Par, name: Name): seq<Par> {
    if name in par.kids && par.kids[name].Many? then par.kids[name].pars else []
  }

  function Collect(par: Par, items: seq<Item>, repeated: set<Name>): Par
    decreases |items|
  {
    if items == [] then par else Collect(AddItem(par, items[0], repeated), items[1..], repeated)
  }

  // ------------------------------------------------------- tiling, stability

  function Sizes(items: seq<Item>): nat {
    if items == [] then 0 else items[0].size + Sizes(items[1..])
  }

  /** Tiling: decoded parameters have positive lengths that add up to the
      input, so the loop always advances and stops exactly at the end. */
  lemma {:induction false} DecodingTiles(reg: Registry, data: seq<byte>)
    requires DecodeItems(reg, data).Ok?
    ensures var items := DecodeItems(reg, data).value;
            Sizes(items) == |data| && forall i | 0 <= i < |items| :: items[i].size > 0
    decreases |data|
  {
    if data == [] {
    } else {
      var first := DecodeParam(reg, data).value.value;
      DecodingTiles(reg, data[first.size..]);
      var items := DecodeItems(reg, data).value;
      assert items[1..] == DecodeItems(reg, data[first.size..]).value;
      forall i | 0 <= i < |items|
        ensures items[i].size > 0
      {
        if i > 0 {
          assert items[i] == items[1..][i - 1];
        }
      }
    }
  }

  /** What follows a parameter has no influence on decoding it. */
  lemma DecodeParamStable(reg: Registry, data: seq<byte>, more: seq<byte>)
    requires DecodeParam(reg, data).Ok? && DecodeParam(reg, data).value.Some?
    ensures DecodeParam(reg, data + more) == DecodeParam(reg, data)
  {
    ParamHeaderStable(data, more);
    ParamHeaderBounds(data);
    var h := ParamHeaderDecode(data).value.value;
    SliceStable(data, more, h.headerLen, h.length);
  }

  lemma SliceStable(data: seq<byte>, more: seq<byte>, from: nat, to: nat)
    requires from <= to <= |data|
    ensures (data + more)[from..to] == data[from..to]
  {
  }

  lemma DecodeItemsCons(reg: Registry, data: seq<byte>, first: Item, rest: seq<byte>)
    requires data != [] && DecodeParam(reg, data) == Ok(Some(first)) && rest == data[first.size..]
    ensures DecodeItems(reg, data).Ok? <==> DecodeItems(reg, rest).Ok?
    ensures DecodeItems(reg, rest).Ok? ==> DecodeItems(reg, data) == Ok([first] + DecodeItems(reg, rest).value)
  {
  }

  /** Decoding two runs of parameters one after the other. */
  lemma {:induction false} DecodeItemsAppend(reg: Registry, a: seq<byte>, b: seq<byte>)
    requires DecodeItems(reg, a).Ok? && DecodeItems(reg, b).Ok?
    ensures DecodeItems(reg, a + b) == Ok(DecodeItems(reg, a).value + DecodeItems(reg, b).value)
    decreases |a|
  {
    if a == [] {
      assert a + b == b;
      assert [] + DecodeItems(reg, b).value == DecodeItems(reg, b).value;
    } else {
      var first := DecodeParam(reg, a).value.value;
      var rest := a[first.size..];
      DecodeParamStable(reg, a, b);
      assert (a + b)[first.size..] == rest + b;
      DecodeItemsCons(reg, a, first, rest);
      DecodeItemsCons(reg, a + b, first, rest + b);
      DecodeItemsAppend(reg, rest, b);
      ConsAppend(first, DecodeItems(reg, rest).value, DecodeItems(reg, b).value);
    }
  }

  lemma ConsAppend(first: Item, x: seq<Item>, y: seq<Item>)
    ensures [first] + (x + y) == [first] + x + y
  {
  }

  lemma DecodeItemsOne(reg: Registry, data: seq<byte>)
    requires DecodeParam(reg, data).Ok? && DecodeParam(reg, data).value.Some?
    requires DecodeParam(reg, data).value.value.size == |data|
    ensures DecodeItems(reg, data) == Ok([DecodeParam(reg, data).value.value])
  {
    assert data[|data|..] == [];
    assert DecodeItems(reg, data[|data|..]) == Ok([]);
    var first := DecodeParam(reg, data).value.value;
    assert [first] + [] == [first];
  }
}
