/**
 Decoding what the codec encoded, for every registry entry that is well formed
 and every tree that conforms to it: what is read back, and when it is the
 parameter itself.
 */
module CodecRoundTrip {
  import opened Prelude
  import opened Bytes
  import opened Header
  import opened Codec

  // ------------------------------------------------------- well-formedness

  /** The entry can be told from its header: its identity is its own, and a
      TV parameter has the size its type fixes. */
  predicate WellIdentified(reg: Registry, name: Name, info: Info) {
    var id := info.ident;
    && id in reg.names && reg.names[id] == name
    && 0 < id.parType < 1024
    && (info.tv || id.parType != TYPE_CUSTOM ==> id.vendorId == 0 && id.subtype == 0)
    && (info.tv ==> !info.auto && info.prefix.Fixed? && TvBodySize(id.parType) == Sum(info.prefix.widths) > 0)
  }

  /** Field names are distinct. */
  predicate WellFielded(info: Info) {
    && (!info.auto ==> info.prefix.Fixed?)
    && (forall i, j | 0 <= i < j < |info.fields| :: info.fields[i].name != info.fields[j].name)
  }

  /** A field is encoded as a list exactly when it is decoded as one. */
  predicate KindsMatch(info: Info) {
    forall i | 0 <= i < |info.fields| :: info.fields[i].multiple <==> info.fields[i].name in info.repeated
  }

  predicate WellFormed(reg: Registry, name: Name) {
    && name in reg.params
    && reg.params[name].hasEncoder && reg.params[name].hasDecoder
    && WellIdentified(reg, name, reg.params[name])
    && WellFielded(reg.params[name])
  }

  predicate HasField(fields: seq<FieldSpec>, name: Name, multiple: bool) {
    exists i :: 0 <= i < |fields| && fields[i] == FieldSpec(name, multiple)
  }

  /** A tree that a registry entry describes. */
  ghost predicate Conforms(reg: Registry, name: Name, par: Par)
    decreases par
  {
    && WellFormed(reg, name)
    && CanonicalVals(reg.params[name].prefix, par.vals)
    && par.errors == []
    && (!reg.params[name].auto ==> par.kids == map[])
    && (forall n | n in par.kids :: KidConforms(reg, reg.params[name].fields, n, par.kids[n]))
  }

  ghost predicate KidConforms(reg: Registry, fields: seq<FieldSpec>, name: Name, kid: Kid)
    decreases kid
  {
    && HasField(fields, name, kid.Many?)
    && (kid.One? ==> Conforms(reg, name, kid.par))
    && (kid.Many? ==> forall i | 0 <= i < |kid.pars| :: Conforms(reg, name, kid.pars[i]))
  }

  /** The tree with its empty lists made absent. */
  function Normal(par: Par): Par
    decreases par
  {
    Par(par.vals, map n | n in par.kids && par.kids[n] != Many([]) :: NormalKid(par.kids[n]), [])
  }

  function NormalKid(k: Kid): Kid
    decreases k
  {
    if k.One? then One(Normal(k.par))
    else Many(seq(|k.pars|, i requires 0 <= i < |k.pars| => Normal(k.pars[i])))
  }

  /** The names that are decoded as lists below a parameter. */
  function RepeatedOf(reg: Registry, name: Name): set<Name> {
    if name in reg.params then reg.params[name].repeated else {}
  }

  /** What is read back: a child is in a list exactly when its name is
      decoded as repeated; of several that are not, the last stays. */
  function Read(reg: Registry, name: Name, par: Par): Par
    decreases par
  {
    Par(par.vals,
        map n | n in par.kids && par.kids[n] != Many([]) ::
          ReadKid(reg, n, par.kids[n], n in RepeatedOf(reg, name)),
        [])
  }

  function ReadKid(reg: Registry, name: Name, k: Kid, asList: bool): Kid
    decreases k
  {
    if k.One? then
      if asList then Many([Read(reg, name, k.par)]) else One(Read(reg, name, k.par))
    else if asList || k.pars == [] then Many(seq(|k.pars|, i requires 0 <= i < |k.pars| => Read(reg, name, k.pars[i])))
    else One(Read(reg, name, k.pars[|k.pars| - 1]))
  }

  /** Every child in the tree is held as its name is decoded. */
  ghost predicate KindsAgree(reg: Registry, name: Name, par: Par)
    decreases par
  {
    forall n | n in par.kids && par.kids[n] != Many([]) ::
      (par.kids[n].Many? <==> n in RepeatedOf(reg, name)) && KindsAgreeBelow(reg, n, par.kids[n])
  }

  ghost predicate KindsAgreeBelow(reg: Registry, name: Name, k: Kid)
    decreases k
  {
    if k.One? then KindsAgree(reg, name, k.par) else forall i | 0 <= i < |k.pars| :: KindsAgree(reg, name, k.pars[i])
  }

  /** What is read back is the normal form exactly when the kinds agree. */
  lemma {:induction false} ReadIsNormal(reg: Registry, name: Name, par: Par)
    ensures Read(reg, name, par) == Normal(par) <==> KindsAgree(reg, name, par)
    decreases par
  {
    var read, normal := Read(reg, name, par).kids, Normal(par).kids;
    assert read.Keys == normal.Keys;
    forall n | n in par.kids && par.kids[n] != Many([])
      ensures read[n] == normal[n] <==>
              (par.kids[n].Many? <==> n in RepeatedOf(reg, name)) && KindsAgreeBelow(reg, n, par.kids[n])
    {
      ReadKidIsNormal(reg, n, par.kids[n], n in RepeatedOf(reg, name));
    }
    if KindsAgree(reg, name, par) {
      assert read == normal;
    }
  }

  lemma {:induction false} ReadKidIsNormal(reg: Registry, name: Name, k: Kid, asList: bool)
    requires k != Many([])
    ensures ReadKid(reg, name, k, asList) == NormalKid(k) <==> (k.Many? <==> asList) && KindsAgreeBelow(reg, name, k)
    decreases k
  {
    if k.One? {
      ReadIsNormal(reg, name, k.par);
    } else if asList {
      var read, normal := ReadKid(reg, name, k, asList).pars, NormalKid(k).pars;
      forall i | 0 <= i < |k.pars|
        ensures read[i] == normal[i] <==> KindsAgree(reg, name, k.pars[i])
      {
        ReadIsNormal(reg, name, k.pars[i]);
      }
      if KindsAgreeBelow(reg, name, k) {
        assert read == normal;
      }
    }
  }

  /** In a registry whose entries decode as they encode, the kinds of every
      conforming tree agree. */
  lemma {:induction false} MatchingKindsAgree(reg: Registry, name: Name, par: Par)
    requires Conforms(reg, name, par) && forall n | n in reg.params :: KindsMatch(reg.params[n])
    ensures KindsAgree(reg, name, par)
    decreases par
  {
    var fields := reg.params[name].fields;
    forall n | n in par.kids && par.kids[n] != Many([])
      ensures (par.kids[n].Many? <==> n in RepeatedOf(reg, name)) && KindsAgreeBelow(reg, n, par.kids[n])
    {
      var kid := par.kids[n];
      assert KidConforms(reg, fields, n, kid);
      var i :| 0 <= i < |fields| && fields[i] == FieldSpec(n, kid.Many?);
      assert fields[i].multiple == kid.Many? && fields[i].name == n;
      MatchingKindsAgreeBelow(reg, fields, n, kid);
    }
  }

  lemma {:induction false} MatchingKindsAgreeBelow(reg: Registry, fields: seq<FieldSpec>, name: Name, k: Kid)
    requires KidConforms(reg, fields, name, k) && forall n | n in reg.params :: KindsMatch(reg.params[n])
    ensures KindsAgreeBelow(reg, name, k)
    decreases k
  {
    if k.One? {
      MatchingKindsAgree(reg, name, k.par);
    } else {
      forall i | 0 <= i < |k.pars|
        ensures KindsAgree(reg, name, k.pars[i])
      {
        MatchingKindsAgree(reg, name, k.pars[i]);
      }
    }
  }

  /** A tree without empty lists is its own normal form. */
  ghost predicate NoEmptyLists(par: Par)
    decreases par
  {
    par.errors == [] && forall n | n in par.kids :: par.kids[n] != Many([]) && NoEmptyListsBelow(par.kids[n])
  }

  ghost predicate NoEmptyListsBelow(k: Kid)
    decreases k
  {
    if k.One? then NoEmptyLists(k.par) else forall i | 0 <= i < |k.pars| :: NoEmptyLists(k.pars[i])
  }

  lemma {:induction false} NormalIsIdentity(par: Par)
    requires NoEmptyLists(par)
    ensures Normal(par) == par
    decreases par
  {
    forall n | n in par.kids
      ensures NormalKid(par.kids[n]) == par.kids[n]
    {
      NormalKidIsIdentity(par.kids[n]);
    }
    assert Normal(par).kids == par.kids;
  }

  lemma {:induction false} NormalKidIsIdentity(k: Kid)
    requires NoEmptyListsBelow(k)
    ensures NormalKid(k) == k
    decreases k
  {
    if k.One? {
      NormalIsIdentity(k.par);
    } else {
      forall i | 0 <= i < |k.pars|
        ensures Normal(k.pars[i]) == k.pars[i]
      {
        NormalIsIdentity(k.pars[i]);
      }
      assert NormalKid(k).pars == k.pars;
    }
  }

  // ------------------------------------------------------------ fixed fields

  lemma DivUnique(a: nat, d: nat, q: nat, rem: nat)
    requires a == d * q + rem && rem < d
    ensures a / d == q
  {
    var x := a / d;
    assert a == d * x + a % d;
    if q > x {
      MulMonotonic(d, x + 1, q);
    } else if q < x {
      MulMonotonic(d, q + 1, x);
    }
  }

  lemma MulMonotonic(d: nat, x: nat, y: nat)
    requires x <= y
    ensures d * x <= d * y
  {
    assert d * y == d * x + d * (y - x);
  }

  lemma Expand(b: nat, c: nat, r: nat, t: nat)
    ensures b * (c * r + t) == b * c * r + b * t
  {
    assert b * (c * r) == b * c * r;
  }

  lemma ProductBound(b: nat, c: nat, s: nat, t: nat)
    requires s < b && t < c
    ensures b * t + s < b * c
  {
    MulMonotonic(b, t + 1, c);
    assert b * (t + 1) == b * t + b;
  }

  lemma DivDivOf(a: nat, b: nat, c: nat, q: nat, s: nat, r: nat, t: nat)
    requires a == b * q + s && s < b && q == c * r + t && t < c
    ensures b * c > 0 && a / (b * c) == r
  {
    Expand(b, c, r, t);
    ProductBound(b, c, s, t);
    DivUnique(a, b * c, r, b * t + s);
  }

  lemma DivMod(a: nat, b: nat)
    requires b > 0
    ensures a == b * (a / b) + a % b && a % b < b
  {
  }

  lemma DivDiv(a: nat, b: nat, c: nat)
    requires b > 0 && c > 0
    ensures b * c > 0 && a / (b * c) == (a / b) / c
  {
    DivMod(a, b);
    DivMod(a / b, c);
    DivDivOf(a, b, c, a / b, a % b, (a / b) / c, (a / b) % c);
  }

  /** Dividing out a common factor. */
  lemma QuotientOf(bits: nat, low: nat, high: nat)
    requires low > 0 && high > 0
    ensures low * high > 0 && (bits * low) / (low * high) == bits / high
  {
    DivUnique(bits * low, low, bits, 0);
    DivDiv(bits * low, low, high);
  }

  lemma ShiftIn(b: nat, bit: nat, p: nat)
    ensures b * (2 * p) + bit * p == (2 * b + bit) * p
  {
  }

  lemma LowBit(x: nat, bit: nat)
    requires bit <= 1
    ensures (2 * x + bit) % 2 == bit
  {
  }

  function Bit(v: nat): nat { if v != 0 then 1 else 0 }

  /** The flags as a binary number, the first flag most significant. */
  function Bits(vals: seq<nat>): nat {
    if vals == [] then 0 else 2 * Bits(vals[..|vals| - 1]) + Bit(vals[|vals| - 1])
  }

  lemma {:induction false} FlagWordIsBits(vals: seq<nat>)
    requires |vals| <= 16
    ensures FlagWord(vals) == Bits(vals) * Pow2(16 - |vals|)
  {
    if vals == [] {
    } else {
      var n := |vals| - 1;
      FlagWordIsBits(vals[..n]);
      ShiftIn(Bits(vals[..n]), Bit(vals[n]), Pow2(15 - n));
    }
  }

  lemma {:induction false} BitsBound(vals: seq<nat>)
    ensures Bits(vals) < Pow2(|vals|)
  {
    if vals == [] {
    } else {
      BitsBound(vals[..|vals| - 1]);
    }
  }

  lemma {:induction false} Pow2Splits(a: nat, b: nat)
    ensures Pow2(a + b) == Pow2(a) * Pow2(b)
  {
    if a == 0 {
    } else {
      Pow2Splits(a - 1, b);
      MulAssociates(2, Pow2(a - 1), Pow2(b));
      assert Pow2(a + b) == 2 * Pow2(a - 1 + b);
    }
  }

  lemma MulAssociates(x: nat, y: nat, z: nat)
    ensures x * (y * z) == (x * y) * z
  {
  }

  /** Dropping the last flags shifts them out. */
  lemma {:induction false} BitsShift(vals: seq<nat>, keep: nat)
    requires keep <= |vals|
    ensures Bits(vals) / Pow2(|vals| - keep) == Bits(vals[..keep])
    decreases |vals|
  {
    if keep == |vals| {
      assert vals[..keep] == vals;
    } else {
      var n := |vals| - 1;
      BitsShift(vals[..n], keep);
      assert vals[..n][..keep] == vals[..keep];
      DivDiv(Bits(vals), 2, Pow2(n - keep));
      assert Bits(vals) / 2 == Bits(vals[..n]);
    }
  }

  lemma FlagQuotient(vals: seq<nat>, i: nat)
    requires i < |vals| <= 16
    ensures FlagWord(vals) / Pow2(15 - i) == Bits(vals[..i + 1])
  {
    var n := |vals|;
    FlagWordIsBits(vals);
    Pow2Splits(16 - n, n - 1 - i);
    QuotientOf(Bits(vals), Pow2(16 - n), Pow2(n - 1 - i));
    BitsShift(vals, i + 1);
  }

  lemma FlagAt(vals: seq<nat>, i: nat)
    requires i < |vals| <= 16
    ensures (FlagWord(vals) / Pow2(15 - i)) % 2 == Bit(vals[i])
  {
    FlagQuotient(vals, i);
    assert vals[..i + 1][..i] == vals[..i];
    LowBit(Bits(vals[..i]), Bit(vals[i]));
  }

  lemma BelowProduct(x: nat, y: nat, p: nat)
    requires x < y && p > 0
    ensures x * p < p * y
  {
    MulMonotonic(p, x + 1, y);
  }

  lemma SixteenBits()
    ensures Pow2(16) == 65536
  {
    Pow2Splits(8, 8);
    Pow2Splits(4, 4);
    Pow2Splits(2, 2);
    assert Pow2(2) == 4;
  }

  lemma FlagWordFits(vals: seq<nat>)
    requires |vals| <= 16
    ensures FlagWord(vals) < 65536
  {
    FlagWordIsBits(vals);
    BitsBound(vals);
    SixteenBits();
    Pow2Splits(16 - |vals|, |vals|);
    BelowProduct(Bits(vals), Pow2(|vals|), Pow2(16 - |vals|));
  }

  lemma FlagValsAgree(vals: seq<nat>)
    requires |vals| <= 16 && CanonicalVals(Flags(|vals|), vals)
    ensures FlagVals(FlagWord(vals), |vals|) == vals
  {
    forall i | 0 <= i < |vals|
      ensures FlagVals(FlagWord(vals), |vals|)[i] == vals[i]
    {
      FlagAt(vals, i);
    }
  }

  lemma FlagsRoundTrip(vals: seq<nat>, rest: seq<byte>)
    requires |vals| <= 16 && CanonicalVals(Flags(|vals|), vals)
    ensures DecodePrefix(Flags(|vals|), Pack(FlagWord(vals), 2) + rest) == Ok((vals, 2))
  {
    var word := FlagWord(vals);
    FlagWordFits(vals);
    Widths();
    UnpackPack(word, 2);
    assert (Pack(word, 2) + rest)[..2] == Pack(word, 2);
    FlagValsAgree(vals);
  }

  lemma AntennasRoundTrip(vals: seq<nat>, rest: seq<byte>)
    requires CanonicalVals(AntennaList, vals) && EncodePrefix(AntennaList, vals).Ok?
    ensures var bytes := EncodePrefix(AntennaList, vals).value;
            DecodePrefix(AntennaList, bytes + rest) == Ok((vals, |bytes|))
  {
    var ids, count := vals[1..], |vals| - 1;
    var widths := [2] + Shorts(count);
    var bytes := EncodePrefix(AntennaList, vals).value;
    assert widths[1..] == Shorts(count) && ([count] + ids)[1..] == ids;
    var tail := PackAll(Shorts(count), ids).value;
    assert bytes == Pack(count, 2) + tail;
    UnpackPack(count, 2);
    PackAllRoundTrip(Shorts(count), ids);
    ShortsSum(count);
    var data := bytes + rest;
    assert data[..2] == Pack(count, 2);
    assert data[2..2 + 2 * count] == tail;
    assert [count] + ids == vals;
  }

  /** The antenna count that an AISpec decodes to is the number of antennas
      in its list exactly when the data holds as many as it declares; shorter
      data is accepted with the count unchanged. */
  lemma AntennaCountHonest(data: seq<byte>)
    requires |data| >= 2
    ensures DecodePrefix(AntennaList, data).Ok?
    ensures var vals := DecodePrefix(AntennaList, data).value.0;
            CanonicalVals(AntennaList, vals) <==> 2 + 2 * Unpack(data[..2]) <= |data|
  {
    var count := Unpack(data[..2]);
    var there := (Min(2 + 2 * count, |data|) - 2) / 2;
    ShortsSum(there);
    UnpackAllLength(Shorts(there), data[2..2 + 2 * there]);
  }

  lemma {:induction false} UnpackAllLength(widths: seq<nat>, data: seq<byte>)
    requires |data| == Sum(widths)
    ensures |UnpackAll(widths, data)| == |widths|
  {
    if widths == [] {
    } else {
      UnpackAllLength(widths[1..], data[widths[0]..]);
    }
  }

  /** The fixed part decodes to the values it was packed from, whatever
      follows it. */
  lemma PrefixRoundTrip(p: Prefix, vals: seq<nat>, rest: seq<byte>)
    requires EncodePrefix(p, vals).Ok? && CanonicalVals(p, vals)
    ensures var bytes := EncodePrefix(p, vals).value;
            DecodePrefix(p, bytes + rest) == Ok((vals, |bytes|))
  {
    match p
    case Fixed(widths) =>
      PackAllRoundTrip(widths, vals);
      var bytes := PackAll(widths, vals).value;
      assert (bytes + rest)[..|bytes|] == bytes;
    case AntennaList =>
      AntennasRoundTrip(vals, rest);
    case Flags(_) =>
      FlagsRoundTrip(vals, rest);
  }

  // ----------------------------------------------------------------- headers

  lemma TlvHeaderRoundTrip(parType: nat, length: nat, rest: seq<byte>)
    requires parType < 1024 && TLV_HEADER_LEN <= length < Pow256(2)
    ensures var data := Pack(parType, 2) + Pack(length, 2) + rest;
            && Unpack(data[..2]) == parType && Unpack(data[2..4]) == length && data[4..] == rest
            && TvHeaderDecode(data) == None
  {
    Widths();
    UnpackPack(parType, 2);
    UnpackPack(length, 2);
    var data := Pack(parType, 2) + Pack(length, 2) + rest;
    assert data[..2] == Pack(parType, 2);
    assert data[2..4] == Pack(length, 2);
    assert Pack(parType, 2) == Pack(parType / 256, 1) + [parType % 256];
    assert Pack(parType / 256, 1) == Pack(parType / 256 / 256, 0) + [(parType / 256) % 256];
    assert data[0] == (parType / 256) % 256 < 128;
  }

  lemma CustomHeaderRoundTrip(vendorId: nat, subtype: nat, body: seq<byte>)
    requires vendorId < Pow256(4) && subtype < Pow256(4)
    ensures var rest := Pack(vendorId, 4) + Pack(subtype, 4) + body;
            Unpack(rest[0..4]) == vendorId && Unpack(rest[4..8]) == subtype
  {
    UnpackPack(vendorId, 4);
    UnpackPack(subtype, 4);
    var rest := Pack(vendorId, 4) + Pack(subtype, 4) + body;
    assert rest[0..4] == Pack(vendorId, 4);
    assert rest[4..8] == Pack(subtype, 4);
  }

  lemma CustomFromParts(length: nat, rest: seq<byte>)
    requires CUSTOM_TLV_HEADER_LEN <= length < Pow256(2) && |rest| >= 8
    ensures ParamHeaderDecode(Pack(TYPE_CUSTOM, 2) + Pack(length, 2) + rest) ==
            Ok(Some(ParamHeader(TYPE_CUSTOM, Unpack(rest[0..4]), Unpack(rest[4..8]), CUSTOM_TLV_HEADER_LEN, length)))
  {
    var data := Pack(TYPE_CUSTOM, 2) + Pack(length, 2) + rest;
    TlvHeaderRoundTrip(TYPE_CUSTOM, length, rest);
    assert data[4..8] == rest[0..4] && data[8..12] == rest[4..8];
  }

  lemma CustomRecognised(id: Ident, body: seq<byte>)
    requires id.parType == TYPE_CUSTOM && id.vendorId < Pow256(4) && id.subtype < Pow256(4)
    requires CUSTOM_TLV_HEADER_LEN + |body| < Pow256(2)
    ensures var length := CUSTOM_TLV_HEADER_LEN + |body|;
            var header := Pack(id.parType, 2) + Pack(length, 2) + Pack(id.vendorId, 4) + Pack(id.subtype, 4);
            ParamHeaderDecode(header + body) ==
            Ok(Some(ParamHeader(id.parType, id.vendorId, id.subtype, CUSTOM_TLV_HEADER_LEN, length)))
  {
    var rest := Pack(id.vendorId, 4) + Pack(id.subtype, 4) + body;
    var a, b := Pack(id.parType, 2), Pack(CUSTOM_TLV_HEADER_LEN + |body|, 2);
    CustomHeaderRoundTrip(id.vendorId, id.subtype, body);
    CustomFromParts(CUSTOM_TLV_HEADER_LEN + |body|, rest);
    Regroup(a + b, Pack(id.vendorId, 4), Pack(id.subtype, 4), body);
  }

  /** An encoded header is recognised, with its identity and total length. */
  lemma HeaderRoundTrip(reg: Registry, name: Name, info: Info, body: seq<byte>)
    requires WellIdentified(reg, name, info) && EncodeHeader(info, |body|).Ok?
    requires info.tv ==> |body| == TvBodySize(info.ident.parType)
    ensures var header := EncodeHeader(info, |body|).value;
            var id := info.ident;
            ParamHeaderDecode(header + body) ==
            Ok(Some(ParamHeader(id.parType, id.vendorId, id.subtype, |header|, |header + body|)))
  {
    var header, id := EncodeHeader(info, |body|).value, info.ident;
    if info.tv {
      assert (header + body)[0] == 128 + id.parType;
    } else if id.parType == TYPE_CUSTOM {
      CustomRecognised(id, body);
    } else {
      TlvHeaderRoundTrip(id.parType, TLV_HEADER_LEN + |body|, body);
    }
  }

  // ---------------------------------------------------------------- the tree

  lemma {:induction false} CollectAppend(par: Par, a: seq<Item>, b: seq<Item>, repeated: set<Name>)
    ensures Collect(par, a + b, repeated) == Collect(Collect(par, a, repeated), b, repeated)
    decreases |a|
  {
    if a == [] {
      assert a + b == b;
    } else {
      assert (a + b)[1..] == a[1..] + b;
      CollectAppend(AddItem(par, a[0], repeated), a[1..], b, repeated);
    }
  }

  lemma CollectOne(par: Par, item: Item, repeated: set<Name>)
    ensures Collect(par, [item], repeated) == AddItem(par, item, repeated)
  {
    assert [item][1..] == [];
  }

  predicate NamesField(fields: seq<FieldSpec>, name: Name) {
    exists i :: 0 <= i < |fields| && fields[i].name == name
  }

  /** What is read back of the given fields of a parameter. */
  function KidsOf(reg: Registry, par: Par, fields: seq<FieldSpec>, repeated: set<Name>): map<Name, Kid> {
    map n | n in par.kids && par.kids[n] != Many([]) && NamesField(fields, n) ::
      ReadKid(reg, n, par.kids[n], n in repeated)
  }

  /** `acc` with what is read back of one field. */
  function WithField(reg: Registry, acc: Par, par: Par, name: Name, repeated: set<Name>): Par {
    if name in par.kids && par.kids[name] != Many([])
    then acc.(kids := acc.kids[name := ReadKid(reg, name, par.kids[name], name in repeated)])
    else acc
  }

  lemma KidsOfGrows(reg: Registry, par: Par, fields: seq<FieldSpec>, vals: seq<nat>, repeated: set<Name>)
    requires fields != []
    ensures var n := |fields| - 1;
            Par(vals, KidsOf(reg, par, fields, repeated), []) ==
            WithField(reg, Par(vals, KidsOf(reg, par, fields[..n], repeated), []), par, fields[n].name, repeated)
  {
    var n := |fields| - 1;
    forall name
      ensures NamesField(fields, name) <==> NamesField(fields[..n], name) || name == fields[n].name
    {
      if NamesField(fields[..n], name) {
        var i :| 0 <= i < n && fields[..n][i].name == name;
        assert fields[i].name == name;
      }
      if NamesField(fields, name) && name != fields[n].name {
        var i :| 0 <= i < |fields| && fields[i].name == name;
        assert fields[..n][i].name == name;
      }
    }
    assert KidsOf(reg, par, fields, repeated) ==
           WithField(reg, Par(vals, KidsOf(reg, par, fields[..n], repeated), []), par, fields[n].name, repeated).kids;
  }

  /** What a conforming parameter that can be encoded decodes to, from
      exactly the bytes of its encoding. */
  lemma {:induction false} ParamReads(reg: Registry, name: Name, par: Par)
    requires Conforms(reg, name, par) && EncodeParam(reg, name, par).Ok?
    ensures var bytes := EncodeParam(reg, name, par).value;
            DecodeParam(reg, bytes) == Ok(Some(Item(Known(name, Read(reg, name, par)), |bytes|)))
    decreases par, 3
  {
    var info := reg.params[name];
    var body := EncodeBody(reg, info, par).value;
    var header := EncodeHeader(info, |body|).value;
    BodyRoundTrip(reg, name, par);
    if info.tv {
      PackAllRoundTrip(info.prefix.widths, par.vals);
    }
    HeaderRoundTrip(reg, name, info, body);
    FramedParam(reg, name, header, body);
  }

  /** A recognised header is followed by its body. */
  lemma FramedParam(reg: Registry, name: Name, header: seq<byte>, body: seq<byte>)
    requires name in reg.params && reg.params[name].hasDecoder
    requires reg.params[name].ident in reg.names && reg.names[reg.params[name].ident] == name
    requires var id := reg.params[name].ident;
             && id.parType > 0
             && ParamHeaderDecode(header + body) ==
                Ok(Some(ParamHeader(id.parType, id.vendorId, id.subtype, |header|, |header + body|)))
    requires DecodeBody(reg, reg.params[name], body).Ok?
    ensures DecodeParam(reg, header + body) ==
            Ok(Some(Item(Known(name, DecodeBody(reg, reg.params[name], body).value), |header + body|)))
  {
    ParamHeaderBounds(header + body);
    assert |header| <= |header + body|;
    assert (header + body)[|header|..|header + body|] == body;
  }

  lemma {:induction false} BodyRoundTrip(reg: Registry, name: Name, par: Par)
    requires Conforms(reg, name, par) && EncodeBody(reg, reg.params[name], par).Ok?
    ensures DecodeBody(reg, reg.params[name], EncodeBody(reg, reg.params[name], par).value) == Ok(Read(reg, name, par))
    decreases par, 2
  {
    if reg.params[name].auto {
      AutoBodyRoundTrip(reg, name, par);
    } else {
      PlainBodyRoundTrip(reg, name, par);
    }
  }

  lemma PlainBodyRoundTrip(reg: Registry, name: Name, par: Par)
    requires Conforms(reg, name, par) && !reg.params[name].auto && EncodeBody(reg, reg.params[name], par).Ok?
    ensures DecodeBody(reg, reg.params[name], EncodeBody(reg, reg.params[name], par).value) == Ok(Read(reg, name, par))
  {
    var info := reg.params[name];
    var prefix := EncodePrefix(info.prefix, par.vals).value;
    PrefixRoundTrip(info.prefix, par.vals, []);
    assert prefix + [] == prefix;
    assert Read(reg, name, par).kids == map[];
  }

  lemma {:induction false} AutoBodyRoundTrip(reg: Registry, name: Name, par: Par)
    requires Conforms(reg, name, par) && reg.params[name].auto && EncodeBody(reg, reg.params[name], par).Ok?
    ensures DecodeBody(reg, reg.params[name], EncodeBody(reg, reg.params[name], par).value) == Ok(Read(reg, name, par))
    decreases par, 1, |reg.params[name].fields| + 1
  {
    var info := reg.params[name];
    var prefix := EncodePrefix(info.prefix, par.vals).value;
    var children := EncodeFields(reg, par, info.fields).value;
    assert info.fields[..|info.fields|] == info.fields;
    FieldsRoundTrip(reg, name, par, |info.fields|);
    AllKids(reg, name, par);
    AutoBodyDecodes(reg, info, par.vals, children);
  }

  lemma AutoBodyDecodes(reg: Registry, info: Info, vals: seq<nat>, children: seq<byte>)
    requires info.auto && EncodePrefix(info.prefix, vals).Ok? && CanonicalVals(info.prefix, vals)
    requires DecodeItems(reg, children).Ok?
    ensures DecodeBody(reg, info, EncodePrefix(info.prefix, vals).value + children) ==
            Ok(Collect(Par(vals, map[], []), DecodeItems(reg, children).value, info.repeated))
  {
    var prefix := EncodePrefix(info.prefix, vals).value;
    PrefixRoundTrip(info.prefix, vals, children);
    assert (prefix + children)[|prefix|..] == children;
  }

  lemma AllKids(reg: Registry, name: Name, par: Par)
    requires Conforms(reg, name, par)
    ensures Par(par.vals, KidsOf(reg, par, reg.params[name].fields, reg.params[name].repeated), []) ==
            Read(reg, name, par)
  {
    var fields := reg.params[name].fields;
    forall n | n in par.kids
      ensures NamesField(fields, n)
    {
      assert KidConforms(reg, fields, n, par.kids[n]);
      var i :| 0 <= i < |fields| && fields[i] == FieldSpec(n, par.kids[n].Many?);
      assert fields[i].name == n;
    }
    assert KidsOf(reg, par, fields, reg.params[name].repeated) == Read(reg, name, par).kids;
  }

  lemma {:induction false} FieldsRoundTrip(reg: Registry, name: Name, par: Par, k: nat)
    requires Conforms(reg, name, par) && k <= |reg.params[name].fields|
    requires EncodeFields(reg, par, reg.params[name].fields[..k]).Ok?
    ensures var info := reg.params[name];
            var items := DecodeItems(reg, EncodeFields(reg, par, info.fields[..k]).value);
            && items.Ok?
            && Collect(Par(par.vals, map[], []), items.value, info.repeated) ==
               Par(par.vals, KidsOf(reg, par, info.fields[..k], info.repeated), [])
    decreases par, 1, k
  {
    var info := reg.params[name];
    var start := Par(par.vals, map[], []);
    if k == 0 {
      assert KidsOf(reg, par, info.fields[..0], info.repeated) == map[];
    } else {
      var fields, field := info.fields[..k], info.fields[k - 1];
      assert fields[..k - 1] == info.fields[..k - 1];
      FieldsRoundTrip(reg, name, par, k - 1);
      var a, b := EncodeFields(reg, par, fields[..k - 1]).value, EncodeField(reg, par, field).value;
      var acc := Par(par.vals, KidsOf(reg, par, fields[..k - 1], info.repeated), []);
      assert field.name !in acc.kids by {
        NotYetNamed(info.fields, k - 1);
      }
      FieldRoundTrip(reg, name, par, k - 1, acc);
      DecodeItemsAppend(reg, a, b);
      CollectAppend(start, DecodeItems(reg, a).value, DecodeItems(reg, b).value, info.repeated);
      KidsOfGrows(reg, par, fields, par.vals, info.repeated);
    }
  }

  lemma NotYetNamed(fields: seq<FieldSpec>, k: nat)
    requires k < |fields|
    requires forall i, j | 0 <= i < j < |fields| :: fields[i].name != fields[j].name
    ensures !NamesField(fields[..k], fields[k].name)
  {
  }

  /** The bytes of one field decode to its children. */
  lemma {:induction false} FieldRoundTrip(reg: Registry, name: Name, par: Par, k: nat, acc: Par)
    requires Conforms(reg, name, par) && k < |reg.params[name].fields|
    requires EncodeField(reg, par, reg.params[name].fields[k]).Ok?
    requires reg.params[name].fields[k].name !in acc.kids
    ensures var info := reg.params[name];
            var items := DecodeItems(reg, EncodeField(reg, par, info.fields[k]).value);
            && items.Ok?
            && Collect(acc, items.value, info.repeated) == WithField(reg, acc, par, info.fields[k].name, info.repeated)
    decreases par, 0, 0
  {
    var info := reg.params[name];
    var field := info.fields[k];
    if field.name in par.kids {
      var kid := par.kids[field.name];
      assert KidConforms(reg, info.fields, field.name, kid);
      assert field.multiple == kid.Many? by {
        var i :| 0 <= i < |info.fields| && info.fields[i] == FieldSpec(field.name, kid.Many?);
      }
      if kid.One? {
        OneRoundTrip(reg, field.name, kid.par, acc, info.repeated);
      } else {
        ManyRoundTrip(reg, field.name, kid.pars, acc, info.repeated);
      }
    }
  }

  lemma {:induction false} OneRoundTrip(reg: Registry, name: Name, par: Par, acc: Par, repeated: set<Name>)
    requires Conforms(reg, name, par) && EncodeParam(reg, name, par).Ok? && name !in acc.kids
    ensures var items := DecodeItems(reg, EncodeParam(reg, name, par).value);
            && items.Ok?
            && Collect(acc, items.value, repeated) ==
               acc.(kids := acc.kids[name := ReadKid(reg, name, One(par), name in repeated)])
    decreases par, 4
  {
    ParamReads(reg, name, par);
    var bytes := EncodeParam(reg, name, par).value;
    DecodeItemsOne(reg, bytes);
    CollectOne(acc, Item(Known(name, Read(reg, name, par)), |bytes|), repeated);
    assert Listed(acc, name) + [Read(reg, name, par)] == [Read(reg, name, par)];
  }

  /** `acc` with what is read back of a list. */
  function Appended(reg: Registry, acc: Par, name: Name, pars: seq<Par>, asList: bool): Par {
    if pars == [] then acc else acc.(kids := acc.kids[name := ReadKid(reg, name, Many(pars), asList)])
  }

  lemma {:induction false} ManyRoundTrip(reg: Registry, name: Name, pars: seq<Par>, acc: Par, repeated: set<Name>)
    requires forall i | 0 <= i < |pars| :: Conforms(reg, name, pars[i])
    requires EncodeMany(reg, name, pars).Ok? && name !in acc.kids
    ensures var items := DecodeItems(reg, EncodeMany(reg, name, pars).value);
            items.Ok? && Collect(acc, items.value, repeated) == Appended(reg, acc, name, pars, name in repeated)
    decreases pars, 4
  {
    if pars == [] {
    } else {
      var n := |pars| - 1;
      var a, b := EncodeMany(reg, name, pars[..n]).value, EncodeParam(reg, name, pars[n]).value;
      ManyRoundTrip(reg, name, pars[..n], acc, repeated);
      ParamReads(reg, name, pars[n]);
      DecodeItemsOne(reg, b);
      DecodeItemsAppend(reg, a, b);
      var item := Item(Known(name, Read(reg, name, pars[n])), |b|);
      CollectAppend(acc, DecodeItems(reg, a).value, [item], repeated);
      CollectOne(Appended(reg, acc, name, pars[..n], name in repeated), item, repeated);
      AppendedGrows(reg, acc, name, pars, |b|, repeated);
    }
  }

  lemma AppendedGrows(reg: Registry, acc: Par, name: Name, pars: seq<Par>, size: nat, repeated: set<Name>)
    requires pars != [] && name !in acc.kids
    ensures var n := |pars| - 1;
            AddItem(Appended(reg, acc, name, pars[..n], name in repeated),
                    Item(Known(name, Read(reg, name, pars[n])), size), repeated) ==
            Appended(reg, acc, name, pars, name in repeated)
  {
    var n := |pars| - 1;
    var before := Appended(reg, acc, name, pars[..n], name in repeated);
    var last := Read(reg, name, pars[n]);
    var after := ReadKid(reg, name, Many(pars), name in repeated);
    if name in repeated {
      assert Listed(before, name) + [last] == after.pars;
    }
    assert before.kids[name := after] == acc.kids[name := after];
  }

  /** Codec round trip: a conforming parameter that can be encoded decodes to
      itself, with empty lists made absent, exactly when every child in it is
      held as its name is decoded. In particular a child that is written as
      one but decoded as repeated comes back in a list. */
  lemma ParamRoundTrip(reg: Registry, name: Name, par: Par)
    requires Conforms(reg, name, par) && EncodeParam(reg, name, par).Ok?
    ensures var bytes := EncodeParam(reg, name, par).value;
            DecodeParam(reg, bytes) == Ok(Some(Item(Known(name, Normal(par)), |bytes|))) <==> KindsAgree(reg, name, par)
  {
    ParamReads(reg, name, par);
    ReadIsNormal(reg, name, par);
  }

  /** In a registry whose entries decode as they encode, every conforming
      parameter that can be encoded round-trips. */
  lemma RegistryRoundTrip(reg: Registry, name: Name, par: Par)
    requires forall n | n in reg.params :: KindsMatch(reg.params[n])
    requires Conforms(reg, name, par) && EncodeParam(reg, name, par).Ok?
    ensures var bytes := EncodeParam(reg, name, par).value;
            DecodeParam(reg, bytes) == Ok(Some(Item(Known(name, Normal(par)), |bytes|)))
  {
    MatchingKindsAgree(reg, name, par);
    ParamRoundTrip(reg, name, par);
  }

  /** An entry with a field that is written and decoded differently fails on
      every tree that holds something in that field. */
  lemma MismatchFails(reg: Registry, name: Name, par: Par, i: nat)
    requires Conforms(reg, name, par) && EncodeParam(reg, name, par).Ok? && i < |reg.params[name].fields|
    requires var info := reg.params[name];
             && info.fields[i].name in par.kids && par.kids[info.fields[i].name] != Many([])
             && info.fields[i].multiple != (info.fields[i].name in info.repeated)
    ensures var bytes := EncodeParam(reg, name, par).value;
            DecodeParam(reg, bytes) != Ok(Some(Item(Known(name, Normal(par)), |bytes|)))
  {
    var info := reg.params[name];
    var n := info.fields[i].name;
    assert KidConforms(reg, info.fields, n, par.kids[n]);
    var j :| 0 <= j < |info.fields| && info.fields[j] == FieldSpec(n, par.kids[n].Many?);
    assert i == j;
    ParamRoundTrip(reg, name, par);
  }

  /** Without empty lists the round trip is exact, whatever follows. */
  lemma ExactRoundTrip(reg: Registry, name: Name, par: Par, rest: seq<byte>)
    requires Conforms(reg, name, par) && NoEmptyLists(par) && EncodeParam(reg, name, par).Ok?
    requires KindsAgree(reg, name, par)
    ensures var bytes := EncodeParam(reg, name, par).value;
            DecodeParam(reg, bytes + rest) == Ok(Some(Item(Known(name, par), |bytes|)))
  {
    ParamRoundTrip(reg, name, par);
    NormalIsIdentity(par);
    DecodeParamStable(reg, EncodeParam(reg, name, par).value, rest);
  }

  /** No part of an encoding decodes to a parameter. */
  lemma TruncatedIsRefused(reg: Registry, name: Name, par: Par, n: nat)
    requires Conforms(reg, name, par) && EncodeParam(reg, name, par).Ok? && n < |EncodeParam(reg, name, par).value|
    ensures var r := DecodeParam(reg, EncodeParam(reg, name, par).value[..n]); r.Err? || r.value.None?
  {
    var bytes := EncodeParam(reg, name, par).value;
    ParamReads(reg, name, par);
    assert bytes[..n] + bytes[n..] == bytes;
    if DecodeParam(reg, bytes[..n]).Ok? && DecodeParam(reg, bytes[..n]).value.Some? {
      DecodeParamStable(reg, bytes[..n], bytes[n..]);
      assert false;
    }
  }

  /** With its header complete, what is missing of an encoding is noticed. */
  lemma TruncatedIsNoticed(reg: Registry, name: Name, par: Par, n: nat)
    requires Conforms(reg, name, par) && EncodeParam(reg, name, par).Ok? && n < |EncodeParam(reg, name, par).value|
    requires |EncodeHeader(reg.params[name], |EncodeBody(reg, reg.params[name], par).value|).value| <= n
    ensures DecodeParam(reg, EncodeParam(reg, name, par).value[..n]) == Err(Truncated)
  {
    var info := reg.params[name];
    var body := EncodeBody(reg, info, par).value;
    var header := EncodeHeader(info, |body|).value;
    var bytes := header + body;
    if info.tv {
      PackAllRoundTrip(info.prefix.widths, par.vals);
    }
    HeaderRoundTrip(reg, name, info, body);
    ParamHeaderPrefix(bytes);
    assert bytes[..|header|] == header;
    assert header + bytes[|header|..n] == bytes[..n];
    ParamHeaderStable(header, bytes[|header|..n]);
  }

  // --------------------------------------------------------- the wire order

  /** The bytes of one encoding followed by those of another, or the first error. */
  function Followed(x: Encoded, y: Encoded): Encoded {
    if x.Err? then x else if y.Err? then y else Ok(x.value + y.value)
  }

  /** Fields are written one after another: what comes first in the order
      comes first on the wire, also when it is what fails. */
  lemma {:induction false} EncodeFieldsAppend(reg: Registry, par: Par, a: seq<FieldSpec>, b: seq<FieldSpec>)
    ensures EncodeFields(reg, par, a + b) == Followed(EncodeFields(reg, par, a), EncodeFields(reg, par, b))
    decreases |b|
  {
    if b == [] {
      assert a + b == a;
      assert EncodeFields(reg, par, a).Ok? ==> EncodeFields(reg, par, a).value + [] == EncodeFields(reg, par, a).value;
    } else {
      var n := |b| - 1;
      assert (a + b)[..|a + b| - 1] == a + b[..n] && (a + b)[|a + b| - 1] == b[n];
      EncodeFieldsAppend(reg, par, a, b[..n]);
      FollowedAssociates(EncodeFields(reg, par, a), EncodeFields(reg, par, b[..n]), EncodeField(reg, par, b[n]));
    }
  }

  lemma FollowedAssociates(x: Encoded, y: Encoded, z: Encoded)
    ensures Followed(Followed(x, y), z) == Followed(x, Followed(y, z))
  {
    if x.Ok? && y.Ok? && z.Ok? {
      Associate(x.value, y.value, z.value);
    }
  }

  lemma EncodeFieldsOne(reg: Registry, par: Par, field: FieldSpec)
    ensures EncodeFields(reg, par, [field]) == EncodeField(reg, par, field)
  {
    assert [field][..0] == [];
    var one := EncodeField(reg, par, field);
    assert one.Ok? ==> [] + one.value == one.value;
  }

  /** The children of one repeated field are written in the order of the list. */
  lemma {:induction false} EncodeManyAppend(reg: Registry, name: Name, a: seq<Par>, b: seq<Par>)
    ensures EncodeMany(reg, name, a + b) == Followed(EncodeMany(reg, name, a), EncodeMany(reg, name, b))
    decreases |b|
  {
    if b == [] {
      assert a + b == a;
      assert EncodeMany(reg, name, a).Ok? ==> EncodeMany(reg, name, a).value + [] == EncodeMany(reg, name, a).value;
    } else {
      var n := |b| - 1;
      assert (a + b)[..|a + b| - 1] == a + b[..n] && (a + b)[|a + b| - 1] == b[n];
      EncodeManyAppend(reg, name, a, b[..n]);
      FollowedAssociates(EncodeMany(reg, name, a), EncodeMany(reg, name, b[..n]), EncodeParam(reg, name, b[n]));
    }
  }

  predicate AllNamed(items: seq<Item>, name: Name) {
    forall i | 0 <= i < |items| :: items[i].decoded.Known? && items[i].decoded.name == name
  }

  lemma {:induction false} ManyNamed(reg: Registry, name: Name, pars: seq<Par>)
    requires forall i | 0 <= i < |pars| :: Conforms(reg, name, pars[i])
    requires EncodeMany(reg, name, pars).Ok?
    ensures var items := DecodeItems(reg, EncodeMany(reg, name, pars).value); items.Ok? && AllNamed(items.value, name)
    decreases |pars|
  {
    if pars == [] {
    } else {
      var n := |pars| - 1;
      var b := EncodeParam(reg, name, pars[n]).value;
      ManyNamed(reg, name, pars[..n]);
      ParamReads(reg, name, pars[n]);
      DecodeItemsOne(reg, b);
      DecodeItemsAppend(reg, EncodeMany(reg, name, pars[..n]).value, b);
    }
  }

  /** What one field puts on the wire has the field's name. */
  lemma FieldNamed(reg: Registry, name: Name, par: Par, k: nat)
    requires Conforms(reg, name, par) && k < |reg.params[name].fields|
    requires EncodeField(reg, par, reg.params[name].fields[k]).Ok?
    ensures var field := reg.params[name].fields[k];
            var items := DecodeItems(reg, EncodeField(reg, par, field).value);
            items.Ok? && AllNamed(items.value, field.name)
  {
    var fields := reg.params[name].fields;
    var field := fields[k];
    if field.name in par.kids {
      var kid := par.kids[field.name];
      assert KidConforms(reg, fields, field.name, kid);
      if kid.One? && !field.multiple {
        ParamReads(reg, field.name, kid.par);
        DecodeItemsOne(reg, EncodeParam(reg, field.name, kid.par).value);
      } else if kid.Many? {
        ManyNamed(reg, field.name, kid.pars);
      }
    }
  }

  /** The items are of these fields, in the order of the fields. */
  ghost predicate InFieldOrder(items: seq<Item>, fields: seq<FieldSpec>) {
    exists at: seq<nat> :: IsPlacement(at, items, fields)
  }

  /** `at` gives the field of each item. */
  ghost predicate IsPlacement(at: seq<nat>, items: seq<Item>, fields: seq<FieldSpec>) {
    && |at| == |items|
    && (forall i | 0 <= i < |items| ::
          at[i] < |fields| && items[i].decoded.Known? && items[i].decoded.name == fields[at[i]].name)
    && (forall i, j | 0 <= i < j < |at| :: at[i] <= at[j])
  }

  lemma {:induction false} FieldsInOrder(reg: Registry, name: Name, par: Par, k: nat) returns (at: seq<nat>)
    requires Conforms(reg, name, par) && k <= |reg.params[name].fields|
    requires EncodeFields(reg, par, reg.params[name].fields[..k]).Ok?
    ensures var fields := reg.params[name].fields[..k];
            var items := DecodeItems(reg, EncodeFields(reg, par, fields).value);
            items.Ok? && IsPlacement(at, items.value, fields)
    decreases k
  {
    var fields := reg.params[name].fields[..k];
    if k == 0 {
      at := [];
    } else {
      var before, field := fields[..k - 1], fields[k - 1];
      assert before == reg.params[name].fields[..k - 1];
      var a, b := EncodeFields(reg, par, before).value, EncodeField(reg, par, field).value;
      var front := FieldsInOrder(reg, name, par, k - 1);
      FieldNamed(reg, name, par, k - 1);
      DecodeItemsAppend(reg, a, b);
      at := front + seq(|DecodeItems(reg, b).value|, _ => k - 1);
      PlacementGrows(front, DecodeItems(reg, a).value, DecodeItems(reg, b).value, fields);
    }
  }

  lemma PlacementGrows(front: seq<nat>, a: seq<Item>, b: seq<Item>, fields: seq<FieldSpec>)
    requires fields != [] && IsPlacement(front, a, fields[..|fields| - 1]) && AllNamed(b, fields[|fields| - 1].name)
    ensures IsPlacement(front + seq(|b|, _ => |fields| - 1), a + b, fields)
  {
    var at := front + seq(|b|, _ => |fields| - 1);
    forall i | 0 <= i < |a + b|
      ensures at[i] < |fields| && (a + b)[i].decoded.Known? && (a + b)[i].decoded.name == fields[at[i]].name
    {
      if i < |a| {
        assert (a + b)[i] == a[i] && at[i] == front[i];
        assert fields[..|fields| - 1][front[i]] == fields[front[i]];
      } else {
        assert (a + b)[i] == b[i - |a|];
      }
    }
    assert forall i | 0 <= i < |front| :: at[i] == front[i];
    assert forall i | |front| <= i < |at| :: at[i] == |fields| - 1;
  }

  /** Wire order: after its fixed part, an encoded parameter holds its children
      in the order of the registry's fields. */
  lemma ChildrenInOrder(reg: Registry, name: Name, par: Par)
    requires Conforms(reg, name, par) && reg.params[name].auto && EncodeBody(reg, reg.params[name], par).Ok?
    ensures var info := reg.params[name];
            var body := EncodeBody(reg, info, par).value;
            var prefix := EncodePrefix(info.prefix, par.vals);
            && prefix.Ok? && prefix.value <= body
            && var items := DecodeItems(reg, body[|prefix.value|..]);
            items.Ok? && InFieldOrder(items.value, info.fields)
  {
    var info := reg.params[name];
    var prefix := EncodePrefix(info.prefix, par.vals).value;
    var children := EncodeFields(reg, par, info.fields).value;
    assert info.fields[..|info.fields|] == info.fields;
    var at := FieldsInOrder(reg, name, par, |info.fields|);
    assert (prefix + children)[|prefix|..] == children;
    assert IsPlacement(at, DecodeItems(reg, children).value, info.fields);
  }

  // ------------------------------------------------------ bytes of fixed fields

  /** Fixed fields are written in the order of their declaration. */
  lemma {:induction false} PackAllAppend(w1: seq<nat>, v1: seq<nat>, w2: seq<nat>, v2: seq<nat>)
    requires PackAll(w1, v1).Ok? && PackAll(w2, v2).Ok?
    ensures PackAll(w1 + w2, v1 + v2) == Ok(PackAll(w1, v1).value + PackAll(w2, v2).value)
    decreases |w1|
  {
    if w1 == [] {
      assert w1 + w2 == w2 && v1 + v2 == v2;
      assert [] + PackAll(w2, v2).value == PackAll(w2, v2).value;
    } else {
      assert (w1 + w2)[1..] == w1[1..] + w2 && (v1 + v2)[1..] == v1[1..] + v2;
      PackAllAppend(w1[1..], v1[1..], w2, v2);
      Associate(Pack(v1[0], w1[0]), PackAll(w1[1..], v1[1..]).value, PackAll(w2, v2).value);
    }
  }

  lemma PackAllOne(w: nat, v: nat)
    requires v < Pow256(w)
    ensures PackAll([w], [v]) == Ok(Pack(v, w))
  {
    assert [w][1..] == [] && [v][1..] == [];
    assert Pack(v, w) + [] == Pack(v, w);
  }

  /** The fields of each TV parameter, in bytes. */
  function TvWidths(parType: nat): seq<nat> {
    match parType
    case 1 => [2]            // AntennaID
    case 2 | 3 | 4 | 5 => [8] // the four timestamps
    case 6 => [1]            // PeakRSSI
    case 7 => [2]            // ChannelIndex
    case 8 => [2]            // TagSeenCount
    case 9 => [4]            // ROSpecID
    case 10 => [2]           // InventoryParameterSpecID
    case 11 => [2]           // C1G2CRC
    case 12 => [2]           // C1G2PC
    case 13 => [12]          // EPC-96
    case 14 => [2]           // SpecIndex
    case 15 => [2]           // ClientRequestOpSpecResult
    case 16 => [4]           // AccessSpecID
    case 17 => [2]           // OpSpecID
    case 18 => [2, 2]        // C1G2SingulationDetails
    case 19 => [2]           // C1G2XPCW1
    case 20 => [2]           // C1G2XPCW2
    case _ => []
  }

  lemma TvSizes(parType: nat)
    ensures TvBodySize(parType) == Sum(TvWidths(parType))
    ensures TvBodySize(parType) > 0 <==> 1 <= parType <= 20
  {
    var ws := TvWidths(parType);
    if |ws| == 1 {
      SumOne(ws[0]);
      assert ws == [ws[0]];
    } else if |ws| == 2 {
      SumOne(ws[1]);
      assert ws[1..] == [ws[1]];
    }
  }

  lemma SumOne(w: nat)
    ensures Sum([w]) == w
  {
    assert [w][1..] == [];
  }

  /** The bytes of a parameter header. */
  lemma ParamHeaderBytes(info: Info, size: nat)
    requires EncodeHeader(info, size).Ok?
    ensures var header, id := EncodeHeader(info, size).value, info.ident;
            if info.tv then header == [128 + id.parType]
            else
              && |header| == (if id.parType == TYPE_CUSTOM then 12 else 4)
              && Short(header[0], header[1]) == id.parType && Short(header[2], header[3]) == |header| + size
              && (id.parType == TYPE_CUSTOM ==>
                    Unpack(header[4..8]) == id.vendorId && Unpack(header[8..12]) == id.subtype)
  {
    if !info.tv {
      var header, id := EncodeHeader(info, size).value, info.ident;
      Widths();
      assert header[..2] == Pack(id.parType, 2) && header[2..4] == Pack(|header| + size, 2);
      ShortBytes(id.parType, |header| + size, header);
      if id.parType == TYPE_CUSTOM {
        UnpackPack(id.vendorId, 4);
        UnpackPack(id.subtype, 4);
        assert header[4..8] == Pack(id.vendorId, 4) && header[8..12] == Pack(id.subtype, 4);
      }
    }
  }

  lemma ShortBytes(first: nat, second: nat, header: seq<byte>)
    requires first < Pow256(2) && second < Pow256(2) && |header| >= 4
    requires header[..2] == Pack(first, 2) && header[2..4] == Pack(second, 2)
    ensures Short(header[0], header[1]) == first && Short(header[2], header[3]) == second
  {
    UnpackPack(first, 2);
    UnpackPack(second, 2);
    TwoBytes(header[0], header[1]);
    TwoBytes(header[2], header[3]);
    assert header[..2] == [header[0], header[1]] && header[2..4] == [header[2], header[3]];
  }

  /** A parameter that the registry does not know, or cannot decode, is kept
      with its identity and its bytes, among the errors and in its place; it
      disturbs nothing else. */
  lemma UnknownIsKept(reg: Registry, id: Ident, body: seq<byte>, rest: seq<byte>, acc: Par, repeated: set<Name>)
    requires 0 < id.parType < 1024 && (id.parType != TYPE_CUSTOM ==> id.vendorId == 0 && id.subtype == 0)
    requires EncodeHeader(Unlisted(id), |body|).Ok? && DecodeItems(reg, rest).Ok?
    requires id !in reg.names || reg.names[id] !in reg.params || !reg.params[reg.names[id]].hasDecoder
    ensures var data := EncodeHeader(Unlisted(id), |body|).value + body + rest;
            var name := if id in reg.names && reg.names[id] in reg.params then reg.names[id] else "";
            && DecodeItems(reg, data).Ok?
            && Collect(acc, DecodeItems(reg, data).value, repeated) ==
               Collect(acc.(errors := acc.errors + [Unknown(name, id, body)]), DecodeItems(reg, rest).value, repeated)
  {
    var header := EncodeHeader(Unlisted(id), |body|).value;
    var name := if id in reg.names && reg.names[id] in reg.params then reg.names[id] else "";
    TlvRecognised(id, body);
    assert (header + body)[|header|..|header + body|] == body;
    var item := Item(Undecoded(Unknown(name, id, body)), |header + body|);
    assert DecodeParam(reg, header + body) == Ok(Some(item));
    DecodeItemsOne(reg, header + body);
    DecodeItemsAppend(reg, header + body, rest);
    CollectAppend(acc, [item], DecodeItems(reg, rest).value, repeated);
    CollectOne(acc, item, repeated);
  }

  /** An entry that only has an identity. */
  function Unlisted(id: Ident): Info {
    Info(id, false, Fixed([]), false, [], {}, false, false)
  }

  lemma TlvRecognised(id: Ident, body: seq<byte>)
    requires 0 < id.parType < 1024 && (id.parType != TYPE_CUSTOM ==> id.vendorId == 0 && id.subtype == 0)
    requires EncodeHeader(Unlisted(id), |body|).Ok?
    ensures var header := EncodeHeader(Unlisted(id), |body|).value;
            ParamHeaderDecode(header + body) ==
            Ok(Some(ParamHeader(id.parType, id.vendorId, id.subtype, |header|, |header + body|)))
  {
    var reg := Registry(map["" := Unlisted(id)], map[id := ""]);
    HeaderRoundTrip(reg, "", Unlisted(id), body);
  }
}
