/**
 The loops of the codec as the program runs them, proved against the
 specification functions of module Codec, and the post-processing that derives
 an entry's wire order from its declaration.
 */
module CodecLoops {
  import opened Prelude
  import opened Bytes
  import opened Codec
  import CodecRoundTrip

  /** A dictionary with all the parameters in `data` added, or the first error. */
  function DecodeInto(reg: Registry, acc: Par, data: seq<byte>, repeated: set<Name>): Result<Par, CodecError> {
    var items :- DecodeItems(reg, data);
    Ok(Collect(acc, items, repeated))
  }

  /** decode_all_parameters: one parameter after another into a dictionary. */
  method DecodeAllParameters(reg: Registry, data: seq<byte>, par: Par, repeated: set<Name>)
    returns (r: Result<Par, CodecError>)
    ensures r == DecodeInto(reg, par, data, repeated)
  {
    var acc, startPos := par, 0;
    assert data[0..] == data;
    while startPos < |data|
      invariant 0 <= startPos <= |data|
      invariant DecodeInto(reg, acc, data[startPos..], repeated) == DecodeInto(reg, par, data, repeated)
    {
      ghost var tail := data[startPos..];
      DecodeIntoStep(reg, acc, tail, repeated);
      var first := DecodeParam(reg, data[startPos..]);
      if first.Err? {
        return Err(first.error);
      }
      if first.value.None? {
        return Err(InvalidStream);
      }
      var item := first.value.value;
      assert tail[item.size..] == data[startPos + item.size..];
      acc := AddItem(acc, item, repeated);
      startPos := startPos + item.size;
    }
    assert data[startPos..] == [];
    r := Ok(acc);
  }

  lemma DecodeIntoStep(reg: Registry, acc: Par, data: seq<byte>, repeated: set<Name>)
    requires data != []
    ensures var first := DecodeParam(reg, data);
            DecodeInto(reg, acc, data, repeated) ==
            if first.Err? then Err(first.error)
            else if first.value.None? then Err(InvalidStream)
            else DecodeInto(reg, AddItem(acc, first.value.value, repeated), data[first.value.value.size..], repeated)
  {
    var first := DecodeParam(reg, data);
    if first.Ok? && first.value.Some? {
      var rest := DecodeItems(reg, data[first.value.value.size..]);
      if rest.Ok? {
        assert ([first.value.value] + rest.value)[1..] == rest.value;
      }
    }
  }

  /** encode_all_parameters: the fields of an entry in wire order. */
  method EncodeAllParameters(reg: Registry, par: Par, fields: seq<FieldSpec>, packed: seq<byte>)
    returns (r: Encoded)
    ensures EncodeFields(reg, par, fields).Ok? ==> r == Ok(packed + EncodeFields(reg, par, fields).value)
    ensures EncodeFields(reg, par, fields).Err? ==> r == Err(EncodeFields(reg, par, fields).error)
  {
    var data := packed;
    assert packed + [] == packed;
    for k := 0 to |fields|
      invariant EncodeFields(reg, par, fields[..k]).Ok? && data == packed + EncodeFields(reg, par, fields[..k]).value
    {
      assert fields[..k + 1][..k] == fields[..k];
      var bytes := EncodeField(reg, par, fields[k]);
      if bytes.Err? {
        FirstErrorStays(reg, par, fields, k + 1);
        return Err(bytes.error);
      }
      ghost var before := EncodeFields(reg, par, fields[..k]).value;
      assert packed + before + bytes.value == packed + (before + bytes.value);
      data := data + bytes.value;
    }
    assert fields[..|fields|] == fields;
    r := Ok(data);
  }

  lemma {:induction false} FirstErrorStays(reg: Registry, par: Par, fields: seq<FieldSpec>, k: nat)
    requires k <= |fields| && EncodeFields(reg, par, fields[..k]).Err?
    ensures EncodeFields(reg, par, fields) == Err(EncodeFields(reg, par, fields[..k]).error)
    decreases |fields|
  {
    if k == |fields| {
      assert fields[..k] == fields;
    } else {
      var n := |fields| - 1;
      assert fields[..n][..k] == fields[..k];
      FirstErrorStays(reg, par, fields[..n], k);
    }
  }

  /** The flag loop of encode_TagReportContentSelector: bit 15 downwards. */
  method EncodeFlagWord(vals: seq<nat>) returns (flags: nat)
    requires |vals| <= 16
    ensures flags == FlagWord(vals) && flags < 65536
  {
    flags := 0;
    var i := 15;
    for k := 0 to |vals|
      invariant i == 15 - k
      invariant flags == FlagWord(vals[..k])
    {
      assert vals[..k + 1][..k] == vals[..k];
      if vals[k] != 0 {
        flags := flags + Pow2(i);
      }
      i := i - 1;
    }
    assert vals[..|vals|] == vals;
    CodecRoundTrip.FlagWordFits(vals);
  }

  // -------------------------------------------------- registry post-processing

  /** The names of `more` that are not in `fields`, in order. */
  function NotIn(more: seq<Name>, fields: seq<Name>): seq<Name> {
    if more == [] then []
    else
      var n := |more| - 1;
      NotIn(more[..n], fields) + if more[n] in fields then [] else [more[n]]
  }

  /** The declared names, then the others. */
  function Extended(fields: seq<Name>, more: seq<Name>): seq<Name> {
    fields + NotIn(more, fields)
  }

  /** The wire order of the names that are optional or repeated. */
  function WireOrder(all: seq<Name>, optional: seq<Name>, lists: seq<Name>): seq<FieldSpec> {
    if all == [] then []
    else
      var n := |all| - 1;
      WireOrder(all[..n], optional, lists)
      + if all[n] in optional || all[n] in lists then [FieldSpec(all[n], all[n] !in optional)] else []
  }

  /** `fields.extend(...)` with the names that are missing. */
  method ExtendFields(fields: seq<Name>, more: seq<Name>) returns (all: seq<Name>)
    ensures all == Extended(fields, more)
  {
    all := fields;
    for k := 0 to |more|
      invariant all == fields + NotIn(more[..k], fields)
    {
      assert more[..k + 1][..k] == more[..k];
      if more[k] !in fields {
        all := all + [more[k]];
      }
    }
    assert more[..|more|] == more;
  }

  /** The post-processing of one entry. */
  method BuildAutoFields(fields: seq<Name>, optional: seq<Name>, repeated: seq<Name>)
    returns (order: seq<FieldSpec>, lists: seq<Name>)
    ensures lists == repeated + ["CustomParameter"]
    ensures order == WireOrder(Extended(Extended(fields, optional), lists), optional, lists)
  {
    lists := repeated + ["CustomParameter"];
    var all := ExtendFields(fields, optional);
    all := ExtendFields(all, lists);
    order := [];
    for k := 0 to |all|
      invariant order == WireOrder(all[..k], optional, lists)
    {
      assert all[..k + 1][..k] == all[..k];
      var entry := all[k];
      if entry in optional {
        order := order + [FieldSpec(entry, false)];
      } else if entry in lists {
        order := order + [FieldSpec(entry, true)];
      }
    }
    assert all[..|all|] == all;
  }

  predicate Placed(order: seq<FieldSpec>, f: FieldSpec) {
    exists i :: 0 <= i < |order| && order[i] == f
  }

  lemma PlacedAppends(a: seq<FieldSpec>, b: seq<FieldSpec>, f: FieldSpec)
    ensures Placed(a + b, f) <==> Placed(a, f) || Placed(b, f)
  {
    if Placed(a, f) {
      var i :| 0 <= i < |a| && a[i] == f;
      assert (a + b)[i] == f;
    }
    if Placed(b, f) {
      var i :| 0 <= i < |b| && b[i] == f;
      assert (a + b)[|a| + i] == f;
    }
  }

  /** What has a place in the wire order, and of what kind. */
  lemma {:induction false} WireOrderPlaces(all: seq<Name>, optional: seq<Name>, lists: seq<Name>, f: FieldSpec)
    ensures Placed(WireOrder(all, optional, lists), f) <==>
            f.name in all && (f.name in optional || f.name in lists) && (f.multiple <==> f.name !in optional)
  {
    if all == [] {
    } else {
      var n := |all| - 1;
      var last := if all[n] in optional || all[n] in lists then [FieldSpec(all[n], all[n] !in optional)] else [];
      WireOrderPlaces(all[..n], optional, lists, f);
      PlacedAppends(WireOrder(all[..n], optional, lists), last, f);
      assert Placed(last, f) <==> last != [] && last[0] == f;
      assert f.name in all <==> f.name in all[..n] || f.name == all[n];
    }
  }

  lemma {:induction false} NotInElements(more: seq<Name>, fields: seq<Name>, x: Name)
    ensures x in NotIn(more, fields) <==> x in more && x !in fields
  {
    if more == [] {
    } else {
      var n := |more| - 1;
      NotInElements(more[..n], fields, x);
      assert x in more <==> x in more[..n] || x == more[n];
    }
  }

  /** The wire order of an entry, whatever its declaration repeats: exactly
      the optional and the repeated names are in it, as a list exactly when
      not optional. */
  lemma AutoFieldsPlace(fields: seq<Name>, optional: seq<Name>, repeated: seq<Name>, f: FieldSpec)
    ensures var lists := repeated + ["CustomParameter"];
            Placed(WireOrder(Extended(Extended(fields, optional), lists), optional, lists), f) <==>
            (f.name in optional || f.name in lists) && (f.multiple <==> f.name !in optional)
  {
    var lists := repeated + ["CustomParameter"];
    var all := Extended(Extended(fields, optional), lists);
    NotInElements(optional, fields, f.name);
    NotInElements(lists, Extended(fields, optional), f.name);
    WireOrderPlaces(all, optional, lists, f);
  }

  /** So every field of an entry is encoded as it is decoded exactly when no
      name is declared both optional and repeated. */
  lemma AutoFieldsMatch(fields: seq<Name>, optional: seq<Name>, repeated: seq<Name>, info: Info)
    requires var lists := repeated + ["CustomParameter"];
             && info.fields == WireOrder(Extended(Extended(fields, optional), lists), optional, lists)
             && forall x :: x in info.repeated <==> x in lists
    ensures CodecRoundTrip.KindsMatch(info) <==> forall x | x in optional :: x !in repeated && x != "CustomParameter"
  {
    var lists := repeated + ["CustomParameter"];
    forall f: FieldSpec
      ensures Placed(info.fields, f) <==>
              (f.name in optional || f.name in lists) && (f.multiple <==> f.name !in optional)
    {
      AutoFieldsPlace(fields, optional, repeated, f);
    }
    if forall x | x in optional :: x !in repeated && x != "CustomParameter" {
      forall i | 0 <= i < |info.fields|
        ensures info.fields[i].multiple <==> info.fields[i].name in info.repeated
      {
        assert Placed(info.fields, info.fields[i]);
      }
    } else {
      var x :| x in optional && (x in repeated || x == "CustomParameter");
      assert Placed(info.fields, FieldSpec(x, false));
      var i :| 0 <= i < |info.fields| && info.fields[i] == FieldSpec(x, false);
      assert !info.fields[i].multiple && info.fields[i].name in info.repeated;
    }
  }

  predicate Distinct(names: seq<Name>) {
    forall i, j | 0 <= i < j < |names| :: names[i] != names[j]
  }

  predicate OnePlaceEach(order: seq<FieldSpec>) {
    forall i, j | 0 <= i < j < |order| :: order[i].name != order[j].name
  }

  lemma {:induction false} NotInDistinct(more: seq<Name>, fields: seq<Name>)
    requires Distinct(more)
    ensures Distinct(NotIn(more, fields))
  {
    if more == [] {
    } else {
      var n := |more| - 1;
      NotInDistinct(more[..n], fields);
      NotInElements(more[..n], fields, more[n]);
      assert more[n] !in more[..n];
    }
  }

  lemma ExtendedDistinct(fields: seq<Name>, more: seq<Name>)
    requires Distinct(fields) && Distinct(more)
    ensures Distinct(Extended(fields, more))
  {
    var rest := NotIn(more, fields);
    NotInDistinct(more, fields);
    forall i, j | 0 <= i < |fields| && 0 <= j < |rest|
      ensures fields[i] != rest[j]
    {
      assert rest[j] in rest;
      NotInElements(more, fields, rest[j]);
    }
    assert forall k | |fields| <= k < |fields| + |rest| :: Extended(fields, more)[k] == rest[k - |fields|];
  }

  lemma {:induction false} WireOrderDistinct(all: seq<Name>, optional: seq<Name>, lists: seq<Name>)
    requires Distinct(all)
    ensures OnePlaceEach(WireOrder(all, optional, lists))
  {
    if all == [] {
    } else {
      var n := |all| - 1;
      var before := WireOrder(all[..n], optional, lists);
      WireOrderDistinct(all[..n], optional, lists);
      forall i | 0 <= i < |before|
        ensures before[i].name != all[n]
      {
        assert Placed(before, before[i]);
        WireOrderPlaces(all[..n], optional, lists, before[i]);
        assert all[n] !in all[..n];
      }
      var order := WireOrder(all, optional, lists);
      var last := if all[n] in optional || all[n] in lists then [FieldSpec(all[n], all[n] !in optional)] else [];
      assert order == before + last && |last| <= 1;
      forall i, j | 0 <= i < j < |order|
        ensures order[i].name != order[j].name
      {
        assert order[i] == before[i];
        if j < |before| {
          assert order[j] == before[j];
          assert before[i].name != before[j].name;
        } else {
          assert j == |before| && order[j] == last[0];
        }
      }
    }
  }

  /** Without repetitions in the declaration each name has one place. */
  lemma AutoFieldsDistinct(fields: seq<Name>, optional: seq<Name>, repeated: seq<Name>)
    requires Distinct(fields) && Distinct(optional) && Distinct(repeated + ["CustomParameter"])
    ensures var lists := repeated + ["CustomParameter"];
            OnePlaceEach(WireOrder(Extended(Extended(fields, optional), lists), optional, lists))
  {
    var lists := repeated + ["CustomParameter"];
    ExtendedDistinct(fields, optional);
    ExtendedDistinct(Extended(fields, optional), lists);
    WireOrderDistinct(Extended(Extended(fields, optional), lists), optional, lists);
  }

  lemma {:induction false} WireOrderAppend(a: seq<Name>, b: seq<Name>, optional: seq<Name>, lists: seq<Name>)
    ensures WireOrder(a + b, optional, lists) == WireOrder(a, optional, lists) + WireOrder(b, optional, lists)
    decreases |b|
  {
    if b == [] {
      assert a + b == a;
    } else {
      var n := |b| - 1;
      assert (a + b)[..|a + b| - 1] == a + b[..n] && (a + b)[|a + b| - 1] == b[n];
      WireOrderAppend(a, b[..n], optional, lists);
    }
  }

  lemma {:induction false} NotInAppend(a: seq<Name>, b: seq<Name>, fields: seq<Name>)
    ensures NotIn(a + b, fields) == NotIn(a, fields) + NotIn(b, fields)
    decreases |b|
  {
    if b == [] {
      assert a + b == a;
    } else {
      var n := |b| - 1;
      assert (a + b)[..|a + b| - 1] == a + b[..n] && (a + b)[|a + b| - 1] == b[n];
      NotInAppend(a, b[..n], fields);
    }
  }

  /** The wire order keeps the declared order, and what is not declared comes
      after it: the optional names first, then the repeated ones. */
  lemma AutoFieldsOrder(fields: seq<Name>, optional: seq<Name>, repeated: seq<Name>)
    ensures var lists := repeated + ["CustomParameter"];
            WireOrder(Extended(Extended(fields, optional), lists), optional, lists) ==
            WireOrder(fields, optional, lists)
            + WireOrder(NotIn(optional, fields), optional, lists)
            + WireOrder(NotIn(lists, fields + NotIn(optional, fields)), optional, lists)
  {
    var lists := repeated + ["CustomParameter"];
    var more := NotIn(optional, fields);
    WireOrderAppend(fields + more, NotIn(lists, fields + more), optional, lists);
    WireOrderAppend(fields, more, optional, lists);
  }

  /** Of two names in the order, the earlier one is written first. */
  lemma EarlierIsFirst(a: seq<Name>, x: Name, b: seq<Name>, y: Name, c: seq<Name>,
                       optional: seq<Name>, lists: seq<Name>)
    requires (x in optional || x in lists) && (y in optional || y in lists)
    ensures var order := WireOrder(a + [x] + b + [y] + c, optional, lists);
            exists i, j :: 0 <= i < j < |order| && order[i].name == x && order[j].name == y
  {
    var p, q := WireOrder(a, optional, lists), WireOrder(b, optional, lists);
    WireOrderAppend(a + [x] + b + [y], c, optional, lists);
    WireOrderAppend(a + [x] + b, [y], optional, lists);
    WireOrderAppend(a + [x], b, optional, lists);
    WireOrderAppend(a, [x], optional, lists);
    assert [x][..0] == [] && [y][..0] == [];
    var order := WireOrder(a + [x] + b + [y] + c, optional, lists);
    assert order[|p|].name == x && order[|p| + 1 + |q|].name == y;
  }
}
