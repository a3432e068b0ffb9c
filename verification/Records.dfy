/** The record codec: fixed-size fields in front, then texts with a varint length, read in place
    by a decoder that moves an offset. */
module Records {
  import opened Bytes
  import opened Words
  import opened Addresses

  type Text = seq<Byte>

  /** What a read at an offset gives: a value and the offset behind it. */
  datatype Read<+T> = Fail | Got(value: T, offset: nat)

  function TakeAt(v: seq<Byte>, o: nat, size: nat): Read<seq<Byte>> {
    if o + size > |v| then Fail else Got(v[o..o + size], o + size)
  }

  // ---------- varints ----------

  const MAX_VARINT := 10

  /** A base-128 number, least significant digits first; the tenth byte may only be 0 or 1. */
  function UvarintAt(v: seq<Byte>, o: nat, i: nat): Read<nat>
    decreases |v| - o
  {
    if o >= |v| || i >= MAX_VARINT then Fail
    else if v[o] < 128 then (if i == MAX_VARINT - 1 && v[o] > 1 then Fail else Got(v[o], o + 1))
    else
      match UvarintAt(v, o + 1, i + 1)
      case Fail => Fail
      case Got(x, next) => Got(v[o] - 128 + 128 * x, next)
  }

  function EncodeUvarint(n: nat): (bs: seq<Byte>)
    ensures bs != []
  {
    if n < 128 then [n] else [128 + n % 128] + EncodeUvarint(n / 128)
  }

  /** bs stands at offset o. */
  ghost predicate At(v: seq<Byte>, o: nat, bs: seq<Byte>) {
    o + |bs| <= |v| && forall i :: 0 <= i < |bs| ==> v[o + i] == bs[i]
  }

  lemma AtParts(v: seq<Byte>, o: nat, a: seq<Byte>, b: seq<Byte>)
    requires true == At(v, o, a + b)
    ensures true == At(v, o, a) && true == At(v, o + |a|, b)
  {
    var c := a + b;
    forall i | 0 <= i < |a|
      ensures v[o + i] == a[i]
    {
      assert c[i] == a[i];
    }
    forall i | 0 <= i < |b|
      ensures v[o + |a| + i] == b[i]
    {
      assert c[|a| + i] == b[i];
    }
  }

  lemma AtTaken(v: seq<Byte>, o: nat, bs: seq<Byte>)
    requires At(v, o, bs)
    ensures TakeAt(v, o, |bs|) == Got(bs, o + |bs|)
  {
    assert v[o..o + |bs|] == bs;
  }

  /** Every 64-bit number comes back, with the offset behind it. */
  lemma {:induction false} UvarintRoundTrip(v: seq<Byte>, o: nat, i: nat, n: nat)
    requires i < MAX_VARINT && n < Pow2(64 - 7 * i) && At(v, o, EncodeUvarint(n))
    ensures UvarintAt(v, o, i) == Got(n, o + |EncodeUvarint(n)|)
    decreases n
  {
    var bs := EncodeUvarint(n);
    assert v[o + 0] == bs[0];
    if i == MAX_VARINT - 1 {
      assert Pow2(64 - 7 * i) == Pow2(1) == 2;
    }
    if n >= 128 {
      Pow2Add(7, 57 - 7 * i);
      assert Pow2(7) == 128;
      assert bs == [bs[0]] + EncodeUvarint(n / 128);
      AtParts(v, o, [bs[0]], EncodeUvarint(n / 128));
      UvarintRoundTrip(v, o + 1, i + 1, n / 128);
    }
  }

  /** The loop that reads a varint. */
  method ReadUvarint(v: seq<Byte>, o: nat) returns (r: Read<nat>)
    requires o <= |v|
    ensures r == UvarintAt(v, o, 0)
  {
    var x: nat, scale: nat, i := 0, 1, 0;
    while o + i < |v|
      invariant o + i <= |v| && i <= MAX_VARINT
      invariant match UvarintAt(v, o + i, i)
        case Fail => UvarintAt(v, o, 0).Fail?
        case Got(rest, next) => UvarintAt(v, o, 0) == Got(x + scale * rest, next)
      decreases |v| - o - i
    {
      if i == MAX_VARINT {
        return Fail;
      }
      var b := v[o + i];
      if b < 128 {
        if i == MAX_VARINT - 1 && b > 1 {
          return Fail;
        }
        return Got(x + scale * b, o + i + 1);
      }
      NextDigit(x, scale, b - 128, UvarintAt(v, o + i + 1, i + 1));
      x, scale, i := x + scale * (b - 128), scale * 128, i + 1;
    }
    return Fail;
  }

  lemma NextDigit(x: nat, scale: nat, digit: nat, rest: Read<nat>)
    ensures scale * digit >= 0
    ensures rest.Got? ==> x + scale * (digit + 128 * rest.value) == (x + scale * digit) + (scale * 128) * rest.value
  {
  }

  // ---------- texts ----------

  function TextAt(v: seq<Byte>, o: nat): Read<Text> {
    match UvarintAt(v, o, 0)
    case Fail => Fail
    case Got(length, next) => TakeAt(v, next, length)
  }

  function EncodeText(t: Text): seq<Byte> {
    EncodeUvarint(|t|) + t
  }

  /** A text's length fits a machine integer. */
  ghost predicate FitsText(t: Text) {
    |t| < Pow2(63)
  }

  lemma TextRoundTrip(v: seq<Byte>, o: nat, t: Text)
    requires FitsText(t) && At(v, o, EncodeText(t))
    ensures TextAt(v, o) == Got(t, o + |EncodeText(t)|)
  {
    AtParts(v, o, EncodeUvarint(|t|), t);
    Pow2Monotone(63, 64);
    UvarintRoundTrip(v, o, 0, |t|);
    AtTaken(v, o + |EncodeUvarint(|t|)|, t);
  }

  function TextsAt(v: seq<Byte>, o: nat, n: nat): Read<seq<Text>>
    decreases n
  {
    if n == 0 then Got([], o) else
      match TextAt(v, o)
      case Fail => Fail
      case Got(t, next) =>
        match TextsAt(v, next, n - 1)
        case Fail => Fail
        case Got(ts, last) => Got([t] + ts, last)
  }

  function EncodeTexts(ts: seq<Text>): seq<Byte>
    decreases |ts|
  {
    if ts == [] then [] else EncodeText(ts[0]) + EncodeTexts(ts[1..])
  }

  lemma TextsCons(v: seq<Byte>, o: nat, first: Text, next: nat, rest: seq<Text>, last: nat)
    requires TextAt(v, o) == Got(first, next) && TextsAt(v, next, |rest|) == Got(rest, last)
    ensures TextsAt(v, o, |rest| + 1) == Got([first] + rest, last)
  {
  }

  lemma TextsSplit(ts: seq<Text>)
    requires ts != []
    ensures ts == [ts[0]] + ts[1..] && EncodeTexts(ts) == EncodeText(ts[0]) + EncodeTexts(ts[1..])
  {
  }

  lemma {:induction false} TextsRoundTrip(v: seq<Byte>, o: nat, ts: seq<Text>)
    requires (forall i :: 0 <= i < |ts| ==> FitsText(ts[i])) && true == At(v, o, EncodeTexts(ts)) && o <= |v|
    ensures TextsAt(v, o, |ts|) == Got(ts, o + |EncodeTexts(ts)|)
    decreases |ts|, 0
  {
    if ts != [] {
      TextsSplit(ts);
      TextsStep(v, o, ts[0], ts[1..]);
    }
  }

  lemma {:induction false} TextsStep(v: seq<Byte>, o: nat, first: Text, rest: seq<Text>)
    requires FitsText(first) && (forall i :: 0 <= i < |rest| ==> FitsText(rest[i]))
    requires true == At(v, o, EncodeText(first) + EncodeTexts(rest))
    ensures TextsAt(v, o, 1 + |rest|) == Got([first] + rest, o + |EncodeText(first) + EncodeTexts(rest)|)
    decreases |rest|, 1
  {
    AtParts(v, o, EncodeText(first), EncodeTexts(rest));
    TextRoundTrip(v, o, first);
    TextsRoundTrip(v, o + |EncodeText(first)|, rest);
    TextsCons(v, o, first, o + |EncodeText(first)|, rest, o + |EncodeText(first)| + |EncodeTexts(rest)|);
  }

  // ---------- records ----------

  /** The fixed-size fields as bytes, and the texts. */
  datatype Raw = Raw(header: seq<Byte>, texts: seq<Text>)

  function Encode(r: Raw): seq<Byte> {
    r.header + EncodeTexts(r.texts)
  }

  /** Nothing may be left over. */
  function Done<T>(v: seq<Byte>, r: Read<T>): Option<T> {
    if r.Fail? || r.offset != |v| then None else Some(r.value)
  }

  function Decode(v: seq<Byte>, headerSize: nat, n: nat): Option<Raw> {
    if headerSize > |v| then None else
      var ts := Done(v, TextsAt(v, headerSize, n));
      if ts.None? then None else Some(Raw(v[..headerSize], ts.value))
  }

  ghost predicate FitsRaw(r: Raw) {
    forall i :: 0 <= i < |r.texts| ==> FitsText(r.texts[i])
  }

  /** Decoding inverts encoding. */
  lemma DecodesEncoded(r: Raw)
    requires FitsRaw(r)
    ensures Decode(Encode(r), |r.header|, |r.texts|) == Some(r)
  {
    var v := Encode(r);
    AtParts(v, 0, r.header, EncodeTexts(r.texts));
    TextsRoundTrip(v, |r.header|, r.texts);
  }

  // ---------- partial decoders ----------

  /** A partial decoder passes over some texts and leaves them empty. */
  function KeptAt(v: seq<Byte>, o: nat, keep: seq<bool>): Read<seq<Text>>
    decreases |keep|
  {
    if keep == [] then Got([], o) else
      match TextAt(v, o)
      case Fail => Fail
      case Got(t, next) =>
        match KeptAt(v, next, keep[1..])
        case Fail => Fail
        case Got(ts, last) => Got([if keep[0] then t else []] + ts, last)
  }

  function DecodeKept(v: seq<Byte>, headerSize: nat, keep: seq<bool>): Option<Raw> {
    if headerSize > |v| then None else
      var ts := Done(v, KeptAt(v, headerSize, keep));
      if ts.None? then None else Some(Raw(v[..headerSize], ts.value))
  }

  function Masked(ts: seq<Text>, keep: seq<bool>): seq<Text>
    requires |ts| == |keep|
    decreases |ts|
  {
    if ts == [] then [] else [if keep[0] then ts[0] else []] + Masked(ts[1..], keep[1..])
  }

  lemma {:induction false} KeptIsMasked(v: seq<Byte>, o: nat, keep: seq<bool>)
    ensures var full, part := TextsAt(v, o, |keep|), KeptAt(v, o, keep);
      if full.Fail? then part.Fail? else |full.value| == |keep| && part == Got(Masked(full.value, keep), full.offset)
    decreases |keep|
  {
    if keep != [] && TextAt(v, o).Got? {
      KeptIsMasked(v, TextAt(v, o).offset, keep[1..]);
    }
  }

  /** A partial decoder accepts exactly the byte strings the full one does, and agrees with it
      on every field it reads. */
  lemma PartialAgrees(v: seq<Byte>, headerSize: nat, keep: seq<bool>)
    ensures var full, part := Decode(v, headerSize, |keep|), DecodeKept(v, headerSize, keep);
      if full.None? then part.None? else
        |full.value.texts| == |keep| && part == Some(Raw(full.value.header, Masked(full.value.texts, keep)))
  {
    KeptIsMasked(v, headerSize, keep);
  }

  // ---------- the reader and the writer ----------

  class Decoder {
    const value: seq<Byte>
    var offset: nat

    predicate Valid()
      reads this
    {
      offset <= |value|
    }

    constructor (value: seq<Byte>)
      ensures Valid() && offset == 0 && this.value == value
    {
      this.value := value;
      offset := 0;
    }

    /** A negative size, which a length of 2^63 and more becomes, is refused. */
    method Take(size: int) returns (r: Option<seq<Byte>>)
      requires Valid()
      modifies this
      ensures Valid()
      ensures size < 0 ==> r.None? && offset == old(offset)
      ensures size >= 0 ==> match TakeAt(value, old(offset), size)
        case Fail => r.None? && offset == old(offset)
        case Got(bs, next) => r == Some(bs) && offset == next
    {
      if size < 0 || offset + size > |value| {
        return None;
      }
      r := Some(value[offset..offset + size]);
      offset := offset + size;
    }

    method ReadText() returns (r: Option<Text>)
      requires Valid()
      modifies this
      ensures Valid()
      ensures match TextAt(value, old(offset))
        case Fail => r.None?
        case Got(t, next) => r == Some(t) && offset == next
    {
      var length := ReadUvarint(value, offset);
      if length.Fail? {
        return None;
      }
      UvarintEnds(value, offset, 0);
      offset := length.offset;
      r := Take(length.value);
    }

    /** Reads the texts to keep and passes over the others. */
    method ReadTexts(keep: seq<bool>) returns (r: Option<seq<Text>>)
      requires Valid()
      modifies this
      ensures Valid()
      ensures match KeptAt(value, old(offset), keep)
        case Fail => r.None?
        case Got(ts, next) => r == Some(ts) && offset == next
    {
      var ts: seq<Text> := [];
      var i := 0;
      assert keep[0..] == keep;
      assert forall rest: seq<Text> :: ts + rest == rest;
      while i < |keep|
        invariant i <= |keep| && Valid()
        invariant match KeptAt(value, offset, keep[i..])
          case Fail => KeptAt(value, old(offset), keep).Fail?
          case Got(rest, next) => KeptAt(value, old(offset), keep) == Got(ts + rest, next)
      {
        assert keep[i..][1..] == keep[i + 1..];
        ghost var before := offset;
        assert TextAt(value, before).Fail? ==> KeptAt(value, before, keep[i..]).Fail?;
        var t := ReadText();
        if t.None? {
          return None;
        }
        var kept := if keep[i] then t.value else [];
        KeptStep(value, before, offset, t.value, keep, i, ts);
        ts := ts + [kept];
        i := i + 1;
      }
      assert keep[i..] == [] && ts + [] == ts;
      return Some(ts);
    }
  }

  lemma KeptStep(v: seq<Byte>, o: nat, next: nat, t: Text, keep: seq<bool>, i: nat, ts: seq<Text>)
    requires i < |keep| && TextAt(v, o) == Got(t, next)
    ensures match KeptAt(v, next, keep[i + 1..])
      case Fail => KeptAt(v, o, keep[i..]).Fail?
      case Got(rest, last) =>
        KeptAt(v, o, keep[i..]).Got? && KeptAt(v, o, keep[i..]).offset == last
        && ts + KeptAt(v, o, keep[i..]).value == ts + [if keep[i] then t else []] + rest
  {
    assert keep[i..][1..] == keep[i + 1..];
  }

  lemma UvarintEnds(v: seq<Byte>, o: nat, i: nat)
    ensures UvarintAt(v, o, i).Got? ==> o < UvarintAt(v, o, i).offset <= |v|
    decreases |v| - o
  {
  }

  class Encoder {
    var value: seq<Byte>

    constructor ()
      ensures value == []
    {
      value := [];
    }

    method Append(bs: seq<Byte>)
      modifies this
      ensures value == old(value) + bs
    {
      value := value + bs;
    }

    method WriteText(t: Text)
      modifies this
      ensures value == old(value) + EncodeText(t)
    {
      var n := |t|;
      while n >= 128
        invariant n >= 0 && value + EncodeUvarint(n) == old(value) + EncodeUvarint(|t|)
      {
        assert value + EncodeUvarint(n) == value + [128 + n % 128] + EncodeUvarint(n / 128);
        value := value + [128 + n % 128];
        n := n / 128;
      }
      value := value + [n];
      value := value + t;
    }

    method WriteTexts(ts: seq<Text>)
      modifies this
      ensures value == old(value) + EncodeTexts(ts)
    {
      assert ts[0..] == ts;
      for i := 0 to |ts|
        invariant value + EncodeTexts(ts[i..]) == old(value) + EncodeTexts(ts)
      {
        assert ts[i..][1..] == ts[i + 1..];
        assert value + EncodeTexts(ts[i..]) == value + EncodeText(ts[i]) + EncodeTexts(ts[i + 1..]);
        WriteText(ts[i]);
      }
      assert ts[|ts|..] == [];
    }
  }

  method EncodeRecord(r: Raw) returns (value: seq<Byte>)
    ensures value == Encode(r)
  {
    var w := new Encoder();
    w.Append(r.header);
    w.WriteTexts(r.texts);
    value := w.value;
  }

  method DecodeRecord(value: seq<Byte>, headerSize: nat, keep: seq<bool>) returns (r: Option<Raw>)
    ensures r == DecodeKept(value, headerSize, keep)
  {
    var d := new Decoder(value);
    var header := d.Take(headerSize);
    if header.None? {
      return None;
    }
    var ts := d.ReadTexts(keep);
    if ts.None? || d.offset != |value| {
      return None;
    }
    r := Some(Raw(header.value, ts.value));
  }

  // ---------- the four kinds of record ----------

  datatype Allocation = Allocation(version: Byte, start: Address, end: Address, registry: Text, country: Text, name: Text, status: Text,
    allocationDate: Text, created: Text, lastModified: Text, source: Text, maintainers: Text, organization: Text, abuseContact: Text,
    description: Text)

  datatype Route = Route(version: Byte, prefixLength: Byte, network: Address, asNumber: Word, originAsn: Text, registry: Text, source: Text,
    maintainers: Text, organization: Text, abuseContact: Text, description: Text)

  datatype Geofeed = Geofeed(version: Byte, start: Address, end: Address, country: Text, region: Text, city: Text)

  datatype Autnum = Autnum(asNumber: Word, asn: Text, registry: Text, country: Text, name: Text, organization: Text, status: Text,
    created: Text, lastModified: Text, source: Text, maintainers: Text, abuseContact: Text, description: Text)

  const RANGE_HEADER := 33
  const ROUTE_HEADER := 22
  const AUTNUM_HEADER := 4

  function AllocationRaw(a: Allocation): Raw {
    Raw([a.version] + a.start + a.end,
        [a.registry, a.country, a.name, a.status, a.allocationDate, a.created, a.lastModified, a.source, a.maintainers, a.organization,
         a.abuseContact, a.description])
  }

  function AllocationOf(r: Raw): Allocation
    requires |r.header| == RANGE_HEADER && |r.texts| == 12
  {
    var t := r.texts;
    Allocation(r.header[0], r.header[1..17], r.header[17..33], t[0], t[1], t[2], t[3], t[4], t[5], t[6], t[7], t[8], t[9], t[10], t[11])
  }

  function RouteRaw(r: Route): Raw {
    Raw([r.version, r.prefixLength] + r.network + PutWord(r.asNumber),
        [r.originAsn, r.registry, r.source, r.maintainers, r.organization, r.abuseContact, r.description])
  }

  function RouteOf(r: Raw): Route
    requires |r.header| == ROUTE_HEADER && |r.texts| == 7
  {
    var t := r.texts;
    Route(r.header[0], r.header[1], r.header[2..18], GetWord(r.header[18..22]), t[0], t[1], t[2], t[3], t[4], t[5], t[6])
  }

  function GeofeedRaw(g: Geofeed): Raw {
    Raw([g.version] + g.start + g.end, [g.country, g.region, g.city])
  }

  function GeofeedOf(r: Raw): Geofeed
    requires |r.header| == RANGE_HEADER && |r.texts| == 3
  {
    Geofeed(r.header[0], r.header[1..17], r.header[17..33], r.texts[0], r.texts[1], r.texts[2])
  }

  function AutnumRaw(a: Autnum): Raw {
    Raw(PutWord(a.asNumber),
        [a.asn, a.registry, a.country, a.name, a.organization, a.status, a.created, a.lastModified, a.source, a.maintainers,
         a.abuseContact, a.description])
  }

  function AutnumOf(r: Raw): Autnum
    requires |r.header| == AUTNUM_HEADER && |r.texts| == 12
  {
    var t := r.texts;
    Autnum(GetWord(r.header), t[0], t[1], t[2], t[3], t[4], t[5], t[6], t[7], t[8], t[9], t[10], t[11])
  }

  function All(n: nat): (keep: seq<bool>)
    ensures |keep| == n
  {
    seq(n, _ => true)
  }

  lemma {:induction false} MaskedAll(ts: seq<Text>, keep: seq<bool>)
    requires |ts| == |keep| && forall i :: 0 <= i < |keep| ==> keep[i]
    ensures Masked(ts, keep) == ts
  {
    if ts != [] {
      MaskedAll(ts[1..], keep[1..]);
    }
  }

  /** A full decoder keeps everything. */
  lemma KeepAll(v: seq<Byte>, headerSize: nat, n: nat)
    ensures DecodeKept(v, headerSize, All(n)) == Decode(v, headerSize, n)
    ensures Decode(v, headerSize, n).Some? ==> |Decode(v, headerSize, n).value.header| == headerSize && |Decode(v, headerSize, n).value.texts| == n
  {
    PartialAgrees(v, headerSize, All(n));
    if Decode(v, headerSize, n).Some? {
      MaskedAll(Decode(v, headerSize, n).value.texts, All(n));
    }
  }

  /** Which texts the compact lookups read. */
  const ALLOCATION_LOOKUP: seq<bool> := [true, true, true, true, true, false, false, false, false, false, true, false]
  const ROUTE_LOOKUP: seq<bool> := [true, false, false, false, false, true, false]
  const AUTNUM_IDENTITY: seq<bool> := [false, false, false, true, true, false, false, false, false, false, false, false]

  lemma KeptSizes(v: seq<Byte>, headerSize: nat, keep: seq<bool>)
    ensures var r := DecodeKept(v, headerSize, keep); r.Some? ==> |r.value.header| == headerSize && |r.value.texts| == |keep|
  {
    PartialAgrees(v, headerSize, keep);
    var full := Decode(v, headerSize, |keep|);
    if full.Some? {
      MaskedSize(full.value.texts, keep);
    }
  }

  lemma {:induction false} MaskedSize(ts: seq<Text>, keep: seq<bool>)
    requires |ts| == |keep|
    ensures |Masked(ts, keep)| == |ts|
    ensures forall i :: 0 <= i < |ts| ==> Masked(ts, keep)[i] == if keep[i] then ts[i] else []
  {
    if ts != [] {
      MaskedSize(ts[1..], keep[1..]);
    }
  }

  // ---------- allocations ----------

  function Allocated(raw: Option<Raw>): Option<Allocation>
    requires raw.Some? ==> |raw.value.header| == RANGE_HEADER && |raw.value.texts| == 12
  {
    if raw.None? then None else Some(AllocationOf(raw.value))
  }

  method EncodeAllocation(a: Allocation) returns (value: seq<Byte>)
    ensures value == Encode(AllocationRaw(a))
    ensures FitsRaw(AllocationRaw(a)) ==> DecodedAllocation(value) == Some(a)
  {
    value := EncodeRecord(AllocationRaw(a));
    if FitsRaw(AllocationRaw(a)) {
      AllocationRoundTrip(a);
    }
  }

  function DecodedAllocation(value: seq<Byte>): Option<Allocation> {
    KeepAll(value, RANGE_HEADER, 12);
    Allocated(Decode(value, RANGE_HEADER, 12))
  }

  method DecodeAllocation(value: seq<Byte>) returns (r: Option<Allocation>)
    ensures r == DecodedAllocation(value)
  {
    var raw := DecodeRecord(value, RANGE_HEADER, All(12));
    KeepAll(value, RANGE_HEADER, 12);
    r := Allocated(raw);
  }

  method DecodeAllocationLookup(value: seq<Byte>) returns (r: Option<Allocation>)
    ensures r == var full := DecodedAllocation(value);
      if full.None? then None else
        Some(full.value.(created := [], lastModified := [], source := [], maintainers := [], organization := [], description := []))
  {
    var raw := DecodeRecord(value, RANGE_HEADER, ALLOCATION_LOOKUP);
    KeptSizes(value, RANGE_HEADER, ALLOCATION_LOOKUP);
    PartialAgrees(value, RANGE_HEADER, ALLOCATION_LOOKUP);
    if raw.Some? {
      MaskedSize(Decode(value, RANGE_HEADER, 12).value.texts, ALLOCATION_LOOKUP);
    }
    r := Allocated(raw);
  }

  /** DecodeAllocationBounds and DecodeGeofeedBounds: the fields in front, whatever follows. */
  method DecodeBounds(value: seq<Byte>) returns (r: Option<(Byte, Address, Address)>)
    ensures r == if |value| < RANGE_HEADER then None else Some((value[0], value[1..17], value[17..33]))
    ensures DecodedAllocation(value).Some? ==>
      var a := DecodedAllocation(value).value; r == Some((a.version, a.start, a.end))
    ensures DecodedGeofeed(value).Some? ==>
      var g := DecodedGeofeed(value).value; r == Some((g.version, g.start, g.end))
  {
    var d := new Decoder(value);
    var version := d.Take(1);
    if version.None? {
      return None;
    }
    var start := d.Take(16);
    if start.None? {
      return None;
    }
    var end := d.Take(16);
    if end.None? {
      return None;
    }
    r := Some((version.value[0], start.value, end.value));
    assert value[..RANGE_HEADER][1..17] == value[1..17] && value[..RANGE_HEADER][17..33] == value[17..33];
  }

  lemma AllocationRoundTrip(a: Allocation)
    requires FitsRaw(AllocationRaw(a))
    ensures DecodedAllocation(Encode(AllocationRaw(a))) == Some(a)
  {
    var raw := AllocationRaw(a);
    DecodesEncoded(raw);
    assert raw.header[1..17] == a.start && raw.header[17..33] == a.end;
  }

  // ---------- routes ----------

  function Routed(raw: Option<Raw>): Option<Route>
    requires raw.Some? ==> |raw.value.header| == ROUTE_HEADER && |raw.value.texts| == 7
  {
    if raw.None? then None else Some(RouteOf(raw.value))
  }

  method EncodeRoute(x: Route) returns (value: seq<Byte>)
    ensures value == Encode(RouteRaw(x))
    ensures FitsRaw(RouteRaw(x)) ==> DecodedRoute(value) == Some(x)
  {
    value := EncodeRecord(RouteRaw(x));
    if FitsRaw(RouteRaw(x)) {
      RouteRoundTrip(x);
    }
  }

  function DecodedRoute(value: seq<Byte>): Option<Route> {
    KeepAll(value, ROUTE_HEADER, 7);
    Routed(Decode(value, ROUTE_HEADER, 7))
  }

  method DecodeRoute(value: seq<Byte>) returns (r: Option<Route>)
    ensures r == DecodedRoute(value)
  {
    var raw := DecodeRecord(value, ROUTE_HEADER, All(7));
    KeepAll(value, ROUTE_HEADER, 7);
    r := Routed(raw);
  }

  method DecodeRouteLookup(value: seq<Byte>) returns (r: Option<Route>)
    ensures r == var full := DecodedRoute(value);
      if full.None? then None else
        Some(full.value.(registry := [], source := [], maintainers := [], organization := [], description := []))
  {
    var raw := DecodeRecord(value, ROUTE_HEADER, ROUTE_LOOKUP);
    KeptSizes(value, ROUTE_HEADER, ROUTE_LOOKUP);
    PartialAgrees(value, ROUTE_HEADER, ROUTE_LOOKUP);
    if raw.Some? {
      MaskedSize(Decode(value, ROUTE_HEADER, 7).value.texts, ROUTE_LOOKUP);
    }
    r := Routed(raw);
  }

  lemma RouteRoundTrip(x: Route)
    requires FitsRaw(RouteRaw(x))
    ensures DecodedRoute(Encode(RouteRaw(x))) == Some(x)
  {
    var raw := RouteRaw(x);
    DecodesEncoded(raw);
    WordRoundTrip(x.asNumber);
    assert raw.header[2..18] == x.network && raw.header[18..22] == PutWord(x.asNumber);
  }

  // ---------- geofeeds ----------

  method EncodeGeofeed(g: Geofeed) returns (value: seq<Byte>)
    ensures value == Encode(GeofeedRaw(g))
    ensures FitsRaw(GeofeedRaw(g)) ==> DecodedGeofeed(value) == Some(g)
  {
    value := EncodeRecord(GeofeedRaw(g));
    if FitsRaw(GeofeedRaw(g)) {
      GeofeedRoundTrip(g);
    }
  }

  function DecodedGeofeed(value: seq<Byte>): Option<Geofeed> {
    KeepAll(value, RANGE_HEADER, 3);
    var raw := Decode(value, RANGE_HEADER, 3);
    if raw.None? then None else Some(GeofeedOf(raw.value))
  }

  method DecodeGeofeed(value: seq<Byte>) returns (r: Option<Geofeed>)
    ensures r == DecodedGeofeed(value)
  {
    var raw := DecodeRecord(value, RANGE_HEADER, All(3));
    KeepAll(value, RANGE_HEADER, 3);
    r := if raw.None? then None else Some(GeofeedOf(raw.value));
  }

  lemma GeofeedRoundTrip(g: Geofeed)
    requires FitsRaw(GeofeedRaw(g))
    ensures DecodedGeofeed(Encode(GeofeedRaw(g))) == Some(g)
  {
    var raw := GeofeedRaw(g);
    DecodesEncoded(raw);
    assert raw.header[1..17] == g.start && raw.header[17..33] == g.end;
  }

  // ---------- autonomous systems ----------

  function Registered(raw: Option<Raw>): Option<Autnum>
    requires raw.Some? ==> |raw.value.header| == AUTNUM_HEADER && |raw.value.texts| == 12
  {
    if raw.None? then None else Some(AutnumOf(raw.value))
  }

  method EncodeAutnum(a: Autnum) returns (value: seq<Byte>)
    ensures value == Encode(AutnumRaw(a))
    ensures FitsRaw(AutnumRaw(a)) ==> DecodedAutnum(value) == Some(a)
  {
    value := EncodeRecord(AutnumRaw(a));
    if FitsRaw(AutnumRaw(a)) {
      AutnumRoundTrip(a);
    }
  }

  function DecodedAutnum(value: seq<Byte>): Option<Autnum> {
    KeepAll(value, AUTNUM_HEADER, 12);
    Registered(Decode(value, AUTNUM_HEADER, 12))
  }

  method DecodeAutnum(value: seq<Byte>) returns (r: Option<Autnum>)
    ensures r == DecodedAutnum(value)
  {
    var raw := DecodeRecord(value, AUTNUM_HEADER, All(12));
    KeepAll(value, AUTNUM_HEADER, 12);
    r := Registered(raw);
  }

  method DecodeAutnumIdentity(value: seq<Byte>) returns (r: Option<Autnum>)
    ensures r == var full := DecodedAutnum(value);
      if full.None? then None else
        Some(Autnum(full.value.asNumber, [], [], [], full.value.name, full.value.organization, [], [], [], [], [], [], []))
  {
    var raw := DecodeRecord(value, AUTNUM_HEADER, AUTNUM_IDENTITY);
    KeptSizes(value, AUTNUM_HEADER, AUTNUM_IDENTITY);
    PartialAgrees(value, AUTNUM_HEADER, AUTNUM_IDENTITY);
    if raw.Some? {
      MaskedSize(Decode(value, AUTNUM_HEADER, 12).value.texts, AUTNUM_IDENTITY);
    }
    r := Registered(raw);
  }

  lemma AutnumRoundTrip(a: Autnum)
    requires FitsRaw(AutnumRaw(a))
    ensures DecodedAutnum(Encode(AutnumRaw(a))) == Some(a)
  {
    DecodesEncoded(AutnumRaw(a));
    WordRoundTrip(a.asNumber);
  }

  // ---------- summaries ----------

  datatype Facet = Facet(value: Text, count: nat)

  datatype RangeSummary = RangeSummary(prefixLength: Byte, allocations: nat, routes: nat, countries: seq<Facet>, asns: seq<Facet>)

  const MAX_FACETS := 1_000_000

  function PutLong(n: nat): (bs: seq<Byte>)
    ensures |bs| == 8
  {
    ToBigEndian(n, 8)
  }

  ghost predicate FitsLong(n: nat) {
    n < Pow2(64)
  }

  lemma LongRoundTrip(n: nat)
    requires FitsLong(n)
    ensures BigEndian(PutLong(n)) == n
  {
    ToBigEndianInverse(n, 8);
  }

  function LongAt(v: seq<Byte>, o: nat): Read<nat> {
    match TakeAt(v, o, 8)
    case Fail => Fail
    case Got(bs, next) => Got(BigEndian(bs), next)
  }

  function FacetAt(v: seq<Byte>, o: nat): Read<Facet> {
    match TextAt(v, o)
    case Fail => Fail
    case Got(t, mid) =>
      match LongAt(v, mid)
      case Fail => Fail
      case Got(n, next) => Got(Facet(t, n), next)
  }

  function FacetsAt(v: seq<Byte>, o: nat, n: nat): Read<seq<Facet>>
    decreases n
  {
    if n == 0 then Got([], o) else
      match FacetAt(v, o)
      case Fail => Fail
      case Got(f, next) =>
        match FacetsAt(v, next, n - 1)
        case Fail => Fail
        case Got(fs, last) => Got([f] + fs, last)
  }

  /** A count, refused when absurd, then that many facets. */
  function ListAt(v: seq<Byte>, o: nat): Read<seq<Facet>> {
    match TakeAt(v, o, 4)
    case Fail => Fail
    case Got(bs, next) => if GetWord(bs) > MAX_FACETS then Fail else FacetsAt(v, next, GetWord(bs))
  }

  function EncodeFacet(f: Facet): seq<Byte> {
    EncodeText(f.value) + PutLong(f.count)
  }

  function EncodeFacets(fs: seq<Facet>): seq<Byte>
    decreases |fs|
  {
    if fs == [] then [] else EncodeFacet(fs[0]) + EncodeFacets(fs[1..])
  }

  function EncodeList(fs: seq<Facet>): seq<Byte>
    requires |fs| <= MAX_UINT32
  {
    PutWord(|fs|) + EncodeFacets(fs)
  }

  ghost predicate FitsFacets(fs: seq<Facet>) {
    forall i :: 0 <= i < |fs| ==> FitsText(fs[i].value) && FitsLong(fs[i].count)
  }

  lemma FacetRoundTrip(v: seq<Byte>, o: nat, f: Facet)
    requires FitsText(f.value) && FitsLong(f.count) && At(v, o, EncodeFacet(f))
    ensures FacetAt(v, o) == Got(f, o + |EncodeFacet(f)|)
  {
    AtParts(v, o, EncodeText(f.value), PutLong(f.count));
    TextRoundTrip(v, o, f.value);
    AtTaken(v, o + |EncodeText(f.value)|, PutLong(f.count));
    LongRoundTrip(f.count);
  }

  lemma FacetsCons(v: seq<Byte>, o: nat, f: Facet, next: nat, rest: seq<Facet>, last: nat)
    requires FacetAt(v, o) == Got(f, next) && FacetsAt(v, next, |rest|) == Got(rest, last)
    ensures FacetsAt(v, o, |rest| + 1) == Got([f] + rest, last)
  {
  }

  lemma FacetsSplit(fs: seq<Facet>)
    requires fs != []
    ensures fs == [fs[0]] + fs[1..] && EncodeFacets(fs) == EncodeFacet(fs[0]) + EncodeFacets(fs[1..])
  {
  }

  lemma {:induction false} FacetsRoundTrip(v: seq<Byte>, o: nat, fs: seq<Facet>)
    requires FitsFacets(fs) && true == At(v, o, EncodeFacets(fs)) && o <= |v|
    ensures FacetsAt(v, o, |fs|) == Got(fs, o + |EncodeFacets(fs)|)
    decreases |fs|, 0
  {
    if fs != [] {
      FacetsSplit(fs);
      FacetsStep(v, o, fs[0], fs[1..]);
    }
  }

  lemma {:induction false} FacetsStep(v: seq<Byte>, o: nat, first: Facet, rest: seq<Facet>)
    requires FitsText(first.value) && FitsLong(first.count) && FitsFacets(rest)
    requires true == At(v, o, EncodeFacet(first) + EncodeFacets(rest))
    ensures FacetsAt(v, o, 1 + |rest|) == Got([first] + rest, o + |EncodeFacet(first) + EncodeFacets(rest)|)
    decreases |rest|, 1
  {
    AtParts(v, o, EncodeFacet(first), EncodeFacets(rest));
    FacetRoundTrip(v, o, first);
    FacetsRoundTrip(v, o + |EncodeFacet(first)|, rest);
    FacetsCons(v, o, first, o + |EncodeFacet(first)|, rest, o + |EncodeFacet(first)| + |EncodeFacets(rest)|);
  }

  lemma ListRoundTrip(v: seq<Byte>, o: nat, fs: seq<Facet>)
    requires FitsFacets(fs) && |fs| <= MAX_UINT32 && At(v, o, EncodeList(fs))
    ensures ListAt(v, o) == if |fs| <= MAX_FACETS then Got(fs, o + |EncodeList(fs)|) else Fail
  {
    AtParts(v, o, PutWord(|fs|), EncodeFacets(fs));
    AtTaken(v, o, PutWord(|fs|));
    WordRoundTrip(|fs|);
    if |fs| <= MAX_FACETS {
      FacetsRoundTrip(v, o + 4, fs);
    }
  }

  function EncodeSummary(s: RangeSummary): seq<Byte>
    requires |s.countries| <= MAX_UINT32 && |s.asns| <= MAX_UINT32
  {
    [s.prefixLength] + (PutLong(s.allocations) + (PutLong(s.routes) + (EncodeList(s.countries) + EncodeList(s.asns))))
  }

  function DecodeSummary(v: seq<Byte>): Option<RangeSummary> {
    if |v| < 1 then None else
      match LongAt(v, 1)
      case Fail => None
      case Got(allocations, o1) =>
        match LongAt(v, o1)
        case Fail => None
        case Got(routes, o2) =>
          match ListAt(v, o2)
          case Fail => None
          case Got(countries, o3) =>
            var asns := Done(v, ListAt(v, o3));
            if asns.None? then None else Some(RangeSummary(v[0], allocations, routes, countries, asns.value))
  }

  lemma LongAtStart(v: seq<Byte>, o: nat, n: nat)
    requires FitsLong(n) && At(v, o, PutLong(n))
    ensures LongAt(v, o) == Got(n, o + 8)
  {
    AtTaken(v, o, PutLong(n));
    LongRoundTrip(n);
  }

  /** The two lists at the end of a summary. */
  lemma ListsRoundTrip(v: seq<Byte>, o: nat, a: seq<Facet>, b: seq<Facet>)
    requires |a| <= MAX_UINT32 && |b| <= MAX_UINT32 && FitsFacets(a) && FitsFacets(b)
    requires true == At(v, o, EncodeList(a) + EncodeList(b)) && |v| == o + |EncodeList(a) + EncodeList(b)|
    ensures ListAt(v, o) == if |a| <= MAX_FACETS then Got(a, o + |EncodeList(a)|) else Fail
    ensures Done(v, ListAt(v, o + |EncodeList(a)|)) == if |b| <= MAX_FACETS then Some(b) else None
  {
    AtParts(v, o, EncodeList(a), EncodeList(b));
    ListRoundTrip(v, o, a);
    ListRoundTrip(v, o + |EncodeList(a)|, b);
  }

  /** A summary comes back exactly when neither facet list is longer than the decoder allows. */
  lemma SummaryRoundTrip(s: RangeSummary)
    requires |s.countries| <= MAX_UINT32 && |s.asns| <= MAX_UINT32
    requires FitsLong(s.allocations) && FitsLong(s.routes) && FitsFacets(s.countries) && FitsFacets(s.asns)
    ensures DecodeSummary(EncodeSummary(s)) ==
      if |s.countries| <= 1_000_000 && |s.asns| <= 1_000_000 then Some(s) else None
  {
    var v := EncodeSummary(s);
    var lists := EncodeList(s.countries) + EncodeList(s.asns);
    SummaryParts(v, s.prefixLength, s.allocations, s.routes, lists);
    ListsRoundTrip(v, 17, s.countries, s.asns);
  }

  lemma SummaryParts(v: seq<Byte>, length: Byte, allocations: nat, routes: nat, lists: seq<Byte>)
    requires FitsLong(allocations) && FitsLong(routes)
    requires v == [length] + (PutLong(allocations) + (PutLong(routes) + lists))
    ensures v[0] == length && LongAt(v, 1) == Got(allocations, 9) && LongAt(v, 9) == Got(routes, 17)
    ensures true == At(v, 17, lists) && |v| == 17 + |lists|
  {
    AtParts(v, 0, [length], PutLong(allocations) + (PutLong(routes) + lists));
    AtParts(v, 1, PutLong(allocations), PutLong(routes) + lists);
    AtParts(v, 9, PutLong(routes), lists);
    LongAtStart(v, 1, allocations);
    LongAtStart(v, 9, routes);
  }
}
