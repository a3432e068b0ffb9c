/** The bytes of stored records: exactly which byte strings a decoder takes, and for what. */
module RecordBytes {
  import opened Bytes
  import opened Words
  import opened Addresses
  import Records

  // ---------- numbers and texts ----------

  /** What base-128 digits stand for, the least significant one first. */
  function Digits(bs: seq<Byte>): nat {
    if bs == [] then 0 else bs[0] % 128 + 128 * Digits(bs[1..])
  }

  /** The bytes are one number: all but the last have their top bit set, there are ten at most, and a
      tenth is 0 or 1. */
  predicate IsVarint(bs: seq<Byte>) {
    && 1 <= |bs| <= 10 && bs[|bs| - 1] < 128 && (|bs| == 10 ==> bs[9] <= 1)
    && forall k :: 0 <= k < |bs| - 1 ==> bs[k] >= 128
  }

  /** A length is written with its digits and no zero digit in front of them. */
  lemma {:induction false} WrittenDigits(n: nat)
    ensures var bs := Records.EncodeUvarint(n);
      && |bs| >= 1 && bs[|bs| - 1] < 128 && (forall k :: 0 <= k < |bs| - 1 ==> bs[k] >= 128)
      && Digits(bs) == n && (|bs| > 1 ==> bs[|bs| - 1] > 0)
  {
    if n >= 128 {
      WrittenDigits(n / 128);
      assert Records.EncodeUvarint(n)[1..] == Records.EncodeUvarint(n / 128);
    }
  }

  /** A read succeeds exactly where such bytes stand, with what their digits stand for. */
  lemma VarintMeaning(v: seq<Byte>, o: nat, next: nat)
    requires o <= next <= |v| && IsVarint(v[o..next])
    ensures Records.UvarintAt(v, o, 0) == Records.Got(Digits(v[o..next]), next)
  {
    VarintReads(v, o, 0, next);
  }

  lemma {:induction false} VarintReads(v: seq<Byte>, o: nat, i: nat, next: nat)
    requires o < next <= |v| && next - o + i <= 10 && v[next - 1] < 128 && (next - o + i == 10 ==> v[next - 1] <= 1)
    requires forall k :: o <= k < next - 1 ==> v[k] >= 128
    ensures Records.UvarintAt(v, o, i) == Records.Got(Digits(v[o..next]), next)
    decreases next - o
  {
    assert v[o..next][1..] == v[o + 1..next];
    if o + 1 < next {
      VarintReads(v, o + 1, i + 1, next);
    } else {
      assert v[o + 1..next] == [];
    }
  }

  lemma VarintIsMeant(v: seq<Byte>, o: nat)
    requires Records.UvarintAt(v, o, 0).Got?
    ensures o <= Records.UvarintAt(v, o, 0).offset <= |v| && IsVarint(v[o..Records.UvarintAt(v, o, 0).offset])
  {
    VarintWasRead(v, o, 0);
  }

  lemma {:induction false} VarintWasRead(v: seq<Byte>, o: nat, i: nat)
    requires Records.UvarintAt(v, o, i).Got? && i < 10
    ensures var next := Records.UvarintAt(v, o, i).offset;
      && o < next <= |v| && next - o + i <= 10 && v[next - 1] < 128 && (next - o + i == 10 ==> v[next - 1] <= 1)
      && forall k :: o <= k < next - 1 ==> v[k] >= 128
    decreases |v| - o
  {
    if v[o] >= 128 {
      VarintWasRead(v, o + 1, i + 1);
    }
  }

  /** A text is a number, and behind it as many bytes as it says. */
  ghost predicate IsText(v: seq<Byte>, o: nat, t: Records.Text, next: nat)
    requires o <= |v|
  {
    exists mid: nat :: o <= mid <= next <= |v| && IsVarint(v[o..mid]) && Digits(v[o..mid]) == |t| && t == v[mid..next]
  }

  lemma TextMeaning(v: seq<Byte>, o: nat, t: Records.Text, next: nat)
    requires o <= |v|
    ensures Records.TextAt(v, o) == Records.Got(t, next) <==> IsText(v, o, t, next)
  {
    if Records.TextAt(v, o) == Records.Got(t, next) {
      var mid := Records.UvarintAt(v, o, 0).offset;
      VarintIsMeant(v, o);
      VarintMeaning(v, o, mid);
      assert IsVarint(v[o..mid]) && Digits(v[o..mid]) == |t| && t == v[mid..next];
    }
    if IsText(v, o, t, next) {
      var mid: nat :| o <= mid <= next <= |v| && IsVarint(v[o..mid]) && Digits(v[o..mid]) == |t| && t == v[mid..next];
      VarintMeaning(v, o, mid);
    }
  }

  // ---------- texts one behind the other ----------

  /** The bytes from one place to another are the texts in their order and nothing else. */
  ghost predicate AreTexts(v: seq<Byte>, o: nat, ts: seq<Records.Text>, last: nat)
    requires o <= |v|
    decreases |ts|
  {
    if ts == [] then o == last
    else exists next: nat :: next <= |v| && IsText(v, o, ts[0], next) && AreTexts(v, next, ts[1..], last)
  }

  lemma {:induction false} TextsAreRead(v: seq<Byte>, o: nat, ts: seq<Records.Text>, last: nat)
    requires o <= |v| && AreTexts(v, o, ts, last)
    ensures Records.TextsAt(v, o, |ts|) == Records.Got(ts, last)
    decreases |ts|
  {
    if ts != [] {
      var next: nat :| next <= |v| && IsText(v, o, ts[0], next) && AreTexts(v, next, ts[1..], last);
      TextMeaning(v, o, ts[0], next);
      TextsAreRead(v, next, ts[1..], last);
      assert [ts[0]] + ts[1..] == ts;
    }
  }

  lemma {:induction false} ReadAreTexts(v: seq<Byte>, o: nat, n: nat)
    requires o <= |v| && Records.TextsAt(v, o, n).Got?
    ensures var r := Records.TextsAt(v, o, n); |r.value| == n && AreTexts(v, o, r.value, r.offset)
    decreases n
  {
    if n > 0 {
      var first := Records.TextAt(v, o);
      TextMeaning(v, o, first.value, first.offset);
      ReadAreTexts(v, first.offset, n - 1);
      var r := Records.TextsAt(v, o, n);
      assert r.value[1..] == Records.TextsAt(v, first.offset, n - 1).value;
    }
  }

  /** A decoder with a header and n texts takes exactly what is a header and n texts. */
  lemma DecodeMeaning(v: seq<Byte>, h: nat, n: nat, raw: Records.Raw)
    ensures Records.Decode(v, h, n) == Some(raw) <==>
      |raw.header| == h && |raw.texts| == n && h <= |v| && v[..h] == raw.header && AreTexts(v, h, raw.texts, |v|)
  {
    if h <= |v| {
      if Records.Decode(v, h, n) == Some(raw) {
        ReadAreTexts(v, h, n);
      }
      if AreTexts(v, h, raw.texts, |v|) && |raw.texts| == n {
        TextsAreRead(v, h, raw.texts, |v|);
      }
    }
  }

  // ---------- the four kinds of record ----------

  /** A version byte and two addresses, then twelve texts. */
  ghost predicate IsAllocation(v: seq<Byte>, a: Records.Allocation) {
    && |v| >= 33 && v[0] == a.version && v[1..17] == a.start && v[17..33] == a.end
    && AreTexts(v, 33, [a.registry, a.country, a.name, a.status, a.allocationDate, a.created, a.lastModified, a.source, a.maintainers,
                          a.organization, a.abuseContact, a.description], |v|)
  }

  lemma AllocationFields(raw: Records.Raw, a: Records.Allocation)
    requires |raw.header| == 33 && |raw.texts| == 12
    ensures Records.Allocated(Some(raw)) == Some(a) <==>
      && raw.header[0] == a.version && raw.header[1..17] == a.start && raw.header[17..33] == a.end
      && raw.texts == [a.registry, a.country, a.name, a.status, a.allocationDate, a.created, a.lastModified, a.source, a.maintainers,
                       a.organization, a.abuseContact, a.description]
  {
  }

  /** The decoder takes a byte string for an allocation exactly when it is one. */
  lemma AllocationMeaning(v: seq<Byte>, a: Records.Allocation)
    ensures Records.DecodedAllocation(v) == Some(a) <==> IsAllocation(v, a)
  {
    if |v| >= 33 {
      assert v[..33][1..17] == v[1..17] && v[..33][17..33] == v[17..33];
      if IsAllocation(v, a) {
        var raw := Records.Raw(v[..33], [a.registry, a.country, a.name, a.status, a.allocationDate, a.created, a.lastModified, a.source,
                                         a.maintainers, a.organization, a.abuseContact, a.description]);
        DecodeMeaning(v, 33, 12, raw);
        AllocationFields(raw, a);
      }
      if Records.Decode(v, 33, 12).Some? {
        var raw := Records.Decode(v, 33, 12).value;
        DecodeMeaning(v, 33, 12, raw);
        AllocationFields(raw, a);
      }
    }
  }

  /** Version, prefix length, network and AS number, then seven texts. */
  ghost predicate IsRoute(v: seq<Byte>, r: Records.Route) {
    && |v| >= 22 && v[0] == r.version && v[1] == r.prefixLength && v[2..18] == r.network && GetWord(v[18..22]) == r.asNumber
    && AreTexts(v, 22, [r.originAsn, r.registry, r.source, r.maintainers, r.organization, r.abuseContact, r.description], |v|)
  }

  lemma RouteMeaning(v: seq<Byte>, r: Records.Route)
    ensures Records.DecodedRoute(v) == Some(r) <==> IsRoute(v, r)
  {
    if |v| >= 22 {
      var texts := [r.originAsn, r.registry, r.source, r.maintainers, r.organization, r.abuseContact, r.description];
      DecodeMeaning(v, 22, 7, Records.Raw(v[..22], texts));
      assert v[..22][2..18] == v[2..18] && v[..22][18..22] == v[18..22];
      if Records.DecodedRoute(v) == Some(r) {
        var read := Records.Decode(v, 22, 7).value;
        DecodeMeaning(v, 22, 7, read);
        assert read.texts == texts;
      }
    }
  }

  ghost predicate IsGeofeed(v: seq<Byte>, g: Records.Geofeed) {
    && |v| >= 33 && v[0] == g.version && v[1..17] == g.start && v[17..33] == g.end && AreTexts(v, 33, [g.country, g.region, g.city], |v|)
  }

  lemma GeofeedMeaning(v: seq<Byte>, g: Records.Geofeed)
    ensures Records.DecodedGeofeed(v) == Some(g) <==> IsGeofeed(v, g)
  {
    if |v| >= 33 {
      var texts := [g.country, g.region, g.city];
      DecodeMeaning(v, 33, 3, Records.Raw(v[..33], texts));
      assert v[..33][1..17] == v[1..17] && v[..33][17..33] == v[17..33];
      if Records.DecodedGeofeed(v) == Some(g) {
        var read := Records.Decode(v, 33, 3).value;
        DecodeMeaning(v, 33, 3, read);
        assert read.texts == texts;
      }
    }
  }

  /** An AS number and twelve texts. */
  ghost predicate IsAutnum(v: seq<Byte>, a: Records.Autnum) {
    && |v| >= 4 && GetWord(v[..4]) == a.asNumber
    && AreTexts(v, 4, [a.asn, a.registry, a.country, a.name, a.organization, a.status, a.created, a.lastModified, a.source, a.maintainers,
                         a.abuseContact, a.description], |v|)
  }

  lemma AutnumFields(raw: Records.Raw, a: Records.Autnum)
    requires |raw.header| == 4 && |raw.texts| == 12
    ensures Records.Registered(Some(raw)) == Some(a) <==>
      && GetWord(raw.header) == a.asNumber
      && raw.texts == [a.asn, a.registry, a.country, a.name, a.organization, a.status, a.created, a.lastModified, a.source, a.maintainers,
                       a.abuseContact, a.description]
  {
  }

  lemma AutnumMeaning(v: seq<Byte>, a: Records.Autnum)
    ensures Records.DecodedAutnum(v) == Some(a) <==> IsAutnum(v, a)
  {
    if |v| >= 4 {
      if IsAutnum(v, a) {
        var raw := Records.Raw(v[..4], [a.asn, a.registry, a.country, a.name, a.organization, a.status, a.created, a.lastModified, a.source,
                                        a.maintainers, a.abuseContact, a.description]);
        DecodeMeaning(v, 4, 12, raw);
        AutnumFields(raw, a);
      }
      if Records.Decode(v, 4, 12).Some? {
        var raw := Records.Decode(v, 4, 12).value;
        DecodeMeaning(v, 4, 12, raw);
        AutnumFields(raw, a);
      }
    }
  }

  // ---------- summaries ----------

  /** A facet is a text, then eight bytes for its count. */
  ghost predicate IsFacet(v: seq<Byte>, o: nat, f: Records.Facet, next: nat)
    requires o <= |v|
  {
    8 <= next <= |v| && IsText(v, o, f.value, next - 8) && BigEndian(v[next - 8..next]) == f.count
  }

  lemma FacetMeaning(v: seq<Byte>, o: nat, f: Records.Facet, next: nat)
    requires o <= |v|
    ensures Records.FacetAt(v, o) == Records.Got(f, next) <==> IsFacet(v, o, f, next)
  {
    if Records.FacetAt(v, o).Got? {
      var text := Records.TextAt(v, o);
      TextMeaning(v, o, text.value, text.offset);
      assert Records.FacetAt(v, o).offset - 8 == text.offset;
    }
    if IsFacet(v, o, f, next) {
      TextMeaning(v, o, f.value, next - 8);
    }
  }

  /** The bytes from one place to another are the facets in their order. */
  ghost predicate AreFacets(v: seq<Byte>, o: nat, fs: seq<Records.Facet>, last: nat)
    requires o <= |v|
    decreases |fs|
  {
    if fs == [] then o == last
    else exists next: nat :: next <= |v| && IsFacet(v, o, fs[0], next) && AreFacets(v, next, fs[1..], last)
  }

  lemma {:induction false} FacetsAreRead(v: seq<Byte>, o: nat, fs: seq<Records.Facet>, last: nat)
    requires o <= |v| && AreFacets(v, o, fs, last)
    ensures Records.FacetsAt(v, o, |fs|) == Records.Got(fs, last) && last <= |v|
    decreases |fs|
  {
    if fs != [] {
      var next: nat :| next <= |v| && IsFacet(v, o, fs[0], next) && AreFacets(v, next, fs[1..], last);
      FacetMeaning(v, o, fs[0], next);
      FacetsAreRead(v, next, fs[1..], last);
      Records.FacetsCons(v, o, fs[0], next, fs[1..], last);
      assert [fs[0]] + fs[1..] == fs;
    }
  }

  lemma {:induction false} ReadAreFacets(v: seq<Byte>, o: nat, n: nat)
    requires o <= |v| && Records.FacetsAt(v, o, n).Got?
    ensures var r := Records.FacetsAt(v, o, n); |r.value| == n && r.offset <= |v| && AreFacets(v, o, r.value, r.offset)
    decreases n
  {
    if n > 0 {
      var first := Records.FacetAt(v, o);
      FacetMeaning(v, o, first.value, first.offset);
      ReadAreFacets(v, first.offset, n - 1);
      var r := Records.FacetsAt(v, o, n);
      assert r.value[1..] == Records.FacetsAt(v, first.offset, n - 1).value;
    }
  }

  /** A count of at most a million in four bytes, then that many facets. */
  ghost predicate IsList(v: seq<Byte>, o: nat, fs: seq<Records.Facet>, last: nat) {
    o + 4 <= |v| && GetWord(v[o..o + 4]) == |fs| && |fs| <= 1_000_000 && AreFacets(v, o + 4, fs, last)
  }

  lemma ListMeaning(v: seq<Byte>, o: nat, fs: seq<Records.Facet>, last: nat)
    ensures Records.ListAt(v, o) == Records.Got(fs, last) <==> IsList(v, o, fs, last)
    ensures IsList(v, o, fs, last) ==> last <= |v|
  {
    if Records.ListAt(v, o) == Records.Got(fs, last) {
      ReadAreFacets(v, o + 4, GetWord(v[o..o + 4]));
    }
    if IsList(v, o, fs, last) {
      FacetsAreRead(v, o + 4, fs, last);
    }
  }

  /** The length, the two figures, the countries, the AS numbers. */
  ghost predicate IsSummary(v: seq<Byte>, s: Records.RangeSummary) {
    && |v| >= 17 && v[0] == s.prefixLength && BigEndian(v[1..9]) == s.allocations && BigEndian(v[9..17]) == s.routes
    && exists mid: nat :: IsList(v, 17, s.countries, mid) && IsList(v, mid, s.asns, |v|)
  }

  lemma StoredSummaryMeaning(v: seq<Byte>, s: Records.RangeSummary)
    ensures Records.DecodeSummary(v) == Some(s) <==> IsSummary(v, s)
  {
    if Records.DecodeSummary(v) == Some(s) {
      var mid := Records.ListAt(v, 17).offset;
      ListMeaning(v, 17, s.countries, mid);
      ListMeaning(v, mid, s.asns, |v|);
    }
    if IsSummary(v, s) {
      var mid: nat :| IsList(v, 17, s.countries, mid) && IsList(v, mid, s.asns, |v|);
      ListMeaning(v, 17, s.countries, mid);
      ListMeaning(v, mid, s.asns, |v|);
    }
  }
}
