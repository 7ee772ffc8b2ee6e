/** The active-deal query: every restaurant/deal pair of the snapshot whose
    resolved window holds the query time, as output records, in
    restaurant-then-deal order. */
module DealService {
  import opened Wrappers
  import opened Errors
  import opened TimeUtils
  import opened TimeWindows
  import opened Domain
  import opened DealUtils

  // ---------------------------------------------------------------------------
  // Output records
  // ---------------------------------------------------------------------------

  /** The response's flattened view of one deal and its restaurant; every
      field is text and none is null. */
  datatype DealRecord = DealRecord(
    restaurantObjectId: string,
    restaurantName: string,
    restaurantAddress1: string,
    restaurantSuburb: string,
    restaurantOpen: string,
    restaurantClose: string,
    dealObjectId: string,
    discount: string,
    dineIn: string,
    lightning: string,
    qtyLeft: string)

  /** `setEmptyStringIfNull`: a present text is kept as it is, a null one
      becomes empty. */
  function EmptyIfAbsent(s: Option<string>): (r: string)
    ensures s.Some? ==> r == s.value
    ensures s.None? ==> r == ""
  {
    match s
    case Some(text) => text
    case None => ""
  }

  /** `toDealDto`: copies the restaurant's six fields and the deal's five. */
  function ToDealRecord(r: Restaurant, d: Deal): (rec: DealRecord)
    ensures rec.restaurantObjectId == EmptyIfAbsent(r.objectId)
    ensures rec.restaurantName == EmptyIfAbsent(r.name)
    ensures rec.restaurantAddress1 == EmptyIfAbsent(r.address1)
    ensures rec.restaurantSuburb == EmptyIfAbsent(r.suburb)
    ensures rec.restaurantOpen == EmptyIfAbsent(r.open)
    ensures rec.restaurantClose == EmptyIfAbsent(r.close)
    ensures rec.dealObjectId == EmptyIfAbsent(d.objectId)
    ensures rec.discount == EmptyIfAbsent(d.discount)
    ensures rec.dineIn == EmptyIfAbsent(d.dineIn)
    ensures rec.lightning == EmptyIfAbsent(d.lightning)
    ensures rec.qtyLeft == EmptyIfAbsent(d.qtyLeft)
  {
    DealRecord(
      EmptyIfAbsent(r.objectId), EmptyIfAbsent(r.name), EmptyIfAbsent(r.address1),
      EmptyIfAbsent(r.suburb), EmptyIfAbsent(r.open), EmptyIfAbsent(r.close),
      EmptyIfAbsent(d.objectId), EmptyIfAbsent(d.discount), EmptyIfAbsent(d.dineIn),
      EmptyIfAbsent(d.lightning), EmptyIfAbsent(d.qtyLeft))
  }

  /** The eleven feed fields `toDealDto` reads, in the record's field order. */
  function SourceFields(r: Restaurant, d: Deal): seq<Option<string>> {
    [r.objectId, r.name, r.address1, r.suburb, r.open, r.close,
     d.objectId, d.discount, d.dineIn, d.lightning, d.qtyLeft]
  }

  /** The eleven fields of a record, in declaration order. */
  function RecordFields(rec: DealRecord): seq<string> {
    [rec.restaurantObjectId, rec.restaurantName, rec.restaurantAddress1, rec.restaurantSuburb,
     rec.restaurantOpen, rec.restaurantClose, rec.dealObjectId, rec.discount, rec.dineIn,
     rec.lightning, rec.qtyLeft]
  }

  /** Field by field, the record holds each present feed text exactly and
      empty text for each null one. */
  lemma RecordKeepsPresentFields(r: Restaurant, d: Deal)
    ensures |SourceFields(r, d)| == |RecordFields(ToDealRecord(r, d))| == 11
    ensures var src := SourceFields(r, d);
            var out := RecordFields(ToDealRecord(r, d));
            forall i :: 0 <= i < 11 ==>
              && (src[i].Some? ==> out[i] == src[i].value)
              && (src[i].None? ==> out[i] == "")
  {
    var src := SourceFields(r, d);
    var out := RecordFields(ToDealRecord(r, d));
    forall i | 0 <= i < 11
      ensures out[i] == EmptyIfAbsent(src[i])
    {
      if i < 6 {
        RestaurantFieldCopied(r, d, i);
      } else {
        DealFieldCopied(r, d, i);
      }
    }
  }

  lemma RestaurantFieldCopied(r: Restaurant, d: Deal, i: int)
    requires 0 <= i < 6
    ensures RecordFields(ToDealRecord(r, d))[i] == EmptyIfAbsent(SourceFields(r, d)[i])
  {
  }

  lemma DealFieldCopied(r: Restaurant, d: Deal, i: int)
    requires 6 <= i < 11
    ensures RecordFields(ToDealRecord(r, d))[i] == EmptyIfAbsent(SourceFields(r, d)[i])
  {
  }

  // ---------------------------------------------------------------------------
  // The pairs both services visit
  // ---------------------------------------------------------------------------

  /** One deal together with the restaurant that offers it. */
  datatype Pair = Pair(restaurant: Restaurant, deal: Deal)

  /** The non-null deals of one restaurant's list, in list order. */
  function DealPairs(r: Restaurant, deals: seq<Option<Deal>>): (ps: seq<Pair>)
    ensures |ps| <= |deals|
    ensures forall k :: 0 <= k < |ps| ==> ps[k].restaurant == r
  {
    if deals == [] then []
    else
      var last := deals[|deals| - 1];
      DealPairs(r, deals[..|deals| - 1]) + (if last.Some? then [Pair(r, last.value)] else [])
  }

  /** The deals of one snapshot entry: none for a null restaurant or a null
      deal list. */
  function EntryPairs(entry: Option<Restaurant>): seq<Pair> {
    if entry.None? || entry.value.deals.None? then []
    else DealPairs(entry.value, entry.value.deals.value)
  }

  /** Every restaurant/deal pair of the snapshot, restaurant by restaurant,
      each restaurant's deals in list order; null entries are skipped. */
  function Pairs(s: Snapshot): seq<Pair> {
    if s == [] then [] else Pairs(s[..|s| - 1]) + EntryPairs(s[|s| - 1])
  }

  /** Number of deal slots the snapshot holds, null ones included. */
  function DealSlots(s: Snapshot): nat {
    if s == [] then 0
    else
      var last := s[|s| - 1];
      DealSlots(s[..|s| - 1]) + (if last.Some? && last.value.deals.Some? then |last.value.deals.value| else 0)
  }

  lemma {:induction false} PairsWithinSlots(s: Snapshot)
    ensures |Pairs(s)| <= DealSlots(s)
  {
    if s != [] {
      PairsWithinSlots(s[..|s| - 1]);
    }
  }

  lemma {:induction false} DealPairsAppend(r: Restaurant, a: seq<Option<Deal>>, b: seq<Option<Deal>>)
    ensures DealPairs(r, a + b) == DealPairs(r, a) + DealPairs(r, b)
    decreases |b|
  {
    if b == [] {
      assert a + b == a;
    } else {
      assert (a + b)[..|a + b| - 1] == a + b[..|b| - 1];
      DealPairsAppend(r, a, b[..|b| - 1]);
    }
  }

  /** Deal order is list order: a null deal contributes nothing and a present
      one contributes exactly its own pair. Together with `DealPairsAppend`
      this determines `DealPairs` completely. */
  lemma DealPairsSingle(r: Restaurant, d: Option<Deal>)
    ensures DealPairs(r, [d]) == if d.Some? then [Pair(r, d.value)] else []
  {
    assert [d][..0] == [];
  }

  /** Restaurant order is snapshot order: the pairs of a concatenated snapshot
      are the pairs of its first part followed by those of its second. */
  lemma {:induction false} PairsAppend(a: Snapshot, b: Snapshot)
    ensures Pairs(a + b) == Pairs(a) + Pairs(b)
    decreases |b|
  {
    if b == [] {
      assert a + b == a;
    } else {
      var b0 := b[..|b| - 1];
      assert b == b0 + [b[|b| - 1]];
      PairsAppend(a, b0);
      PairsAppendStep(a, b0, b[|b| - 1]);
    }
  }

  lemma PairsAppendStep(a: Snapshot, b: Snapshot, entry: Option<Restaurant>)
    requires Pairs(a + b) == Pairs(a) + Pairs(b)
    ensures Pairs(a + (b + [entry])) == Pairs(a) + Pairs(b + [entry])
  {
    ConcatAssoc(a, b, [entry]);
    PairsSnoc(a + b, entry);
    PairsSnoc(b, entry);
    ConcatAssoc(Pairs(a), Pairs(b), EntryPairs(entry));
  }

  lemma ConcatAssoc<T>(x: seq<T>, y: seq<T>, z: seq<T>)
    ensures (x + y) + z == x + (y + z)
  {
  }

  lemma PairsSnoc(s: Snapshot, entry: Option<Restaurant>)
    ensures Pairs(s + [entry]) == Pairs(s) + EntryPairs(entry)
  {
    assert (s + [entry])[..|s|] == s;
  }

  /** Null restaurants and restaurants without a deal list contribute no pair. */
  lemma PairsSingle(entry: Option<Restaurant>)
    ensures Pairs([entry]) == EntryPairs(entry)
    ensures entry.None? || entry.value.deals.None? ==> Pairs([entry]) == []
  {
    assert [entry][..0] == [];
  }

  /** A pair is visited exactly when its restaurant is a snapshot entry and its
      deal a non-null entry of that restaurant's list. */
  lemma {:induction false} DealPairsMembership(r: Restaurant, deals: seq<Option<Deal>>, d: Deal)
    ensures Pair(r, d) in DealPairs(r, deals) <==> Some(d) in deals
  {
    if deals != [] {
      DealPairsMembership(r, deals[..|deals| - 1], d);
      assert deals == deals[..|deals| - 1] + [deals[|deals| - 1]];
    }
  }

  lemma {:induction false} PairsMembership(s: Snapshot, p: Pair)
    ensures p in Pairs(s) <==>
              Some(p.restaurant) in s && p.restaurant.deals.Some? && Some(p.deal) in p.restaurant.deals.value
  {
    if s != [] {
      var init := s[..|s| - 1];
      var last := s[|s| - 1];
      PairsMembership(init, p);
      assert s == init + [last];
      if last.Some? && last.value.deals.Some? {
        DealPairsMembership(last.value, last.value.deals.value, p.deal);
        if p in EntryPairs(last) {
          var k :| 0 <= k < |EntryPairs(last)| && EntryPairs(last)[k] == p;
          assert p.restaurant == last.value;
        }
      }
    }
  }

  // ---------------------------------------------------------------------------
  // The query
  // ---------------------------------------------------------------------------

  predicate Resolves(p: Pair) {
    ActiveWindowOfDeal(p.restaurant, p.deal).Success?
  }

  /** The deal of a pair holds `t`: it resolves and its window contains `t`. */
  predicate ActiveAt(t: Minute, p: Pair) {
    Resolves(p) && Covers(ActiveWindowOfDeal(p.restaurant, p.deal).value, Some(t))
  }

  /** Whether the deal of a pair holds `t`, or the error resolving it raised. */
  function Verdict(t: Minute, p: Pair): Result<bool, Error> {
    IsActiveDealContainsTime(t, p.restaurant, p.deal)
  }

  lemma VerdictMeaning(t: Minute, p: Pair)
    ensures Verdict(t, p).Success? <==> Resolves(p)
    ensures Verdict(t, p).Failure? ==> Verdict(t, p).error == ActiveWindowOfDeal(p.restaurant, p.deal).error
    ensures Verdict(t, p) == Success(true) <==> ActiveAt(t, p)
  {
  }

  /** The verdict on each pair, in pair order. */
  function Verdicts(t: Minute, ps: seq<Pair>): (vs: seq<Result<bool, Error>>)
    ensures |vs| == |ps|
  {
    seq(|ps|, i requires 0 <= i < |ps| => Verdict(t, ps[i]))
  }

  /** The output record of each pair, in pair order. */
  function Records(ps: seq<Pair>): (recs: seq<DealRecord>)
    ensures |recs| == |ps|
  {
    seq(|ps|, i requires 0 <= i < |ps| => ToDealRecord(ps[i].restaurant, ps[i].deal))
  }

  /** `i` is the first position whose verdict is an error. */
  predicate FirstFailure<T>(vs: seq<Result<T, Error>>, i: int) {
    && 0 <= i < |vs|
    && vs[i].Failure?
    && forall j :: 0 <= j < i ==> vs[j].Success?
  }

  /** The scan's loop: walk the items in order, keep each one whose verdict
      is true, and stop at the first error, returning it instead of a list. */
  function Keep<T>(vs: seq<Result<bool, Error>>, items: seq<T>): (r: Result<seq<T>, Error>)
    requires |vs| == |items|
    ensures r.Success? <==> forall i :: 0 <= i < |vs| ==> vs[i].Success?
    ensures r.Success? ==> |r.value| <= |items|
    ensures r.Failure? ==> exists i :: FirstFailure(vs, i) && r.error == vs[i].error
  {
    if vs == [] then Success([])
    else
      var n := |vs| - 1;
      assert forall i :: 0 <= i < n ==> vs[..n][i] == vs[i];
      var kept :- Keep(vs[..n], items[..n]);
      var here :- vs[n];
      Success(kept + (if here then [items[n]] else []))
  }

  /** Positions whose verdict is true, in increasing order. */
  function TrueIndices(vs: seq<Result<bool, Error>>): (idx: seq<int>)
    ensures forall k :: 0 <= k < |idx| ==> 0 <= idx[k] < |vs|
    ensures forall k, l :: 0 <= k < l < |idx| ==> idx[k] < idx[l]
    ensures forall i :: 0 <= i < |vs| ==> (i in idx <==> vs[i] == Success(true))
  {
    if vs == [] then []
    else
      var n := |vs| - 1;
      var init := TrueIndices(vs[..n]);
      assert forall i :: 0 <= i < n ==> vs[..n][i] == vs[i];
      init + (if vs[n] == Success(true) then [n] else [])
  }

  /** The items at the given positions. */
  function ItemsAt<T>(items: seq<T>, idx: seq<int>): (out: seq<T>)
    requires forall k :: 0 <= k < |idx| ==> 0 <= idx[k] < |items|
    ensures |out| == |idx|
    ensures forall k :: 0 <= k < |idx| ==> out[k] == items[idx[k]]
  {
    seq(|idx|, k requires 0 <= k < |idx| => items[idx[k]])
  }

  /** A successful scan keeps exactly the items whose verdict is true, each
      once, in their original order. */
  lemma {:induction false} KeepSelects<T>(vs: seq<Result<bool, Error>>, items: seq<T>)
    requires |vs| == |items|
    requires Keep(vs, items).Success?
    ensures Keep(vs, items).value == ItemsAt(items, TrueIndices(vs))
  {
    if vs != [] {
      var n := |vs| - 1;
      KeepSelects(vs[..n], items[..n]);
      var idx0 := TrueIndices(vs[..n]);
      var idx := TrueIndices(vs);
      assert forall k :: 0 <= k < |idx0| ==> idx[k] == idx0[k] && items[..n][idx0[k]] == items[idx0[k]];
      if vs[n].value {
        assert idx == idx0 + [n];
      } else {
        assert idx == idx0;
      }
    }
  }

  /** The scan of two runs is the scan of the first followed by the scan of
      the second: output order follows input order. */
  lemma {:induction false} KeepAppend<T>(v1: seq<Result<bool, Error>>, i1: seq<T>, v2: seq<Result<bool, Error>>, i2: seq<T>)
    requires |v1| == |i1| && |v2| == |i2|
    requires Keep(v1 + v2, i1 + i2).Success?
    ensures Keep(v1, i1).Success? && Keep(v2, i2).Success?
    ensures Keep(v1 + v2, i1 + i2).value == Keep(v1, i1).value + Keep(v2, i2).value
    decreases |v2|
  {
    if v2 == [] {
      assert v1 + v2 == v1 && i1 + i2 == i1;
    } else {
      var n := |v2| - 1;
      assert (v1 + v2)[..|v1 + v2| - 1] == v1 + v2[..n];
      assert (i1 + i2)[..|i1 + i2| - 1] == i1 + i2[..n];
      assert (v1 + v2)[|v1 + v2| - 1] == v2[n];
      assert (i1 + i2)[|i1 + i2| - 1] == i2[n];
      assert forall i :: 0 <= i < |v1| ==> (v1 + v2)[i] == v1[i];
      KeepAppend(v1, i1, v2[..n], i2[..n]);
    }
  }

  /** The loop of `queryActiveDealsByTime` over the pairs: the records of the
      pairs whose deal holds `t`, or the first resolution error. */
  function FilterActive(t: Minute, ps: seq<Pair>): (r: Result<seq<DealRecord>, Error>)
    ensures r.Success? <==> forall i :: 0 <= i < |ps| ==> Verdict(t, ps[i]).Success?
    ensures r.Success? ==> |r.value| <= |ps|
  {
    assert forall i :: 0 <= i < |ps| ==> Verdicts(t, ps)[i] == Verdict(t, ps[i]);
    Keep(Verdicts(t, ps), Records(ps))
  }

  /** `queryActiveDealsByTime`: parse the query time first, then scan every
      pair of the snapshot. */
  function QueryActiveDeals(time: Option<string>, s: Snapshot): (r: Result<seq<DealRecord>, Error>)
    ensures ParseTime(time).Failure? ==> r == Failure(ParseTime(time).error)
    ensures r.Success? ==> ParseTime(time).Success? && |r.value| <= DealSlots(s)
  {
    PairsWithinSlots(s);
    var t :- ParseTime(time);
    FilterActive(t, Pairs(s))
  }

  /** A time that does not parse fails the query whatever the snapshot holds. */
  lemma MalformedTimeFailsQuery(time: Option<string>, s1: Snapshot, s2: Snapshot)
    requires ParseTime(time).Failure?
    ensures QueryActiveDeals(time, s1).Failure?
    ensures QueryActiveDeals(time, s1) == QueryActiveDeals(time, s2)
  {
  }

  lemma {:induction false} AllNullNoPairs(s: Snapshot)
    requires forall i :: 0 <= i < |s| ==> s[i].None?
    ensures Pairs(s) == []
  {
    if s != [] {
      AllNullNoPairs(s[..|s| - 1]);
    }
  }

  /** An empty snapshot, or one whose entries are all null, gives an empty list. */
  lemma NoRestaurantsNoDeals(time: Option<string>, s: Snapshot)
    requires ParseTime(time).Success?
    requires forall i :: 0 <= i < |s| ==> s[i].None?
    ensures QueryActiveDeals(time, s) == Success([])
  {
    AllNullNoPairs(s);
  }

  /** The scan succeeds exactly when every pair resolves; otherwise it fails
      with the error of the first pair that does not. */
  lemma FilterFails(t: Minute, ps: seq<Pair>)
    ensures FilterActive(t, ps).Success? <==> forall i :: 0 <= i < |ps| ==> Resolves(ps[i])
    ensures FilterActive(t, ps).Failure? ==>
              exists i :: 0 <= i < |ps| && !Resolves(ps[i]) && (forall j :: 0 <= j < i ==> Resolves(ps[j])) &&
                          FilterActive(t, ps).error == ActiveWindowOfDeal(ps[i].restaurant, ps[i].deal).error
  {
    var vs := Verdicts(t, ps);
    var r := FilterActive(t, ps);
    forall i | 0 <= i < |ps|
      ensures vs[i].Success? <==> Resolves(ps[i])
      ensures vs[i].Failure? ==> vs[i].error == ActiveWindowOfDeal(ps[i].restaurant, ps[i].deal).error
    {
      VerdictMeaning(t, ps[i]);
    }
    if r.Failure? {
      var i :| FirstFailure(vs, i) && r.error == vs[i].error;
      assert !Resolves(ps[i]) && r.error == ActiveWindowOfDeal(ps[i].restaurant, ps[i].deal).error;
    }
  }

  /** `out` is the records of the pairs at positions `idx`, which increase
      and are exactly the positions of the pairs whose deal holds `t`. */
  predicate SelectsActive(t: Minute, ps: seq<Pair>, out: seq<DealRecord>, idx: seq<int>) {
    && |idx| == |out|
    && (forall k :: 0 <= k < |idx| ==> 0 <= idx[k] < |ps| && out[k] == ToDealRecord(ps[idx[k]].restaurant, ps[idx[k]].deal))
    && (forall k, l :: 0 <= k < l < |idx| ==> idx[k] < idx[l])
    && (forall i :: 0 <= i < |ps| ==> (i in idx <==> ActiveAt(t, ps[i])))
  }

  /** A successful scan lists the record of every pair whose deal holds `t`,
      once each, in pair order, and nothing else: no sorting, no
      deduplication. */
  lemma FilterMeaning(t: Minute, ps: seq<Pair>)
    requires forall i :: 0 <= i < |ps| ==> Resolves(ps[i])
    ensures FilterActive(t, ps).Success?
    ensures var out := FilterActive(t, ps).value;
            exists idx :: SelectsActive(t, ps, out, idx)
  {
    FilterFails(t, ps);
    var vs := Verdicts(t, ps);
    var recs := Records(ps);
    var out := FilterActive(t, ps).value;
    KeepSelects(vs, recs);
    var idx := TrueIndices(vs);
    assert out == ItemsAt(recs, idx);
    forall k | 0 <= k < |idx|
      ensures out[k] == ToDealRecord(ps[idx[k]].restaurant, ps[idx[k]].deal)
    {
      assert out[k] == recs[idx[k]];
    }
    ActiveIndices(t, ps);
    assert SelectsActive(t, ps, out, idx);
  }

  lemma ActiveIndices(t: Minute, ps: seq<Pair>)
    ensures var idx := TrueIndices(Verdicts(t, ps));
            forall i :: 0 <= i < |ps| ==> (i in idx <==> ActiveAt(t, ps[i]))
  {
    var vs := Verdicts(t, ps);
    forall i | 0 <= i < |ps|
      ensures vs[i] == Success(true) <==> ActiveAt(t, ps[i])
    {
      VerdictMeaning(t, ps[i]);
      assert vs[i] == Verdict(t, ps[i]);
    }
  }

  /** Once the time parses, the query is the scan of the snapshot's pairs at
      that minute. */
  lemma QueryScansPairs(time: Option<string>, s: Snapshot)
    requires ParseTime(time).Success?
    ensures QueryActiveDeals(time, s) == FilterActive(ParseTime(time).value, Pairs(s))
  {
  }

  /** The query succeeds exactly when the time parses and every visited pair
      resolves; one bad deal anywhere fails it, and no partial list is
      returned. */
  lemma QueryFailsOnAnyBadDeal(time: Option<string>, s: Snapshot)
    requires ParseTime(time).Success?
    ensures var ps := Pairs(s);
            QueryActiveDeals(time, s).Success? <==> forall i :: 0 <= i < |ps| ==> Resolves(ps[i])
  {
    QueryScansPairs(time, s);
    FilterFails(ParseTime(time).value, Pairs(s));
  }

  /** A successful query lists exactly the pairs whose deal holds the query
      time, in restaurant-then-deal order. */
  lemma QueryMeaning(time: Option<string>, s: Snapshot)
    requires ParseTime(time).Success?
    requires forall i :: 0 <= i < |Pairs(s)| ==> Resolves(Pairs(s)[i])
    ensures QueryActiveDeals(time, s).Success?
    ensures var ps := Pairs(s);
            var t := ParseTime(time).value;
            var out := QueryActiveDeals(time, s).value;
            exists idx :: SelectsActive(t, ps, out, idx)
  {
    QueryScansPairs(time, s);
    FilterMeaning(ParseTime(time).value, Pairs(s));
  }
}
