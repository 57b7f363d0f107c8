/**
 * Normalisation of the stablecoin chart feed (`process_stablecoin_data`):
 * keep the entries inside an inclusive timestamp window, turn each into one
 * record with missing amounts defaulted to 0, and sort the records by time.
 *
 * `parse_date` (local-time date string to UNIX seconds) is a parameter, and
 * `unix_to_date` is left as the identity on seconds: it is monotone, so
 * sorting by either gives the same order.
 */
module StablecoinIngest {
  import opened Wrappers
  import opened Sequences

  /**
   * One element of the raw response. `date` is None when the key is absent;
   * each amount object is None when its key is absent.
   */
  datatype Entry = Entry(
    date: Option<int>,
    totalCirculating: Option<map<string, real>>,
    totalCirculatingUsd: Option<map<string, real>>)

  /** One output row: timestamp, circulating_supply, circulating_supply_usd. */
  datatype Record = Record(timestamp: int, circulatingSupply: real, circulatingSupplyUsd: real)

  /** `int(entry.get("date"))` fails on the entry at `index`. */
  datatype IngestError = MissingDate(index: nat)

  function Timestamp(r: Record): int { r.timestamp }

  /** `parse_date(d) if d else None`: an absent or empty date string gives no bound. */
  function ParseBound(date: Option<string>, parseDate: string -> int): (b: Option<int>)
    ensures b.None? <==> date.None? || date.value == ""
    ensures b.Some? ==> b.value == parseDate(date.value)
  {
    if date.None? || date.value == "" then None else Some(parseDate(date.value))
  }

  /** A bound takes effect only when it is truthy: present and not 0. */
  predicate Restricts(bound: Option<int>) {
    bound.Some? && bound.value != 0
  }

  /** The window test of the loop: neither `ts < start_ts` nor `ts > end_ts` under a truthy bound. */
  function InWindow(ts: int, startTs: Option<int>, endTs: Option<int>): (b: bool)
    ensures b <==> (!Restricts(startTs) || startTs.value <= ts) && (!Restricts(endTs) || ts <= endTs.value)
  {
    !(Restricts(startTs) && ts < startTs.value) && !(Restricts(endTs) && ts > endTs.value)
  }

  /** `obj.get("peggedUSD", 0)` on `entry.get(key, {})`. */
  function PeggedUsd(obj: Option<map<string, real>>): (v: real)
    ensures obj.None? ==> v == 0.0
    ensures obj.Some? && "peggedUSD" !in obj.value ==> v == 0.0
    ensures obj.Some? && "peggedUSD" in obj.value ==> v == obj.value["peggedUSD"]
  {
    match obj
    case None => 0.0
    case Some(m) => if "peggedUSD" in m then m["peggedUSD"] else 0.0
  }

  function ToRecord(e: Entry): Record
    requires e.date.Some?
  {
    Record(e.date.value, PeggedUsd(e.totalCirculating), PeggedUsd(e.totalCirculatingUsd))
  }

  predicate AllDated(raw: seq<Entry>) {
    forall e :: e in raw ==> e.date.Some?
  }

  predicate EntryInWindow(e: Entry, startTs: Option<int>, endTs: Option<int>) {
    e.date.Some? && InWindow(e.date.value, startTs, endTs)
  }

  /** The records the loop appends, in input order, before the sort. */
  function InRangeRecords(raw: seq<Entry>, startTs: Option<int>, endTs: Option<int>): (recs: seq<Record>)
    requires AllDated(raw)
    ensures |recs| <= |raw|
    ensures forall x :: x in recs ==> InWindow(x.timestamp, startTs, endTs)
    decreases |raw|
  {
    if raw == [] then []
    else
      var last := raw[|raw| - 1];
      InRangeRecords(raw[..|raw| - 1], startTs, endTs)
        + (if InWindow(last.date.value, startTs, endTs) then [ToRecord(last)] else [])
  }

  /** The in-range entries, in input order. */
  function InRangeEntries(raw: seq<Entry>, startTs: Option<int>, endTs: Option<int>): seq<Entry> {
    Filter(raw, (e: Entry) => EntryInWindow(e, startTs, endTs))
  }

  /**
   * Every in-range entry yields exactly one record and nothing else is
   * filtered: the k-th record is made from the k-th in-range entry.
   */
  lemma {:induction false} InRangeRecordsOnePerEntry(raw: seq<Entry>, startTs: Option<int>, endTs: Option<int>)
    requires AllDated(raw)
    ensures |InRangeRecords(raw, startTs, endTs)| == |InRangeEntries(raw, startTs, endTs)|
    ensures forall k :: 0 <= k < |InRangeRecords(raw, startTs, endTs)| ==>
      InRangeEntries(raw, startTs, endTs)[k].date.Some? &&
      InRangeRecords(raw, startTs, endTs)[k] == ToRecord(InRangeEntries(raw, startTs, endTs)[k])
    decreases |raw|
  {
    if raw != [] {
      var init, last := raw[..|raw| - 1], raw[|raw| - 1];
      assert raw == init + [last];
      InRangeRecordsOnePerEntry(init, startTs, endTs);
      FilterConcat(init, [last], (e: Entry) => EntryInWindow(e, startTs, endTs));
    }
  }

  /** Window soundness and completeness: a record is made from some entry iff that entry is in range. */
  lemma InRangeRecordsMembers(raw: seq<Entry>, startTs: Option<int>, endTs: Option<int>)
    requires AllDated(raw)
    ensures forall x :: x in InRangeRecords(raw, startTs, endTs) ==> InWindow(x.timestamp, startTs, endTs)
    ensures forall i :: 0 <= i < |raw| && InWindow(raw[i].date.value, startTs, endTs) ==>
      ToRecord(raw[i]) in InRangeRecords(raw, startTs, endTs)
  {
    InRangeRecordsOnePerEntry(raw, startTs, endTs);
    var recs, ents := InRangeRecords(raw, startTs, endTs), InRangeEntries(raw, startTs, endTs);
    forall x | x in recs ensures InWindow(x.timestamp, startTs, endTs) {
      var k :| 0 <= k < |recs| && recs[k] == x;
      assert ents[k] in ents;
    }
    forall i | 0 <= i < |raw| && InWindow(raw[i].date.value, startTs, endTs) ensures ToRecord(raw[i]) in recs {
      assert raw[i] in ents;
      var k :| 0 <= k < |ents| && ents[k] == raw[i];
      assert recs[k] == ToRecord(raw[i]);
    }
  }

  /** Any reordering of the in-range records is window-sound and window-complete. */
  lemma SortedRecords(raw: seq<Entry>, startTs: Option<int>, endTs: Option<int>, sorted: seq<Record>)
    requires AllDated(raw)
    requires multiset(sorted) == multiset(InRangeRecords(raw, startTs, endTs))
    ensures forall x :: x in sorted ==> InWindow(x.timestamp, startTs, endTs)
    ensures forall i :: 0 <= i < |raw| && InWindow(raw[i].date.value, startTs, endTs) ==> ToRecord(raw[i]) in sorted
  {
    InRangeRecordsMembers(raw, startTs, endTs);
    var u := InRangeRecords(raw, startTs, endTs);
    forall x ensures x in sorted <==> x in u {
      assert x in sorted <==> x in multiset(sorted);
      assert x in u <==> x in multiset(u);
    }
  }

  /** One step of the loop: the records of a prefix one entry longer. */
  lemma InRangeRecordsSnoc(raw: seq<Entry>, i: nat, startTs: Option<int>, endTs: Option<int>)
    requires i < |raw| && AllDated(raw[..i]) && raw[i].date.Some?
    ensures AllDated(raw[..i + 1])
    ensures InRangeRecords(raw[..i + 1], startTs, endTs) == InRangeRecords(raw[..i], startTs, endTs)
      + (if InWindow(raw[i].date.value, startTs, endTs) then [ToRecord(raw[i])] else [])
  {
    assert raw[..i + 1] == raw[..i] + [raw[i]];
    assert raw[..i + 1][..i] == raw[..i];
  }

  /** A start or end bound of 0 restricts nothing: it behaves exactly like an absent bound. */
  lemma {:induction false} ZeroBoundIgnored(raw: seq<Entry>, startTs: Option<int>, endTs: Option<int>)
    requires AllDated(raw)
    ensures InRangeRecords(raw, Some(0), endTs) == InRangeRecords(raw, None, endTs)
    ensures InRangeRecords(raw, startTs, Some(0)) == InRangeRecords(raw, startTs, None)
    decreases |raw|
  {
    if raw != [] {
      ZeroBoundIgnored(raw[..|raw| - 1], startTs, endTs);
    }
  }

  /**
   * `process_stablecoin_data`: the first entry without a date aborts the
   * run; otherwise the in-range records, sorted by timestamp (the order of
   * equal timestamps is left open, as with an unstable sort).
   */
  method ProcessStablecoinData(raw: seq<Entry>, startDate: Option<string>, endDate: Option<string>, parseDate: string -> int)
    returns (res: Result<seq<Record>, IngestError>)
    ensures res.Failure? <==> !AllDated(raw)
    ensures res.Failure? ==> res.error.index < |raw| && raw[res.error.index].date.None? && AllDated(raw[..res.error.index])
    ensures res.Success? ==>
      var startTs, endTs := ParseBound(startDate, parseDate), ParseBound(endDate, parseDate);
      && SortedBy(res.value, Timestamp)
      && multiset(res.value) == multiset(InRangeRecords(raw, startTs, endTs))
      && (forall x :: x in res.value ==> InWindow(x.timestamp, startTs, endTs))
      && (forall i :: 0 <= i < |raw| && InWindow(raw[i].date.value, startTs, endTs) ==> ToRecord(raw[i]) in res.value)
  {
    var records: seq<Record> := [];
    var startTs := ParseBound(startDate, parseDate);
    var endTs := ParseBound(endDate, parseDate);
    for i := 0 to |raw|
      invariant AllDated(raw[..i])
      invariant records == InRangeRecords(raw[..i], startTs, endTs)
    {
      var entry := raw[i];
      if entry.date.None? {
        assert entry in raw;
        return Failure(MissingDate(i));
      }
      InRangeRecordsSnoc(raw, i, startTs, endTs);
      var ts := entry.date.value;
      if Restricts(startTs) && ts < startTs.value {
        continue;
      }
      if Restricts(endTs) && ts > endTs.value {
        continue;
      }
      var circulating := PeggedUsd(entry.totalCirculating);
      var circulatingUsd := PeggedUsd(entry.totalCirculatingUsd);
      records := records + [Record(ts, circulating, circulatingUsd)];
    }
    assert raw[..|raw|] == raw;
    if |records| > 0 {
      records := SortBy(records, Timestamp);
    }
    SortedRecords(raw, startTs, endTs, records);
    return Success(records);
  }
}
