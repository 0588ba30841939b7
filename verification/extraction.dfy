/** Querying every parsed region in turn (`Sequences::extract`). Each record is
    appended to `order` under its name and stored in `data` under the same
    name, so `order` keeps every occurrence while `data` keeps only the last
    record stored under each name. The first failing region aborts the run. */
module Extraction {
  import opened SeqTypes
  import opened ReverseComplement

  /** What `extract` accumulates. */
  datatype Extracted = Extracted(order: seq<string>, data: map<string, Record>)
  {
    /** The names with a record are exactly the names in the order. */
    ghost predicate Valid()
    {
      forall k :: k in data <==> k in order
    }

    /** Push the name, then insert (overwriting any earlier record). */
    function Add(rec: Record): (e: Extracted)
      ensures e.order == order + [rec.name]
      ensures e.data.Keys == data.Keys + {rec.name}
      ensures e.data[rec.name] == rec
      ensures forall k :: k in data && k != rec.name ==> e.data[k] == data[k]
    {
      Extracted(order + [rec.name], data[rec.name := rec])
    }
  }

  /** How extraction obtains the record for one parsed region. */
  type Fetcher = RegionLine -> Result<Record, Error>

  /** The record for one parsed region: the query result, reverse complemented
      when the line asked for it. */
  function Fetch(line: RegionLine, query: Query, complement: Complement): (r: Result<Record, Error>)
    ensures query(line.0).Failure? ==> r == Failure(QueryError(query(line.0).error))
    ensures r.Success? ==> query(line.0).Success? && r.value.name == query(line.0).value.name
    ensures query(line.0).Success? && !line.1 ==> r == Success(query(line.0).value)
    ensures query(line.0).Success? && line.1 ==> r == ReverseRecord(query(line.0).value, complement)
  {
    match query(line.0)
    case Failure(msg) => Failure(QueryError(msg))
    case Success(rec) => if line.1 then ReverseRecord(rec, complement) else Success(rec)
  }

  /** `Fetch` with the library's query and complement fixed. */
  function FetchWith(query: Query, complement: Complement): (fetch: Fetcher)
    ensures forall line :: fetch(line) == Fetch(line, query, complement)
  {
    line => Fetch(line, query, complement)
  }

  /** The regions handled in order, starting from an empty order and map;
      `fetch` is `FetchWith(query, complement)` in a run. */
  function Extract(regions: seq<RegionLine>, fetch: Fetcher): (r: Result<Extracted, Error>)
    ensures r.Success? ==> |r.value.order| == |regions|
    decreases |regions|
  {
    if regions == [] then Success(Extracted([], map[]))
    else
      match Extract(regions[..|regions| - 1], fetch)
      case Failure(e) => Failure(e)
      case Success(acc) =>
        match fetch(regions[|regions| - 1])
        case Failure(e) => Failure(e)
        case Success(rec) => Success(acc.Add(rec))
  }

  /** One more region extends a successful extraction by its record. */
  lemma ExtractSnoc(regions: seq<RegionLine>, line: RegionLine, fetch: Fetcher,
                    acc: Extracted, rec: Record)
    requires Extract(regions, fetch) == Success(acc)
    requires fetch(line) == Success(rec)
    ensures Extract(regions + [line], fetch) == Success(acc.Add(rec))
  {
    var longer := regions + [line];
    assert longer[..|longer| - 1] == regions;
    assert longer[|longer| - 1] == line;
  }

  /** After a successful extraction the names with a record are exactly the
      names in the order. */
  lemma {:induction false} ExtractValid(regions: seq<RegionLine>, fetch: Fetcher)
    requires Extract(regions, fetch).Success?
    ensures Extract(regions, fetch).value.Valid()
  {
    if regions != [] {
      ExtractStep(regions, fetch);
      ExtractValid(regions[..|regions| - 1], fetch);
    }
  }

  /** Position of the last occurrence of `k` in `s`. */
  function LastIndex(s: seq<string>, k: string): (j: nat)
    requires k in s
    ensures j < |s| && s[j] == k
    ensures forall i :: j < i < |s| ==> s[i] != k
  {
    if s[|s| - 1] == k then |s| - 1
    else
      assert k in s[..|s| - 1] by {
        var i :| 0 <= i < |s| && s[i] == k;
        assert s[..|s| - 1][i] == k;
      }
      LastIndex(s[..|s| - 1], k)
  }

  /** A successful extraction is the extraction of all but the last region,
      extended by the last region's record. */
  lemma ExtractStep(regions: seq<RegionLine>, fetch: Fetcher)
    requires regions != [] && Extract(regions, fetch).Success?
    ensures var pre, last := regions[..|regions| - 1], regions[|regions| - 1];
      Extract(pre, fetch).Success? && fetch(last).Success? &&
      Extract(regions, fetch).value == Extract(pre, fetch).value.Add(fetch(last).value)
  {
  }

  /** Every region in `regions` can be fetched. */
  ghost predicate AllFetched(regions: seq<RegionLine>, fetch: Fetcher)
  {
    forall i :: 0 <= i < |regions| ==> fetch(regions[i]).Success?
  }

  /** Extraction succeeds exactly when every region can be fetched. */
  lemma {:induction false} ExtractSucceeds(regions: seq<RegionLine>, fetch: Fetcher)
    ensures Extract(regions, fetch).Success? <==> AllFetched(regions, fetch)
  {
    if regions != [] {
      var pre, last := regions[..|regions| - 1], regions[|regions| - 1];
      ExtractSucceeds(pre, fetch);
      assert Extract(regions, fetch).Success? <==> Extract(pre, fetch).Success? && fetch(last).Success?;
      assert AllFetched(regions, fetch) <==> AllFetched(pre, fetch) && fetch(last).Success? by {
        if AllFetched(pre, fetch) && fetch(last).Success? {
          forall i | 0 <= i < |regions| ensures fetch(regions[i]).Success? {
            if i < |pre| {
              assert regions[i] == pre[i];
            }
          }
        }
        if AllFetched(regions, fetch) {
          forall i | 0 <= i < |pre| ensures fetch(pre[i]).Success? {
            assert pre[i] == regions[i];
          }
        }
      }
    }
  }

  /** On failure, the error is that of the first region that cannot be
      fetched; every region before it was fetched. */
  lemma {:induction false} ExtractFailsAtFirst(regions: seq<RegionLine>, fetch: Fetcher)
    requires Extract(regions, fetch).Failure?
    ensures exists i :: 0 <= i < |regions| &&
                        fetch(regions[i]) == Failure(Extract(regions, fetch).error) &&
                        forall j :: 0 <= j < i ==> fetch(regions[j]).Success?
  {
    var pre := regions[..|regions| - 1];
    assert forall i :: 0 <= i < |pre| ==> pre[i] == regions[i];
    if Extract(pre, fetch).Failure? {
      ExtractFailsAtFirst(pre, fetch);
      var i :| 0 <= i < |pre| &&
        fetch(pre[i]) == Failure(Extract(pre, fetch).error) &&
        forall j :: 0 <= j < i ==> fetch(pre[j]).Success?;
      assert fetch(regions[i]) == Failure(Extract(regions, fetch).error);
    } else {
      ExtractSucceeds(pre, fetch);
      var i := |regions| - 1;
      assert fetch(regions[i]) == Failure(Extract(regions, fetch).error);
    }
  }

  /** `order` holds one name per region, in region order, duplicates included:
      the name of the record fetched for that region. */
  lemma {:induction false} ExtractOrder(regions: seq<RegionLine>, fetch: Fetcher)
    requires Extract(regions, fetch).Success?
    ensures var e := Extract(regions, fetch).value;
      |e.order| == |regions| &&
      forall i :: 0 <= i < |regions| ==>
        fetch(regions[i]).Success? &&
        e.order[i] == fetch(regions[i]).value.name
  {
    if regions != [] {
      var pre, last := regions[..|regions| - 1], regions[|regions| - 1];
      ExtractStep(regions, fetch);
      var acc := Extract(pre, fetch).value;
      var order := Extract(regions, fetch).value.order;
      assert order == acc.order + [fetch(last).value.name];
      ExtractOrder(pre, fetch);
      forall i | 0 <= i < |regions|
        ensures fetch(regions[i]).Success? && order[i] == fetch(regions[i]).value.name
      {
        if i < |pre| {
          assert pre[i] == regions[i];
          assert order[i] == acc.order[i];
        }
      }
    }
  }

  /** Later records overwrite earlier ones: the record kept under a name is the
      one fetched for the last region whose record bears that name. */
  lemma {:induction false} ExtractLastWins(regions: seq<RegionLine>, fetch: Fetcher)
    requires Extract(regions, fetch).Success?
    ensures var e := Extract(regions, fetch).value;
      forall k :: k in e.data ==>
        k in e.order &&
        fetch(regions[LastIndex(e.order, k)]) == Success(e.data[k])
  {
    if regions != [] {
      var pre := regions[..|regions| - 1];
      var acc := Extract(pre, fetch).value;
      var rec := fetch(regions[|regions| - 1]).value;
      var e := Extract(regions, fetch).value;
      assert e == acc.Add(rec);
      ExtractLastWins(pre, fetch);
      forall k | k in e.data
        ensures k in e.order && fetch(regions[LastIndex(e.order, k)]) == Success(e.data[k])
      {
        if k == rec.name {
          assert LastIndex(e.order, k) == |regions| - 1;
        } else {
          var j := LastIndex(acc.order, k);
          assert e.order[j] == k;
          assert LastIndex(e.order, k) == j by {
            var j' := LastIndex(e.order, k);
            assert j' < |acc.order|;
            assert acc.order[j'] == k;
          }
          assert pre[j] == regions[j];
        }
      }
    }
  }

  /** Once a prefix of the regions fails, the whole run fails with the same
      error: nothing after the first failure is queried. */
  lemma {:induction false} ExtractPrefixFailure(regions: seq<RegionLine>, n: nat, fetch: Fetcher)
    requires n <= |regions| && Extract(regions[..n], fetch).Failure?
    ensures Extract(regions, fetch) == Extract(regions[..n], fetch)
    decreases |regions| - n
  {
    if n == |regions| {
      assert regions[..n] == regions;
    } else {
      var longer := regions[..n + 1];
      assert longer[..n] == regions[..n];
      assert Extract(longer, fetch) == Extract(regions[..n], fetch);
      ExtractPrefixFailure(regions, n + 1, fetch);
    }
  }

  /** The loop of `extract` itself: push and insert per region, returning at
      the first error. */
  method ExtractLoop(regions: seq<RegionLine>, fetch: Fetcher) returns (r: Result<Extracted, Error>)
    ensures r == Extract(regions, fetch)
  {
    var order: seq<string> := [];
    var data: map<string, Record> := map[];
    var i := 0;
    while i < |regions|
      invariant 0 <= i <= |regions|
      invariant Extract(regions[..i], fetch) == Success(Extracted(order, data))
    {
      var fetched := fetch(regions[i]);
      assert regions[..i + 1][..i] == regions[..i];
      if fetched.Failure? {
        ExtractPrefixFailure(regions, i + 1, fetch);
        return Failure(fetched.error);
      }
      var rec := fetched.value;
      order := order + [rec.name];
      data := data[rec.name := rec];
      i := i + 1;
    }
    assert regions[..i] == regions;
    return Success(Extracted(order, data));
  }
}
