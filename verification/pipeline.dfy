/** One run of the program (`main`): read the regions, extract them, and
    assemble the output records. Reading the files and opening the indexed
    reader happen outside this model; the regions file arrives as its text and
    the regions file name as its stem. */
module Pipeline {
  import opened SeqTypes
  import opened RegionList
  import opened Extraction
  import opened Output

  /** Merging panics on an empty record; a run may only merge when every
      record that ends up stored is non-empty. */
  predicate MergeSafe(regions: seq<RegionLine>, query: Query, complement: Complement)
  {
    var x := Extract(regions, FetchWith(query, complement));
    x.Success? ==> forall k :: k in x.value.data ==> |x.value.data[k].sequence| > 0
  }

  /** For a successful extraction, merging is safe exactly when every name in
      `order` keeps a record with residues: an empty record stored earlier
      under a name is harmless once a later region overwrites it. */
  lemma MergeSafeEntries(regions: seq<RegionLine>, query: Query, complement: Complement)
    requires Extract(regions, FetchWith(query, complement)).Success?
    ensures var x := Extract(regions, FetchWith(query, complement)).value;
      AllKeysPresent(x.order, x.data) &&
      (MergeSafe(regions, query, complement) <==> AllNonEmpty(x.order, x.data))
  {
    ExtractValid(regions, FetchWith(query, complement));
  }

  /** Region `l` fetches a record named `name`. */
  ghost predicate NamedAt(regions: seq<RegionLine>, fetch: Fetcher, l: int, name: string)
    requires 0 <= l < |regions|
  {
    fetch(regions[l]).Success? && fetch(regions[l]).value.name == name
  }

  /** The record written at position `i` without merging is the one fetched
      for the last region whose record has the same name as region `i`'s. */
  ghost predicate WrittenLastWins(regions: seq<RegionLine>, fetch: Fetcher, rs: seq<Record>)
  {
    |rs| == |regions| &&
    forall i :: 0 <= i < |regions| ==>
      NamedAt(regions, fetch, i, rs[i].name) &&
      exists j :: i <= j < |regions| && fetch(regions[j]) == Success(rs[i]) &&
                  forall l :: j < l < |regions| ==> !NamedAt(regions, fetch, l, rs[i].name)
  }

  function Run(regionsText: string, regionsStem: string, parse: Parser, query: Query, complement: Complement,
               merge: bool, contigName: Option<string>, gapSize: nat): (r: Result<seq<Record>, Error>)
    requires merge ==> MergeSafe(GetRegions(regionsText, parse), query, complement)
    ensures var regions := GetRegions(regionsText, parse);
      r.Success? <==> forall i :: 0 <= i < |regions| ==> Fetch(regions[i], query, complement).Success?
    ensures var regions := GetRegions(regionsText, parse);
      r.Failure? ==>
        exists i :: 0 <= i < |regions| && Fetch(regions[i], query, complement) == Failure(r.error) &&
                    forall j :: 0 <= j < i ==> Fetch(regions[j], query, complement).Success?
    ensures r.Success? && !merge ==>
      WrittenLastWins(GetRegions(regionsText, parse), FetchWith(query, complement), r.value)
    ensures r.Success? && merge ==>
      |r.value| == 1 && r.value[0].name == ContigName(contigName, regionsStem) && r.value[0].description == None
  {
    var regions := GetRegions(regionsText, parse);
    var fetch := FetchWith(query, complement);
    ExtractSucceeds(regions, fetch);
    match Extract(regions, fetch)
    case Failure(e) =>
      ExtractFailsAtFirst(regions, fetch);
      Failure(e)
    case Success(x) =>
      ExtractValid(regions, fetch);
      var rs := Write(x, merge, contigName, gapSize, regionsStem);
      if !merge then
        UnmergedLastWins(regions, fetch, rs);
        Success(rs)
      else Success(rs)
  }

  /** The unmerged output of a successful extraction obeys `WrittenLastWins`. */
  lemma UnmergedLastWins(regions: seq<RegionLine>, fetch: Fetcher, rs: seq<Record>)
    requires Extract(regions, fetch).Success?
    requires var x := Extract(regions, fetch).value;
      AllKeysPresent(x.order, x.data) && rs == Unmerged(x.order, x.data)
    ensures WrittenLastWins(regions, fetch, rs)
  {
    var x := Extract(regions, fetch).value;
    ExtractOrder(regions, fetch);
    ExtractLastWins(regions, fetch);
    assert |rs| == |regions|;
    forall i | 0 <= i < |regions|
      ensures NamedAt(regions, fetch, i, rs[i].name)
      ensures exists j :: i <= j < |regions| && fetch(regions[j]) == Success(rs[i]) &&
                          forall l :: j < l < |regions| ==> !NamedAt(regions, fetch, l, rs[i].name)
    {
      var k := x.order[i];
      assert k in x.data;
      var j := LastIndex(x.order, k);
      assert rs[i] == x.data[k];
      assert fetch(regions[j]) == Success(rs[i]);
      assert rs[i].name == k;
      forall l | j < l < |regions|
        ensures !NamedAt(regions, fetch, l, k)
      {
        assert x.order[l] != k;
      }
    }
  }

  /** Merging writes one record whose residues are the records an unmerged run
      writes, in the same order, each followed by a gap. */
  lemma MergeIsPaddedUnmerged(regionsText: string, regionsStem: string, parse: Parser, query: Query,
                              complement: Complement, contigName: Option<string>, gapSize: nat)
    requires MergeSafe(GetRegions(regionsText, parse), query, complement)
    ensures var merged := Run(regionsText, regionsStem, parse, query, complement, true, contigName, gapSize);
      var plain := Run(regionsText, regionsStem, parse, query, complement, false, None, 0);
      merged.Success? == plain.Success? &&
      (merged.Success? ==>
        merged.value == [Record(ContigName(contigName, regionsStem), None, Padded(plain.value, gapSize))])
  {
  }
}
