/** Worked runs over a tiny reference, with a concrete parser, query and
    complement table standing in for the sequence library's. */
module Scenarios {
  import opened SeqTypes
  import opened TextLines
  import opened RegionList
  import opened ReverseComplement
  import opened Extraction
  import opened Output
  import opened Pipeline

  /** The usual nucleotide complement, upper case only. */
  function Nucleotide(c: char): Option<char>
  {
    if c == 'A' then Some('T') else if c == 'T' then Some('A')
    else if c == 'C' then Some('G') else if c == 'G' then Some('C')
    else if c == 'N' then Some('N') else None
  }

  /** Accepts `chr1:1-4` and `chr1:5-8` only. */
  function ParseTwo(s: string): Option<Region>
  {
    if s == "chr1:1-4" then Some(Region("chr1", Some(1), Some(4)))
    else if s == "chr1:5-8" then Some(Region("chr1", Some(5), Some(8)))
    else None
  }

  function Digit(n: nat): char
  {
    if n < 10 then ('0' as int + n) as char else '?'
  }

  /** A single-record store `chr1 = ACGTACGT` whose query names the record
      after the region, as `name:start-end`. */
  function QueryChr1(r: Region): Result<Record, string>
  {
    var reference := "ACGTACGT";
    if r.name == "chr1" && r.start.Some? && r.end.Some? && 1 <= r.start.value <= r.end.value <= |reference| then
      var name := r.name + ":" + [Digit(r.start.value)] + "-" + [Digit(r.end.value)];
      Success(Record(name, None, reference[r.start.value - 1..r.end.value]))
    else Failure("invalid region")
  }

  /** Appending a residue puts its complement in front. */
  lemma RevCompSnoc(s: seq<char>, c: char, d: char, t: seq<char>, complement: Complement)
    requires complement(c) == Some(d) && RevComp(s, complement) == Success(t)
    ensures RevComp(s + [c], complement) == Success([d] + t)
  {
    var u := s + [c];
    assert u[|u| - 1] == c;
    assert u[..|u| - 1] == s;
  }

  lemma ReverseComplementPrefix()
    ensures RevComp("ACG", Nucleotide) == Success("CGT")
  {
    assert RevComp("", Nucleotide) == Success("");
    RevCompSnoc("", 'A', 'T', "", Nucleotide);
    assert "" + ['A'] == "A" && ['T'] + "" == "T";
    RevCompSnoc("A", 'C', 'G', "T", Nucleotide);
    assert "A" + ['C'] == "AC" && ['G'] + "T" == "GT";
    RevCompSnoc("AC", 'G', 'C', "GT", Nucleotide);
    assert "AC" + ['G'] == "ACG" && ['C'] + "GT" == "CGT";
  }

  /** Reverse complementing `ACGTA` gives `TACGT`. */
  lemma ReverseComplementExample()
    ensures RevComp("ACGTA", Nucleotide) == Success("TACGT")
  {
    ReverseComplementPrefix();
    RevCompSnoc("ACG", 'T', 'A', "CGT", Nucleotide);
    assert "ACG" + ['T'] == "ACGT" && ['A'] + "CGT" == "ACGT";
    RevCompSnoc("ACGT", 'A', 'T', "ACGT", Nucleotide);
    assert "ACGT" + ['A'] == "ACGTA" && ['T'] + "ACGT" == "TACGT";
  }

  /** A residue outside the table stops the reversal, naming the last such
      residue. */
  lemma ReverseComplementFailureExample()
    ensures RevComp("AXCYG", Nucleotide) == Failure('Y')
  {
    var s := "AXCY";
    assert s[|s| - 1] == 'Y';
    assert RevComp(s, Nucleotide) == Failure('Y');
    var u := "AXCYG";
    assert u[|u| - 1] == 'G';
    assert u[..|u| - 1] == s;
  }

  const First := Region("chr1", Some(1), Some(4))
  const Second := Region("chr1", Some(5), Some(8))
  const RegionsText := "chr1:1-4\nchr1:5-8\n"

  lemma TwoLines()
    ensures Lines(RegionsText) == ["chr1:1-4", "chr1:5-8"]
  {
    var ls := ["chr1:1-4", "chr1:5-8"];
    assert Terminated(ls[1..][1..], "\n") == "";
    assert Terminated(ls[1..], "\n") == "chr1:5-8\n";
    assert Terminated(ls, "\n") == RegionsText;
    assert !EndsWithCarriageReturn(ls[0]) && !EndsWithCarriageReturn(ls[1]);
    assert NoNewline(ls[0]) && NoNewline(ls[1]);
    LinesOfLfTerminated(ls);
  }

  lemma TwoParsedLines()
    ensures ParseLine("chr1:1-4", ParseTwo) == Some((First, false))
    ensures ParseLine("chr1:5-8", ParseTwo) == Some((Second, false))
  {
    ForwardLine("chr1:1-4", ParseTwo);
    ForwardLine("chr1:5-8", ParseTwo);
  }

  lemma TwoRegions()
    ensures GetRegions(RegionsText, ParseTwo) == [(First, false), (Second, false)]
  {
    TwoLines();
    TwoParsedLines();
    var l0, l1 := "chr1:1-4", "chr1:5-8";
    ParseLinesSingle(l0, ParseTwo);
    ParseLinesSingle(l1, ParseTwo);
    ParseLinesAppend([l0], [l1], ParseTwo);
    assert [l0] + [l1] == [l0, l1];
  }

  const RecordA := Record("chr1:1-4", None, "ACGT")
  const RecordB := Record("chr1:5-8", None, "ACGT")

  /** Two regions that both fetch, extracted from scratch. */
  lemma ExtractTwo(l0: RegionLine, l1: RegionLine, fetch: Fetcher, r0: Record, r1: Record)
    requires fetch(l0) == Success(r0) && fetch(l1) == Success(r1)
    ensures Extract([l0, l1], fetch) == Success(Extracted([], map[]).Add(r0).Add(r1))
  {
    var empty := Extracted([], map[]);
    ExtractSnoc([], l0, fetch, empty, r0);
    assert [] + [l0] == [l0];
    ExtractSnoc([l0], l1, fetch, empty.Add(r0), r1);
    assert [l0] + [l1] == [l0, l1];
  }

  lemma TwoExtracted()
    ensures Extract([(First, false), (Second, false)], FetchWith(QueryChr1, Nucleotide)) ==
      Success(Extracted(["chr1:1-4", "chr1:5-8"], map["chr1:1-4" := RecordA, "chr1:5-8" := RecordB]))
  {
    FirstSecondFetches();
    ExtractTwo((First, false), (Second, false), FetchWith(QueryChr1, Nucleotide), RecordA, RecordB);
    assert Extracted([], map[]).Add(RecordA).Add(RecordB) ==
      Extracted(["chr1:1-4", "chr1:5-8"], map["chr1:1-4" := RecordA, "chr1:5-8" := RecordB]);
  }

  lemma FirstSecondFetches()
    ensures Fetch((First, false), QueryChr1, Nucleotide) == Success(RecordA)
    ensures Fetch((Second, false), QueryChr1, Nucleotide) == Success(RecordB)
  {
    assert "ACGTACGT"[0..4] == "ACGT";
    assert "ACGTACGT"[4..8] == "ACGT";
    assert [Digit(1)] == "1" && [Digit(4)] == "4" && [Digit(5)] == "5" && [Digit(8)] == "8";
    assert "chr1" + ":" + "1" + "-" + "4" == "chr1:1-4";
    assert "chr1" + ":" + "5" + "-" + "8" == "chr1:5-8";
    assert QueryChr1(First) == Success(RecordA);
    assert QueryChr1(Second) == Success(RecordB);
  }

  /** Without merging, two regions give two records of four residues each. */
  lemma UnmergedRunExample()
    ensures Run(RegionsText, "regions", ParseTwo, QueryChr1, Nucleotide, false, None, 0) == Success([RecordA, RecordB])
  {
    TwoRegions();
    TwoExtracted();
    var x := Extracted(["chr1:1-4", "chr1:5-8"], map["chr1:1-4" := RecordA, "chr1:5-8" := RecordB]);
    TwoUnmerged();
    RunFromExtraction(RegionsText, "regions", ParseTwo, QueryChr1, Nucleotide, x);
  }

  lemma TwoUnmerged()
    ensures Unmerged(["chr1:1-4", "chr1:5-8"], map["chr1:1-4" := RecordA, "chr1:5-8" := RecordB]) == [RecordA, RecordB]
  {
  }

  lemma RunFromExtraction(text: string, stem: string, parse: Parser, query: Query, complement: Complement, x: Extracted)
    requires Extract(GetRegions(text, parse), FetchWith(query, complement)) == Success(x)
    ensures AllKeysPresent(x.order, x.data)
    ensures Run(text, stem, parse, query, complement, false, None, 0) == Success(Unmerged(x.order, x.data))
  {
    ExtractValid(GetRegions(text, parse), FetchWith(query, complement));
  }

  lemma TwoMergeSafe()
    ensures MergeSafe(GetRegions(RegionsText, ParseTwo), QueryChr1, Nucleotide)
  {
    TwoRegions();
    TwoExtracted();
  }

  lemma MergeFromPlain(text: string, stem: string, parse: Parser, query: Query, complement: Complement,
                       gapSize: nat, rs: seq<Record>)
    requires MergeSafe(GetRegions(text, parse), query, complement)
    requires Run(text, stem, parse, query, complement, false, None, 0) == Success(rs)
    ensures Run(text, stem, parse, query, complement, true, None, gapSize) == Success([Record(stem, None, Padded(rs, gapSize))])
  {
    MergeIsPaddedUnmerged(text, stem, parse, query, complement, None, gapSize);
  }

  lemma PaddedExample()
    ensures Padded([RecordA, RecordB], 3) == "ACGTNNNACGTNNN"
  {
    var rs := [RecordA, RecordB];
    assert Repeat('N', 3) == "NNN";
    assert rs[1..][1..] == [];
    assert Padded(rs[1..], 3) == "ACGTNNN";
  }

  /** Merging with a gap of three puts three `N` after EVERY entry, the last
      one included. */
  lemma MergedRunExample()
    ensures MergeSafe(GetRegions(RegionsText, ParseTwo), QueryChr1, Nucleotide)
    ensures Run(RegionsText, "regions", ParseTwo, QueryChr1, Nucleotide, true, None, 3) ==
      Success([Record("regions", None, "ACGTNNNACGTNNN")])
  {
    UnmergedRunExample();
    TwoMergeSafe();
    PaddedExample();
    MergeFromPlain(RegionsText, "regions", ParseTwo, QueryChr1, Nucleotide, 3, [RecordA, RecordB]);
  }

  const Head := Region("chr1", Some(1), Some(3))
  const HeadForward := Record("chr1:1-3", None, "ACG")
  const HeadReversed := Record("chr1:1-3", None, "CGT")

  lemma HeadQuery()
    ensures QueryChr1(Head) == Success(HeadForward)
  {
    assert [Digit(1)] == "1" && [Digit(3)] == "3";
    assert "chr1" + ":" + "1" + "-" + "3" == "chr1:1-3";
    assert "ACGTACGT"[0..3] == "ACG";
  }

  lemma HeadFetches()
    ensures Fetch((Head, false), QueryChr1, Nucleotide) == Success(HeadForward)
    ensures Fetch((Head, true), QueryChr1, Nucleotide) == Success(HeadReversed)
  {
    HeadQuery();
    ReverseComplementPrefix();
  }

  /** The same region asked for forward and then reversed: both records are
      named `chr1:1-3`, so the order lists the name twice while the map keeps
      only the reversed record, and an unmerged run writes it twice. */
  lemma RepeatedNameExample()
    ensures Extract([(Head, false), (Head, true)], FetchWith(QueryChr1, Nucleotide)) ==
      Success(Extracted(["chr1:1-3", "chr1:1-3"], map["chr1:1-3" := HeadReversed]))
    ensures Unmerged(["chr1:1-3", "chr1:1-3"], map["chr1:1-3" := HeadReversed]) == [HeadReversed, HeadReversed]
  {
    HeadFetches();
    ExtractTwo((Head, false), (Head, true), FetchWith(QueryChr1, Nucleotide), HeadForward, HeadReversed);
    assert Extracted([], map[]).Add(HeadForward).Add(HeadReversed) ==
      Extracted(["chr1:1-3", "chr1:1-3"], map["chr1:1-3" := HeadReversed]);
  }
}
