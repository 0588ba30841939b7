/** Reading the regions file (`Sequences::get_regions`): every non-empty line
    is one region, a single leading `-` asks for its reverse complement, and
    lines the parser rejects are skipped without an error. */
module RegionList {
  import opened SeqTypes
  import opened TextLines

  /** The text handed to the parser: the line with one leading `-` removed. */
  function RegionText(line: string): (t: string)
    ensures line != [] && line[0] == '-' ==> "-" + t == line
    ensures (line == [] || line[0] != '-') ==> t == line
  {
    if line != [] && line[0] == '-' then line[1..] else line
  }

  /** One line of the regions file: dropped when empty or when the parser
      rejects it, otherwise the region and its reverse flag. */
  function ParseLine(line: string, parse: Parser): (r: Option<RegionLine>)
    ensures line == [] ==> r == None
    ensures r.Some? ==> parse(RegionText(line)) == Some(r.value.0)
    ensures r.Some? ==> (r.value.1 <==> line[0] == '-')
    ensures line != [] && parse(RegionText(line)).Some? ==> r.Some?
  {
    if line == [] then None
    else
      var reverse := line[0] == '-';
      match parse(RegionText(line))
      case Some(region) => Some((region, reverse))
      case None => None
  }

  /** What one line contributes to the result: its region, or nothing. */
  function Kept(line: string, parse: Parser): (rs: seq<RegionLine>)
    ensures |rs| <= 1
  {
    match ParseLine(line, parse)
    case Some(r) => [r]
    case None => []
  }

  /** The kept regions of a run of lines, in line order. */
  function ParseLines(lines: seq<string>, parse: Parser): (rs: seq<RegionLine>)
    ensures |rs| <= |lines|
  {
    if lines == [] then [] else Kept(lines[0], parse) + ParseLines(lines[1..], parse)
  }

  /** Some line of `lines` parses to `r`. */
  ghost predicate FromSomeLine(lines: seq<string>, parse: Parser, r: RegionLine)
  {
    exists i :: 0 <= i < |lines| && ParseLine(lines[i], parse) == Some(r)
  }

  /** Every kept region comes from some line, and every line the parser
      accepts is kept. */
  lemma {:induction false} ParseLinesMembers(lines: seq<string>, parse: Parser)
    ensures forall r :: r in ParseLines(lines, parse) ==> FromSomeLine(lines, parse, r)
    ensures forall i :: 0 <= i < |lines| && ParseLine(lines[i], parse).Some? ==>
      ParseLine(lines[i], parse).value in ParseLines(lines, parse)
  {
    if lines != [] {
      var head, tail := Kept(lines[0], parse), ParseLines(lines[1..], parse);
      ParseLinesMembers(lines[1..], parse);
      assert forall i :: 1 <= i < |lines| ==> lines[i] == lines[1..][i - 1];
      forall r | r in head + tail
        ensures FromSomeLine(lines, parse, r)
      {
        if r in head {
          assert ParseLine(lines[0], parse) == Some(r);
        } else {
          assert FromSomeLine(lines[1..], parse, r);
          var i :| 0 <= i < |lines[1..]| && ParseLine(lines[1..][i], parse) == Some(r);
          assert ParseLine(lines[i + 1], parse) == Some(r);
        }
      }
    }
  }

  /** The regions of a whole regions file, one per kept line, in file order. */
  function GetRegions(text: string, parse: Parser): (rs: seq<RegionLine>)
    ensures |rs| <= |Lines(text)|
    ensures forall r :: r in rs ==> FromSomeLine(Lines(text), parse, r)
    ensures forall i :: 0 <= i < |Lines(text)| && ParseLine(Lines(text)[i], parse).Some? ==>
      ParseLine(Lines(text)[i], parse).value in rs
  {
    ParseLinesMembers(Lines(text), parse);
    ParseLines(Lines(text), parse)
  }

  /** Order is kept and nothing is deduplicated: the regions of two runs of
      lines are the regions of the first followed by those of the second. */
  lemma {:induction false} ParseLinesAppend(a: seq<string>, b: seq<string>, parse: Parser)
    ensures ParseLines(a + b, parse) == ParseLines(a, parse) + ParseLines(b, parse)
  {
    if a == [] {
      assert a + b == b;
    } else {
      assert (a + b)[0] == a[0];
      assert (a + b)[1..] == a[1..] + b;
      ParseLinesAppend(a[1..], b, parse);
    }
  }

  /** A single line contributes its own parse result and nothing else. */
  lemma ParseLinesSingle(line: string, parse: Parser)
    ensures ParseLines([line], parse) == Kept(line, parse)
  {
    assert [line][1..] == [];
  }

  /** A line that is empty, or whose text the parser rejects, vanishes from
      the result without a trace. */
  lemma SkippedLine(a: seq<string>, line: string, b: seq<string>, parse: Parser)
    requires line == [] || parse(RegionText(line)).None?
    ensures ParseLines(a + [line] + b, parse) == ParseLines(a + b, parse)
  {
    assert Kept(line, parse) == [];
    ParseLinesSingle(line, parse);
    ParseLinesAppend([line], b, parse);
    assert ParseLines([line] + b, parse) == ParseLines(b, parse);
    ParseLinesAppend(a, [line] + b, parse);
    assert a + [line] + b == a + ([line] + b);
    ParseLinesAppend(a, b, parse);
  }

  /** Repeating a kept line repeats its region: duplicates survive. */
  lemma RepeatedLine(a: seq<string>, line: string, b: seq<string>, parse: Parser)
    requires ParseLine(line, parse).Some?
    ensures var r := ParseLine(line, parse).value;
      ParseLines(a + [line, line] + b, parse) == ParseLines(a, parse) + [r, r] + ParseLines(b, parse)
  {
    var r := ParseLine(line, parse).value;
    var two := [line, line];
    ParseLinesSingle(line, parse);
    assert ParseLines([line], parse) == [r];
    assert two[1..] == [line];
    assert ParseLines(two, parse) == [r, r];
    ParseLinesAppend(two, b, parse);
    ParseLinesAppend(a, two + b, parse);
    assert a + [line, line] + b == a + (two + b);
  }

  /** A line starting with `-` is parsed with exactly that one `-` removed
      (a second `-` stays) and is marked for reverse complement. */
  lemma ReversedLine(t: string, parse: Parser)
    ensures ParseLine("-" + t, parse) ==
      match parse(t)
      case Some(region) => Some((region, true))
      case None => None
  {
    assert ("-" + t)[1..] == t;
  }

  /** Any other non-empty line is parsed unchanged and is not reversed. */
  lemma ForwardLine(line: string, parse: Parser)
    requires line != [] && line[0] != '-'
    ensures ParseLine(line, parse) ==
      match parse(line)
      case Some(region) => Some((region, false))
      case None => None
  {
  }
}
