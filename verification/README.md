# extract — a verified model of region extraction

`extract` cuts named regions out of an indexed FASTA file. The regions are
listed one per line in a regions file, in SAMtools region syntax (`chr1`,
`chr1:1-1000`). A leading `-` asks for the reverse complement of that region.
The output is either one FASTA record per region, or, with merging, a single
contig that holds every extract, each followed by a run of `N` gap filler.

This project models the logic the repository owns, which is the `Sequences`
type in `src/sequences.rs`:

- `get_regions` splits the regions file into lines and drops empty lines. It
  strips one leading `-`, which sets the reverse flag. It hands the rest of the
  line to the region parser and silently skips the lines the parser rejects.
  Modules `TextLines` and `RegionList`.
- `extract` queries the indexed reader once per region, in order. When the
  reverse flag is set it rebuilds the record as the reverse complement: the
  name is kept and the description dropped. It then pushes the record's name
  onto `order` and inserts the record into `data` under that name. Modules
  `ReverseComplement` and `Extraction`.
- `write` builds the records handed to the FASTA writer. Without merging, it
  writes `data[k]` for every `k` in `order`. With merging, it writes one record.
  The record's residues are, for every `k` in `order`, `data[k]`'s residues
  followed by `gap_size` copies of `N`. The record is named by the explicit
  contig name, or else by the regions file's stem. Module `Output`.
- `main` chains the three steps. Module `Pipeline`.
- Module `Scenarios` holds worked runs over a tiny reference.

The region parser (`Region::from_str`), the indexed query
(`IndexedReader::query`) and the residue complement table
(`Sequence::complement`) belong to the `noodles` library. Their code is not part
of this model. Every operation therefore takes them as function-valued
parameters (`Parser`, `Query`, `Complement` in `SeqTypes`), and no property
assumes anything about them beyond their types. Either the query or the
complement may fail.

Outputs are modelled as lists of records (name, optional description,
residues), not as bytes.

Main properties proved:

- `order` keeps one entry per region, in region order, duplicates included.
  The keys of `data` are exactly the names in `order`. `data[k]` is the record
  of the LAST region whose record is named `k`.
- So an unmerged run that meets a name twice writes that name's last record
  twice (`Pipeline.UnmergedLastWins`, `Scenarios.RepeatedNameExample`).
- The merged contig is exactly the unmerged output, each record followed by a
  full gap. Its length is the sum of the residues plus `|order| * gap_size`.
  A trailing gap follows the last entry too.

## Behaviour worth knowing

The model follows the code in each case.

- **Gap placement.** The `-g` help text says "insert gaps of this length
  between sequences" (`src/cli.rs:27`). The code pushes a gap after every
  entry and joins the pieces with `""` (`src/sequences.rs:121-127`), so the
  contig also ends with a gap. With gap 3 and two entries `ACGT`, the code
  produces `ACGTNNNACGTNNN`, not `ACGTNNNACGT`. This is stated in
  `Output.TrailingGap`, `Output.MergedSequence` and
  `Scenarios.MergedRunExample`.
- **Repeated names.** `data.insert` replaces an earlier record with the same
  name, and nothing is appended to it (`src/sequences.rs:63-65`). `order`
  keeps every occurrence, so the last record is written once per occurrence.
- **Entries with no residues.** Zero entries give one record with an empty
  sequence (`Output.MergedEmpty`). One entry with zero residues makes
  `Position::try_from(0)` fail, and the `expect` panics
  (`src/sequences.rs:112-113`). Merging therefore requires every stored
  record to be non-empty (`Output.AllNonEmpty`, `Pipeline.MergeSafe`).

## Model

| member | source | states |
|---|---|---|
| TextLines.Lines | src/sequences.rs:164-166 | splitting the file into lines yields no line containing a newline, and only empty text yields no lines |
| TextLines.LinesCons | src/sequences.rs:164-166 | the first line ends at the first newline, losing one `\r` right before it, and the rest of the text is split on its own |
| TextLines.LinesOfLfTerminated | src/sequences.rs:164-166 | newline-terminated lines come back exactly, as long as none contains a newline or ends in `\r` |
| TextLines.LinesOfCrLfTerminated | src/sequences.rs:164-166 | `\r\n`-terminated lines come back exactly, whatever they end with |
| TextLines.LinesOfUnterminatedLast | src/sequences.rs:164-166 | the final terminator is optional: an unterminated last line is still returned, and no empty line follows a final terminator |
| RegionList.RegionText | src/sequences.rs:171-176 | a line starting with `-` loses exactly that one character; any other line is kept as it is |
| RegionList.ParseLine | src/sequences.rs:167-183 | an empty line is dropped; a kept line's region is what the parser returns for the line minus its leading `-`; it is reversed exactly when the line starts with `-`; every line whose text parses is kept |
| RegionList.ParseLines | src/sequences.rs:166-185 | there are never more regions than lines |
| RegionList.ParseLinesMembers | src/sequences.rs:166-185 | every region comes from some line that parses to it, and every line that parses contributes its region |
| RegionList.GetRegions | src/sequences.rs:163-186 | the regions of a file are at most as many as its lines, each comes from a line, and every line that parses is represented |
| RegionList.ParseLinesAppend | src/sequences.rs:166-185 | order is kept and nothing is deduplicated: two runs of lines give the regions of the first followed by those of the second |
| RegionList.ParseLinesSingle | src/sequences.rs:167-183 | one line contributes its own parse result and nothing else |
| RegionList.SkippedLine | src/sequences.rs:167-183 | an empty line, or one whose text the parser rejects, vanishes without a trace and raises no error |
| RegionList.RepeatedLine | src/sequences.rs:166-185 | a kept line given twice yields its region twice |
| RegionList.ReversedLine | src/sequences.rs:171-179 | a line `-t` is reversed and parsed as `t`, so a second `-` stays in the text given to the parser |
| RegionList.ForwardLine | src/sequences.rs:171-179 | a non-empty line not starting with `-` is parsed unchanged and not reversed |
| ReverseComplement.RevComp | src/sequences.rs:56-60 | reverse complementing succeeds exactly when every residue has a complement; the result has the same length and position `i` holds the complement of residue `len-1-i`; on failure the reported residue is the last residue without a complement |
| ReverseComplement.ReverseRecord | src/sequences.rs:54-62 | the reversed record keeps the name, has no description and holds the reverse complement; it fails exactly when some residue has no complement |
| Extraction.Fetch | src/sequences.rs:53-62 | a failed query aborts with the query's error; a forward region yields the queried record; a reversed one yields its reverse complement; a fetched record keeps the queried name |
| Extraction.Extract | src/sequences.rs:51-68 | a successful run pushes one name onto `order` per region |
| Extraction.ExtractValid | src/sequences.rs:63-65 | after a successful run the names with a stored record are exactly the names in `order` |
| Extraction.ExtractStep | src/sequences.rs:52-66 | a successful run over a non-empty list is the run over all but the last region, extended by pushing and inserting the last region's record |
| Extraction.ExtractSucceeds | src/sequences.rs:52-60 | extraction succeeds exactly when every region can be fetched |
| Extraction.ExtractFailsAtFirst | src/sequences.rs:52-60 | a failed extraction reports the error of the first region that cannot be fetched, and every earlier region was fetched |
| Extraction.ExtractOrder | src/sequences.rs:63-64 | `order[i]` is the name of the record fetched for region `i`, duplicates included |
| Extraction.ExtractLastWins | src/sequences.rs:63-65 | the record kept under a name is the one fetched for the last region whose record has that name |
| Extraction.ExtractPrefixFailure | src/sequences.rs:53-60 | once some prefix of the regions fails, the whole run fails with the same error |
| Extraction.ExtractLoop | src/sequences.rs:51-68 | the push-and-insert loop computes exactly the extraction, returning at the first error |
| Output.Gap | src/sequences.rs:96-100 | the gap exists exactly when `gap_size > 0` and is then `gap_size` copies of `N` |
| Output.Unmerged | src/sequences.rs:88-93 | without merging, exactly one record is written per entry of `order`, and record `i` is `data[order[i]]` |
| Output.ContigName | src/sequences.rs:130-134 | the contig is named by the explicit name when one is given, else by the regions file's stem |
| Output.Write | src/sequences.rs:88-139 | without merging, `data[order[i]]` for every `i`; with merging, exactly one record with the contig name, no description, length = residues + `\|order\|`·`gap_size`, and residues = every unmerged record followed by a gap |
| Output.Pieces | src/sequences.rs:109-125 | the merge flattens to one piece per entry, or two per entry when a gap piece is pushed |
| Output.MergedSequence | src/sequences.rs:106-127 | the merged residues are as long as the entries' residues plus one full gap per entry, the last one included |
| Output.EntryPieces | src/sequences.rs:109-124 | one entry's pieces join to its residues followed by exactly `gap_size` `N`s, whether or not a gap piece is pushed |
| Output.ConcatAppend | src/sequences.rs:126-127 | joining with the empty separator distributes over concatenation |
| Output.MergedAppend | src/sequences.rs:106-127 | merging distributes over concatenation of orders |
| Output.MergedSingle | src/sequences.rs:109-124 | a single entry merges to its residues followed by a full gap |
| Output.MergedEmpty | src/sequences.rs:106-127 | an empty order merges to an empty contig |
| Output.MergedLength | src/sequences.rs:106-127 | the joined pieces are as long as the total residue count plus `\|order\|`·`gap_size` |
| Output.MergedWithoutGap | src/sequences.rs:96-100 | with `gap_size = 0` no `N` is added: the contig is the entries' residues back to back |
| Output.TrailingGap | src/sequences.rs:121-127 | whenever something is merged, the contig ends with a full gap |
| Output.MergedIsPadded | src/sequences.rs:106-127 | the merged residues equal the unmerged records' residues, each followed by a gap |
| Output.EntryPosition | src/sequences.rs:106-127 | entry `i` sits after the earlier entries' residues and one gap per earlier entry, and is followed by a full gap |
| Pipeline.Run | src/main.rs:16-19 | a run succeeds exactly when every parsed region can be fetched, and otherwise fails with the first failing region's error; an unmerged run writes, per region, the record of the last region of the same name; a merged run writes one record with the contig name and no description |
| Pipeline.MergeSafeEntries | src/sequences.rs:110-113 | after a successful extraction every name in `order` has a stored record, and merging is safe exactly when each of those records has residues, so an empty record later overwritten under the same name is harmless |
| Pipeline.UnmergedLastWins | src/sequences.rs:88-93 | the unmerged output of a successful extraction has one record per region, named as that region's record, equal to the record of the last region with that name |
| Pipeline.MergeIsPaddedUnmerged | src/sequences.rs:88-139 | a merged run succeeds exactly when an unmerged run does, and writes one record whose residues are the unmerged records' residues, each followed by a gap |
| Scenarios.ReverseComplementExample | src/sequences.rs:56-60 | `ACGTA` reverse complements to `TACGT` |
| Scenarios.ReverseComplementFailureExample | src/sequences.rs:56-60 | in `AXCYG` the reported residue without a complement is `Y`, the last one |
| Scenarios.UnmergedRunExample | src/sequences.rs:88-93 | regions `chr1:1-4` and `chr1:5-8` of `ACGTACGT` give two records `ACGT` |
| Scenarios.MergedRunExample | src/sequences.rs:106-139 | the same run merged with gap 3 gives one record `ACGTNNNACGTNNN`, named after the regions file |
| Scenarios.RepeatedNameExample | src/sequences.rs:63-65 | the same region asked forward then reversed lists its name twice but keeps only the reversed record, which an unmerged run writes twice |

## Left out

- `get_reader` (`src/sequences.rs:145-159`) is left out. It checks for the `.fai` file, builds and writes the index, and opens the indexed reader. All of that is file I/O and `noodles` internals. The reader appears only as the `Query` parameter.
- The region grammar and `IndexedReader::query`'s offset arithmetic are left out, because they live in `noodles`. They are the `Parser` and `Query` parameters. A query may fail, and its message is carried as opaque text.
- The nucleotide complement table is left out, because it is `noodles`' `Sequence::complement`. It is the `Complement` parameter, a per-residue function that may fail. Nothing about it is assumed; in particular, it is not assumed to be an involution.
- FASTA serialisation and line wrapping (`fasta::Writer`) are left out. So is the choice between a file and standard output (`src/sequences.rs:83-86`), and write errors. The model stops at the list of records handed to the writer.
- `Path::file_stem` (`src/sequences.rs:39-44`) is left out. The stem of the regions file name is an input string.
- Reading the regions file (`read_to_string(...).unwrap()`) is I/O, so it is left out. The model starts from the file's text.
- Pipeline.Run: the merged record's residues are not stated in its own contract. They are stated in `Pipeline.MergeIsPaddedUnmerged` and `Output.Write`.
- Residues are modelled as characters, so the UTF-8 check in merging (`str::from_utf8(...).expect`, `src/sequences.rs:114-120`) is not modelled. A residue byte that is not valid UTF-8 would panic there.
- When `extract` fails part-way, the regions handled before the failure remain in `order` and `data`. The model does not keep that partial state, because `main` aborts on the error and nothing reads it.
- `gap_size` and all lengths are unbounded naturals. `usize` limits and allocation failure for huge gaps are not modelled.
- `src/cli.rs` and the rest of `src/main.rs` are left out. They only parse arguments with `clap` and wire the steps together.
