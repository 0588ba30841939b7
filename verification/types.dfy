/** The data model shared by the extraction pipeline: FASTA records, parsed
    regions, the error kinds that abort a run, and the signatures of the three
    collaborators the pipeline delegates to (region parser, indexed query,
    per-symbol complement). Those collaborators live in a library outside this
    model, so every operation takes them as function-valued parameters and
    assumes nothing about them beyond their types. */
module SeqTypes {

  datatype Option<+T> = None | Some(value: T)

  datatype Result<+T, +E> = Success(value: T) | Failure(error: E)

  /** A region as the parser produces it: a reference name and optional
      1-based inclusive bounds. Only its identity matters to the pipeline. */
  datatype Region = Region(name: string, start: Option<nat>, end: Option<nat>)

  /** A FASTA record: the name and optional description of its definition
      line, and its residues. */
  datatype Record = Record(name: string, description: Option<string>, sequence: seq<char>)

  /** Why extraction stops: the indexed query failed (its message is opaque),
      or a residue has no complement. */
  datatype Error = QueryError(message: string) | ComplementError(symbol: char)

  /** Parses the text of one region line; `None` when the text is rejected. */
  type Parser = string -> Option<Region>

  /** Fetches the record covering a region from the indexed FASTA file. */
  type Query = Region -> Result<Record, string>

  /** Complements one residue; `None` when the residue is outside the table. */
  type Complement = char -> Option<char>

  /** A parsed region line: the region and whether it is reverse complemented. */
  type RegionLine = (Region, bool)
}
