/** Reverse complement of a record (the `reversed` branch of
    `Sequences::extract`). The per-residue complement table belongs to the
    sequence library and is a parameter here. */
module ReverseComplement {
  import opened SeqTypes

  /** Complements the residues last to first, as the reversed iterator does,
      so the first residue without a complement that it meets, and reports,
      is the LAST such residue of `s`. */
  function RevComp(s: seq<char>, complement: Complement): (r: Result<seq<char>, char>)
    ensures r.Success? <==> forall i :: 0 <= i < |s| ==> complement(s[i]).Some?
    ensures r.Success? ==> |r.value| == |s|
    ensures r.Success? ==> forall i :: 0 <= i < |s| ==> Some(r.value[i]) == complement(s[|s| - 1 - i])
    ensures r.Failure? ==>
      exists j :: 0 <= j < |s| && s[j] == r.error && complement(s[j]).None? &&
                  forall k :: j < k < |s| ==> complement(s[k]).Some?
    decreases |s|
  {
    if s == [] then Success([])
    else
      var last := s[|s| - 1];
      match complement(last)
      case None => Failure(last)
      case Some(c) =>
        match RevComp(s[..|s| - 1], complement)
        case Success(t) => Success([c] + t)
        case Failure(e) => Failure(e)
  }

  /** The reversed record keeps its name, loses its description and carries
      the reverse complement of the residues. */
  function ReverseRecord(rec: Record, complement: Complement): (r: Result<Record, Error>)
    ensures r.Success? <==> forall i :: 0 <= i < |rec.sequence| ==> complement(rec.sequence[i]).Some?
    ensures r.Success? ==> r.value.name == rec.name && r.value.description == None
    ensures r.Success? ==> |r.value.sequence| == |rec.sequence|
    ensures r.Success? ==> forall i :: 0 <= i < |rec.sequence| ==>
      Some(r.value.sequence[i]) == complement(rec.sequence[|rec.sequence| - 1 - i])
    ensures r.Failure? ==>
      r.error.ComplementError? && r.error.symbol in rec.sequence && complement(r.error.symbol).None?
  {
    match RevComp(rec.sequence, complement)
    case Success(t) => Success(Record(rec.name, None, t))
    case Failure(c) => Failure(ComplementError(c))
  }
}
