/** Assembling the records to write (`Sequences::write`), as a list of records
    rather than bytes. Without merging, the stored record of every name in
    `order` is written, once per occurrence. With merging, one record is
    written whose residues are, for every name in `order`, its stored residues
    followed by `gap_size` copies of `N`, the last entry included. */
module Output {
  import opened SeqTypes
  import opened Extraction

  /** The gap filler: absent when the gap size is zero. */
  function Gap(gapSize: nat): (g: Option<string>)
    ensures g.Some? <==> gapSize > 0
    ensures g.Some? ==> |g.value| == gapSize && forall i :: 0 <= i < gapSize ==> g.value[i] == 'N'
  {
    if gapSize > 0 then Some(Repeat('N', gapSize)) else None
  }

  function Repeat(c: char, n: nat): (s: string)
    ensures |s| == n
    ensures forall i :: 0 <= i < n ==> s[i] == c
  {
    if n == 0 then [] else [c] + Repeat(c, n - 1)
  }

  /** Every name in `order` has a stored record (otherwise `write` panics). */
  predicate AllKeysPresent(order: seq<string>, data: map<string, Record>)
  {
    forall k :: k in order ==> k in data
  }

  /** Every record named in `order` has residues (a zero length is not a valid
      end position, and merging panics on it). */
  predicate AllNonEmpty(order: seq<string>, data: map<string, Record>)
    requires AllKeysPresent(order, data)
  {
    forall k :: k in order ==> |data[k].sequence| > 0
  }

  /** The records written without merging, one per entry of `order`. */
  function Unmerged(order: seq<string>, data: map<string, Record>): (rs: seq<Record>)
    requires AllKeysPresent(order, data)
    ensures |rs| == |order|
    ensures forall i :: 0 <= i < |order| ==> rs[i] == data[order[i]]
  {
    if order == [] then [] else [data[order[0]]] + Unmerged(order[1..], data)
  }

  /** The pieces the merge flattens: each entry's residues, followed by the
      gap when there is one. */
  function Pieces(order: seq<string>, data: map<string, Record>, gapSize: nat): (ps: seq<string>)
    requires AllKeysPresent(order, data)
    ensures gapSize == 0 ==> |ps| == |order|
    ensures gapSize > 0 ==> |ps| == 2 * |order|
  {
    if order == [] then []
    else
      var entry := [data[order[0]].sequence] + match Gap(gapSize) case Some(g) => [g] case None => [];
      entry + Pieces(order[1..], data, gapSize)
  }

  /** Joins pieces with the empty separator. */
  function Concat(ps: seq<string>): string
  {
    if ps == [] then [] else ps[0] + Concat(ps[1..])
  }

  /** The residues of the merged contig: the pieces joined with the empty
      separator. Its length counts one full gap per entry, the last one
      included. */
  function MergedSequence(order: seq<string>, data: map<string, Record>, gapSize: nat): (m: string)
    requires AllKeysPresent(order, data)
    ensures |m| == TotalLength(order, data) + |order| * gapSize
  {
    MergedLength(order, data, gapSize);
    Concat(Pieces(order, data, gapSize))
  }

  /** Total residues of the records named by `order`, counting repeats. */
  function TotalLength(order: seq<string>, data: map<string, Record>): nat
    requires AllKeysPresent(order, data)
  {
    if order == [] then 0 else |data[order[0]].sequence| + TotalLength(order[1..], data)
  }

  /** The merged contig is named by the explicit name, or else by the stem
      of the regions file name. */
  function ContigName(contigName: Option<string>, regionsStem: string): (name: string)
    ensures contigName.Some? ==> name == contigName.value
    ensures contigName.None? ==> name == regionsStem
  {
    match contigName
    case Some(n) => n
    case None => regionsStem
  }

  /** Everything `write` hands to the FASTA writer, in writing order. */
  function Write(e: Extracted, merge: bool, contigName: Option<string>, gapSize: nat, regionsStem: string): (rs: seq<Record>)
    requires AllKeysPresent(e.order, e.data)
    requires merge ==> AllNonEmpty(e.order, e.data)
    ensures !merge ==> |rs| == |e.order| && forall i :: 0 <= i < |e.order| ==> rs[i] == e.data[e.order[i]]
    ensures merge ==> |rs| == 1
    ensures merge ==> rs[0].name == ContigName(contigName, regionsStem) && rs[0].description == None
    ensures merge ==> |rs[0].sequence| == TotalLength(e.order, e.data) + |e.order| * gapSize
    ensures merge ==> rs[0].sequence == Padded(Unmerged(e.order, e.data), gapSize)
  {
    if !merge then Unmerged(e.order, e.data)
    else
      MergedIsPadded(e.order, e.data, gapSize);
      [Record(ContigName(contigName, regionsStem), None, MergedSequence(e.order, e.data, gapSize))]
  }

  lemma {:induction false} ConcatAppend(a: seq<string>, b: seq<string>)
    ensures Concat(a + b) == Concat(a) + Concat(b)
  {
    if a == [] {
      assert a + b == b;
    } else {
      assert (a + b)[0] == a[0];
      assert (a + b)[1..] == a[1..] + b;
      ConcatAppend(a[1..], b);
    }
  }

  /** The pieces of one entry join to its residues followed by exactly
      `gapSize` copies of `N`, whether or not a gap piece was pushed. */
  lemma EntryPieces(order: seq<string>, data: map<string, Record>, gapSize: nat)
    requires AllKeysPresent(order, data) && order != []
    ensures Concat(Pieces(order, data, gapSize)) ==
      data[order[0]].sequence + Repeat('N', gapSize) + Concat(Pieces(order[1..], data, gapSize))
  {
    var s := data[order[0]].sequence;
    var entry := [s] + match Gap(gapSize) case Some(g) => [g] case None => [];
    ConcatAppend(entry, Pieces(order[1..], data, gapSize));
    if gapSize > 0 {
      assert entry == [s, Repeat('N', gapSize)];
      assert Concat(entry) == s + (Repeat('N', gapSize) + Concat([]));
    } else {
      assert entry == [s];
      assert Repeat('N', gapSize) == [];
      assert Concat(entry) == s + Concat([]);
    }
  }

  /** Merging distributes over concatenation of orders. */
  lemma {:induction false} MergedAppend(a: seq<string>, b: seq<string>, data: map<string, Record>, gapSize: nat)
    requires AllKeysPresent(a + b, data)
    ensures AllKeysPresent(a, data) && AllKeysPresent(b, data)
    ensures MergedSequence(a + b, data, gapSize) == MergedSequence(a, data, gapSize) + MergedSequence(b, data, gapSize)
  {
    assert forall k :: k in a ==> k in a + b;
    assert forall k :: k in b ==> k in a + b;
    if a == [] {
      assert a + b == b;
    } else {
      assert (a + b)[0] == a[0];
      assert (a + b)[1..] == a[1..] + b;
      EntryPieces(a + b, data, gapSize);
      EntryPieces(a, data, gapSize);
      MergedAppend(a[1..], b, data, gapSize);
    }
  }

  /** One entry merges to its residues and a full gap after them. */
  lemma MergedSingle(k: string, data: map<string, Record>, gapSize: nat)
    requires k in data
    ensures MergedSequence([k], data, gapSize) == data[k].sequence + Repeat('N', gapSize)
  {
    EntryPieces([k], data, gapSize);
    assert [k][1..] == [];
  }

  /** Nothing to merge gives an empty contig. */
  lemma MergedEmpty(data: map<string, Record>, gapSize: nat)
    ensures MergedSequence([], data, gapSize) == []
  {
  }

  /** The merged length is the residue total plus one full gap per entry of
      `order`, the last one included. */
  lemma {:induction false} MergedLength(order: seq<string>, data: map<string, Record>, gapSize: nat)
    requires AllKeysPresent(order, data)
    ensures |Concat(Pieces(order, data, gapSize))| == TotalLength(order, data) + |order| * gapSize
  {
    if order != [] {
      var rest, s := order[1..], data[order[0]].sequence;
      EntryPieces(order, data, gapSize);
      MergedLength(rest, data, gapSize);
      var n := |rest|;
      assert |order| == n + 1;
      OneMoreGap(n, gapSize);
      assert TotalLength(order, data) == |s| + TotalLength(rest, data);
      assert |Concat(Pieces(order, data, gapSize))| == |s| + gapSize + |Concat(Pieces(rest, data, gapSize))|;
    }
  }

  lemma OneMoreGap(n: nat, gapSize: nat)
    ensures (n + 1) * gapSize == gapSize + n * gapSize
  {
  }

  /** With a gap size of zero no `N` is added: the contig is the residues of
      the entries, back to back. */
  lemma {:induction false} MergedWithoutGap(order: seq<string>, data: map<string, Record>)
    requires AllKeysPresent(order, data)
    ensures MergedSequence(order, data, 0) == Concat(Residues(order, data))
  {
    if order != [] {
      EntryPieces(order, data, 0);
      MergedWithoutGap(order[1..], data);
      assert Residues(order, data) == [data[order[0]].sequence] + Residues(order[1..], data);
      ConcatAppend([data[order[0]].sequence], Residues(order[1..], data));
    }
  }

  function Residues(order: seq<string>, data: map<string, Record>): (ss: seq<string>)
    requires AllKeysPresent(order, data)
    ensures |ss| == |order|
    ensures forall i :: 0 <= i < |order| ==> ss[i] == data[order[i]].sequence
  {
    if order == [] then [] else [data[order[0]].sequence] + Residues(order[1..], data)
  }

  /** The contig ends with a full gap whenever something was merged. */
  lemma TrailingGap(order: seq<string>, data: map<string, Record>, gapSize: nat)
    requires AllKeysPresent(order, data) && order != []
    ensures var m := MergedSequence(order, data, gapSize);
      |m| >= gapSize && m[|m| - gapSize..] == Repeat('N', gapSize)
  {
    var pre, last := order[..|order| - 1], order[|order| - 1];
    assert order == pre + [last];
    MergedAppend(pre, [last], data, gapSize);
    MergedSingle(last, data, gapSize);
  }

  /** Reference reading of the merge: every record's residues followed by a
      gap of `gapSize` copies of `N`. */
  function Padded(rs: seq<Record>, gapSize: nat): string
  {
    if rs == [] then [] else rs[0].sequence + Repeat('N', gapSize) + Padded(rs[1..], gapSize)
  }

  /** Merging produces exactly the records an unmerged run would write, each
      followed by its gap. */
  lemma {:induction false} MergedIsPadded(order: seq<string>, data: map<string, Record>, gapSize: nat)
    requires AllKeysPresent(order, data)
    ensures MergedSequence(order, data, gapSize) == Padded(Unmerged(order, data), gapSize)
  {
    if order != [] {
      EntryPieces(order, data, gapSize);
      MergedIsPadded(order[1..], data, gapSize);
      assert Unmerged(order, data)[1..] == Unmerged(order[1..], data);
    }
  }

  /** Where each entry lands in the merged contig: entry `i` starts after the
      residues of the entries before it and one gap per earlier entry, and
      is followed by a full gap. */
  lemma EntryPosition(order: seq<string>, data: map<string, Record>, gapSize: nat, i: nat)
    requires AllKeysPresent(order, data) && i < |order|
    ensures AllKeysPresent(order[..i], data)
    ensures var m := MergedSequence(order, data, gapSize);
      var start := TotalLength(order[..i], data) + i * gapSize;
      var s := data[order[i]].sequence;
      start + |s| + gapSize <= |m| &&
      m[start..start + |s|] == s &&
      m[start + |s|..start + |s| + gapSize] == Repeat('N', gapSize)
  {
    var before, after := order[..i], order[i + 1..];
    assert order == before + [order[i]] + after;
    MergedAppend(before + [order[i]], after, data, gapSize);
    MergedAppend(before, [order[i]], data, gapSize);
    MergedSingle(order[i], data, gapSize);
    var a, c := MergedSequence(before, data, gapSize), MergedSequence(after, data, gapSize);
    var s, g := data[order[i]].sequence, Repeat('N', gapSize);
    assert |before| == i;
    assert |a| == TotalLength(before, data) + i * gapSize;
    var m := MergedSequence(order, data, gapSize);
    assert m == a + (s + g) + c;
    Infix(a, s, g + c);
    Infix(a + s, g, c);
  }

  /** The slice of `a + b + c` after `a` and as long as `b` is `b`. */
  lemma Infix<T>(a: seq<T>, b: seq<T>, c: seq<T>)
    ensures (a + b + c)[|a|..|a| + |b|] == b
  {
  }
}
