/** Splitting the regions file into lines the way Rust's `str::lines` does:
    a line ends at `\n`, a `\r` right before that `\n` is dropped too, the
    final line needs no terminator, and a terminator at the very end does not
    start an extra empty line. */
module TextLines {

  /** Position of the first `\n` in `s`, or `|s|` when there is none. */
  function NewlineIndex(s: string): (i: nat)
    ensures i <= |s|
    ensures forall j :: 0 <= j < i ==> s[j] != '\n'
    ensures i < |s| ==> s[i] == '\n'
  {
    if s == [] then 0
    else if s[0] == '\n' then 0
    else 1 + NewlineIndex(s[1..])
  }

  /** Drops one trailing `\r`, if there is one. */
  function StripCarriageReturn(line: string): (r: string)
    ensures r <= line
    ensures r == line || (r + "\r" == line)
  {
    if |line| > 0 && line[|line| - 1] == '\r' then line[..|line| - 1] else line
  }

  function Lines(text: string): (ls: seq<string>)
    ensures forall i :: 0 <= i < |ls| ==> '\n' !in ls[i]
    ensures text == [] <==> ls == []
    decreases |text|
  {
    if text == [] then []
    else
      var i := NewlineIndex(text);
      if i == |text| then [text]
      else
        var line := text[..i];
        assert '\n' !in line by {
          forall j | 0 <= j < |line| ensures line[j] != '\n' {
            assert line[j] == text[j];
          }
        }
        [StripCarriageReturn(line)] + Lines(text[i + 1..])
  }

  /** Each of `ls` followed by `terminator`. */
  function Terminated(ls: seq<string>, terminator: string): string
  {
    if ls == [] then [] else ls[0] + terminator + Terminated(ls[1..], terminator)
  }

  predicate NoNewline(line: string)
  {
    '\n' !in line
  }

  predicate EndsWithCarriageReturn(line: string)
  {
    |line| > 0 && line[|line| - 1] == '\r'
  }

  /** The first line ends at the first `\n`, and the rest of the text is split
      on its own. */
  lemma LinesCons(line: string, rest: string)
    requires NoNewline(line)
    ensures Lines(line + "\n" + rest) == [StripCarriageReturn(line)] + Lines(rest)
  {
    var text := line + "\n" + rest;
    var i := NewlineIndex(text);
    assert text[|line|] == '\n';
    assert forall j :: 0 <= j < |line| ==> text[j] == line[j];
    assert i == |line|;
    assert text[..i] == line;
    assert text[i + 1..] == rest;
  }

  /** A final line without a terminator is kept whole. */
  lemma LinesLast(line: string)
    requires NoNewline(line) && line != []
    ensures Lines(line) == [line]
  {
    assert NewlineIndex(line) == |line|;
  }

  /** Lines terminated by `\n` are recovered exactly, as long as none of them
      contains `\n` or ends in `\r` (that `\r` would be taken for half of a
      `\r\n` terminator). */
  lemma {:induction false} LinesOfLfTerminated(ls: seq<string>)
    requires forall i :: 0 <= i < |ls| ==> NoNewline(ls[i]) && !EndsWithCarriageReturn(ls[i])
    ensures Lines(Terminated(ls, "\n")) == ls
  {
    if ls != [] {
      LinesCons(ls[0], Terminated(ls[1..], "\n"));
      LinesOfLfTerminated(ls[1..]);
    }
  }

  /** Lines terminated by `\r\n` are recovered exactly, whatever they end in. */
  lemma {:induction false} LinesOfCrLfTerminated(ls: seq<string>)
    requires forall i :: 0 <= i < |ls| ==> NoNewline(ls[i])
    ensures Lines(Terminated(ls, "\r\n")) == ls
  {
    if ls != [] {
      var rest := Terminated(ls[1..], "\r\n");
      assert ls[0] + "\r\n" + rest == (ls[0] + "\r") + "\n" + rest;
      assert NoNewline(ls[0] + "\r") by {
        assert forall j :: 0 <= j < |ls[0]| ==> (ls[0] + "\r")[j] == ls[0][j];
      }
      LinesCons(ls[0] + "\r", rest);
      assert StripCarriageReturn(ls[0] + "\r") == ls[0];
      LinesOfCrLfTerminated(ls[1..]);
    }
  }

  /** The final terminator is optional: a last line left unterminated is
      still returned, and no empty line follows it. */
  lemma {:induction false} LinesOfUnterminatedLast(ls: seq<string>, last: string)
    requires forall i :: 0 <= i < |ls| ==> NoNewline(ls[i]) && !EndsWithCarriageReturn(ls[i])
    requires NoNewline(last) && last != []
    ensures Lines(Terminated(ls, "\n") + last) == ls + [last]
  {
    if ls == [] {
      assert Terminated(ls, "\n") + last == last;
      LinesLast(last);
    } else {
      var rest := Terminated(ls[1..], "\n");
      assert Terminated(ls, "\n") + last == ls[0] + "\n" + (rest + last);
      LinesCons(ls[0], rest + last);
      assert StripCarriageReturn(ls[0]) == ls[0];
      LinesOfUnterminatedLast(ls[1..], last);
      assert Lines(rest + last) == ls[1..] + [last];
      assert ls == [ls[0]] + ls[1..];
    }
  }
}
