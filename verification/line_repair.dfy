/**
  The line-based repair of a truncated manifest: the text is split into
  lines, a running count of `{` minus `}` is kept, and the copy stops at the
  first line that closes more braces than were opened once the
  `"frame_data":` key has been seen; otherwise the missing `}` are appended.
  Braces inside string literals are counted like any other.
*/
module LineRepair {
  import opened Text

  const FrameDataKey := "\"frame_data\":"
  const CloseArray := "    ]"
  const CloseObject := "}"

  /** How much one line changes the running count. */
  function Delta(line: string): int {
    Occurrences(line, '{') - Occurrences(line, '}')
  }

  /** The running count after the given lines. */
  function Balance(lines: seq<string>): int {
    if |lines| == 0 then 0 else Balance(lines[..|lines| - 1]) + Delta(lines[|lines| - 1])
  }

  predicate Marks(line: string) {
    Contains(line, FrameDataKey)
  }

  /** Some line so far mentions the frame log key. */
  predicate Seen(lines: seq<string>) {
    exists j :: 0 <= j < |lines| && Marks(lines[j])
  }

  /** Line k is one where the copy may stop: the key was seen and the count is negative. */
  predicate CutAt(lines: seq<string>, k: int) {
    0 <= k < |lines| && Seen(lines[..k + 1]) && Balance(lines[..k + 1]) < 0
  }

  /** `n` closing-brace lines, none when `n` is not positive. */
  function Braces(n: int): (r: seq<string>)
    ensures |r| == if n > 0 then n else 0
    ensures forall i :: 0 <= i < |r| ==> r[i] == CloseObject
    decreases n
  {
    if n <= 0 then [] else [CloseObject] + Braces(n - 1)
  }

  /** The repair loop from line `i`, with the count and the flag it has reached. */
  function RepairFrom(lines: seq<string>, i: nat, count: int, inFrameData: bool): seq<string>
    requires i <= |lines|
    decreases |lines| - i
  {
    if i == |lines| then Braces(count)
    else
      var c := count + Delta(lines[i]);
      var f := inFrameData || Marks(lines[i]);
      if f && c < 0 then [lines[i], CloseArray, CloseObject]
      else [lines[i]] + RepairFrom(lines, i + 1, c, f)
  }

  /** The repaired lines. */
  function Repair(lines: seq<string>): seq<string> {
    RepairFrom(lines, 0, 0, false)
  }

  /** The repaired text written back to the manifest. */
  function RepairText(content: string): string {
    Join(Repair(Split(content, '\n')), '\n')
  }

  /** Extending the prefix by one line moves the count by its delta and may set the flag. */
  lemma Extend(lines: seq<string>, i: nat)
    requires i < |lines|
    ensures Balance(lines[..i + 1]) == Balance(lines[..i]) + Delta(lines[i])
    ensures Seen(lines[..i + 1]) <==> Seen(lines[..i]) || Marks(lines[i])
  {
    assert lines[..i + 1][..i] == lines[..i];
    assert lines[..i + 1][i] == lines[i];
    if Seen(lines[..i]) {
      var j :| 0 <= j < i && Marks(lines[..i][j]);
      assert lines[..i + 1][j] == lines[..i][j];
    }
  }

  /** A turn of the loop on a line where it may stop: it stops there. */
  lemma Stops(lines: seq<string>, i: nat)
    requires CutAt(lines, i)
    ensures RepairFrom(lines, i, Balance(lines[..i]), Seen(lines[..i])) == [lines[i], CloseArray, CloseObject]
  {
    Extend(lines, i);
  }

  /** A turn of the loop on any other line: it copies the line and moves on. */
  lemma GoesOn(lines: seq<string>, i: nat)
    requires i < |lines| && !CutAt(lines, i)
    ensures RepairFrom(lines, i, Balance(lines[..i]), Seen(lines[..i]))
         == [lines[i]] + RepairFrom(lines, i + 1, Balance(lines[..i + 1]), Seen(lines[..i + 1]))
  {
    Extend(lines, i);
  }

  /** Taking one line off the front of a slice. */
  lemma ConsSlice(lines: seq<string>, i: nat, j: nat, tail: seq<string>)
    requires i < j <= |lines|
    ensures [lines[i]] + (lines[i + 1..j] + tail) == lines[i..j] + tail
  {
    assert lines[i..j] == [lines[i]] + lines[i + 1..j];
  }

  /** Taking one line off the front of a suffix. */
  lemma ConsSuffix(lines: seq<string>, i: nat, tail: seq<string>)
    requires i < |lines|
    ensures [lines[i]] + (lines[i + 1..] + tail) == lines[i..] + tail
  {
    assert lines[i..] == [lines[i]] + lines[i + 1..];
  }

  lemma {:induction false} RepairFromCut(lines: seq<string>, i: nat, k: nat)
    requires i <= k && CutAt(lines, k)
    requires forall j :: i <= j < k ==> !CutAt(lines, j)
    ensures RepairFrom(lines, i, Balance(lines[..i]), Seen(lines[..i]))
         == lines[i..k + 1] + [CloseArray, CloseObject]
    decreases k - i
  {
    if i < k {
      GoesOn(lines, i);
      RepairFromCut(lines, i + 1, k);
      ConsSlice(lines, i, k + 1, [CloseArray, CloseObject]);
    } else {
      Stops(lines, i);
      assert lines[i..k + 1] == [lines[i]];
    }
  }

  lemma {:induction false} RepairFromUncut(lines: seq<string>, i: nat)
    requires i <= |lines|
    requires forall j :: i <= j < |lines| ==> !CutAt(lines, j)
    ensures RepairFrom(lines, i, Balance(lines[..i]), Seen(lines[..i]))
         == lines[i..] + Braces(Balance(lines))
    decreases |lines| - i
  {
    if i == |lines| {
      assert lines[..i] == lines;
      assert lines[i..] + Braces(Balance(lines)) == Braces(Balance(lines));
    } else {
      GoesOn(lines, i);
      RepairFromUncut(lines, i + 1);
      ConsSuffix(lines, i, Braces(Balance(lines)));
    }
  }

  /**
    When the copy stops, at the first line k where it may, the repaired
    lines are the input up to and including line k, then `    ]` and `}`.
  */
  lemma RepairCuts(lines: seq<string>, k: nat)
    requires CutAt(lines, k)
    requires forall j :: 0 <= j < k ==> !CutAt(lines, j)
    ensures Repair(lines) == lines[..k + 1] + [CloseArray, CloseObject]
  {
    assert lines[..0] == [];
    RepairFromCut(lines, 0, k);
  }

  /**
    When no line lets the copy stop, the repaired lines are all the input
    lines followed by one `}` per unit of positive final count.
  */
  lemma RepairUncut(lines: seq<string>)
    requires forall j :: 0 <= j < |lines| ==> !CutAt(lines, j)
    ensures Repair(lines) == lines + Braces(Balance(lines))
  {
    assert lines[..0] == [];
    RepairFromUncut(lines, 0);
  }

  /**
    A text whose lines never let the copy stop and whose braces do not
    leave any open is written back unchanged.
  */
  lemma RepairKeepsBalancedText(content: string)
    requires forall j :: 0 <= j < |Split(content, '\n')| ==> !CutAt(Split(content, '\n'), j)
    requires Balance(Split(content, '\n')) <= 0
    ensures RepairText(content) == content
  {
    var lines := Split(content, '\n');
    RepairUncut(lines);
    assert lines + Braces(Balance(lines)) == lines;
    JoinSplit(content, '\n');
  }
}
