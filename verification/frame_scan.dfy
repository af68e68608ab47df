/**
  The last-resort loader of the rename tool: it finds the frame log key in
  the raw text and cuts out every balanced `{...}` chunk after it with a
  character-level depth count, keeps the chunks the decoder accepts, and
  wraps them in a synthetic manifest. Braces inside string literals are
  counted like any other. The decoder is a parameter.
*/
module FrameScan {
  import opened Wrappers
  import opened Text
  import opened Json
  import opened Indices
  import Recorder

  const StartMarker := "\"frame_data\": ["

  /** How one character moves the depth count. */
  function Step(c: char): int {
    if c == '{' then 1 else if c == '}' then -1 else 0
  }

  /** The count of `{` minus `}` in `s[i..k]`. */
  function Depth(s: string, i: nat, k: nat): int
    requires i <= k <= |s|
    decreases k - i
  {
    if i == k then 0 else Step(s[i]) + Depth(s, i + 1, k)
  }

  /** Positions in `[lo, hi)`, strictly increasing. */
  predicate Ascending(cuts: seq<nat>, lo: nat, hi: nat) {
    && (forall j :: 0 <= j < |cuts| ==> lo <= cuts[j] < hi)
    && (forall j, j' :: 0 <= j < j' < |cuts| ==> cuts[j] < cuts[j'])
  }

  /**
    The positions from `i` on where the scan closes a chunk, having reached
    depth `depth` before `i`: exactly the `}` that bring the count to 0.
  */
  function Cuts(s: string, i: nat, depth: int): (cuts: seq<nat>)
    requires i <= |s|
    ensures Ascending(cuts, i, |s|)
    ensures forall k :: k in cuts <==> i <= k < |s| && s[k] == '}' && depth + Depth(s, i, k + 1) == 0
    decreases |s| - i
  {
    if i == |s| then []
    else
      var d := depth + Step(s[i]);
      var rest := Cuts(s, i + 1, d);
      assert forall k :: i < k < |s| && s[k] == '}' ==> depth + Depth(s, i, k + 1) == d + Depth(s, i + 1, k + 1);
      if s[i] == '}' && d == 0 then [i] + rest else rest
  }

  /** A chunk is stripped, loses one leading comma, and is stripped again. */
  function Chunk(text: string): string {
    var t := Strip(text);
    if StartsWith(t, ",") then Strip(t[1..]) else t
  }

  /** Where the piece ending at cut j starts: at `from`, or just after the previous cut. */
  function Start(from: nat, cuts: seq<nat>, hi: nat, j: nat): (lo: nat)
    requires Ascending(cuts, from, hi) && j < |cuts|
    ensures lo <= cuts[j]
  {
    if j == 0 then from else cuts[j - 1] + 1
  }

  /** The raw texts between consecutive cuts, the first starting at `from`. */
  function Pieces(s: string, from: nat, cuts: seq<nat>): seq<string>
    requires Ascending(cuts, from, |s|)
  {
    seq(|cuts|, j requires 0 <= j < |cuts| => s[Start(from, cuts, |s|, j)..cuts[j] + 1])
  }

  /**
    What happens to one decoded chunk. A dict is kept, gaining
    `frame_filename: None` when it lacks the key. A list or a string that
    already holds `"frame_filename"` is kept as it is; anything else fails
    the membership test or the item assignment and is dropped, as is a
    chunk the decoder rejects.
  */
  function Keep(decoded: Option<Value>): (kept: seq<Value>)
    ensures |kept| <= 1
    ensures decoded.None? ==> kept == []
    ensures forall x :: x in kept && x.Obj? ==> Get(x.fields, FrameFilename).Some?
    ensures decoded.Some? && decoded.value.Obj? ==>
      var fs := decoded.value.fields;
      && |kept| == 1 && kept[0].Obj?
      && Get(kept[0].fields, FrameFilename) == (if HasField(fs, FrameFilename) then Get(fs, FrameFilename) else Some(Null))
      && forall k :: k != FrameFilename ==> Get(kept[0].fields, k) == Get(fs, k)
    ensures decoded.Some? && !decoded.value.Obj? ==> forall x :: x in kept ==> x == decoded.value
    ensures decoded.Some? && decoded.value.Arr? ==> (kept == [decoded.value] <==> Str(FrameFilename) in decoded.value.items)
    ensures decoded.Some? && decoded.value.Str? ==> (kept == [decoded.value] <==> Contains(decoded.value.s, FrameFilename))
    ensures decoded.Some? && !decoded.value.Obj? && !decoded.value.Arr? && !decoded.value.Str? ==> kept == []
  {
    match decoded
    case None => []
    case Some(v) =>
      match v
      case Obj(fs) => if HasField(fs, FrameFilename) then [v] else [Obj(Put(fs, FrameFilename, Null))]
      case Arr(xs) => if Str(FrameFilename) in xs then [v] else []
      case Str(t) => if Contains(t, FrameFilename) then [v] else []
      case _ => []
  }

  /** The records kept from the raw pieces, each cut down to a chunk and decoded, in order. */
  function KeepAll(pieces: seq<string>, parse: string -> Option<Value>): (frames: seq<Value>)
    ensures |frames| <= |pieces|
    ensures forall x :: x in frames && x.Obj? ==> Get(x.fields, FrameFilename).Some?
    ensures (forall j :: 0 <= j < |pieces| ==> parse(Chunk(pieces[j])).Some? && parse(Chunk(pieces[j])).value.Obj?) ==>
      |frames| == |pieces|
  {
    if |pieces| == 0 then []
    else
      var rest := KeepAll(pieces[1..], parse);
      assert forall x :: x in Keep(parse(Chunk(pieces[0]))) + rest ==> x in Keep(parse(Chunk(pieces[0]))) || x in rest;
      Keep(parse(Chunk(pieces[0]))) + rest
  }

  /** The outcome for each piece: its record, or nothing. */
  function Outcomes(pieces: seq<string>, parse: string -> Option<Value>): (outs: seq<seq<Value>>)
    ensures |outs| == |pieces|
    ensures forall j :: 0 <= j < |pieces| ==> outs[j] == Keep(parse(Chunk(pieces[j]))) && |outs[j]| <= 1
  {
    seq(|pieces|, j requires 0 <= j < |pieces| => Keep(parse(Chunk(pieces[j]))))
  }

  /** The outcomes laid end to end. */
  function Flatten<T>(outs: seq<seq<T>>): seq<T>
    decreases |outs|
  {
    if |outs| == 0 then [] else outs[0] + Flatten(outs[1..])
  }

  /**
    `idx` lists, in increasing order, exactly the positions of the outcomes
    that hold a value.
  */
  predicate Positions<T>(outs: seq<seq<T>>, idx: seq<nat>) {
    && (forall m :: 0 <= m < |idx| ==> idx[m] < |outs| && |outs[idx[m]]| > 0)
    && (forall m, m' :: 0 <= m < m' < |idx| ==> idx[m] < idx[m'])
    && (forall j :: 0 <= j < |outs| && |outs[j]| > 0 ==> j in idx)
  }

  /** Every later position holding a value is among the shifted positions of the tail. */
  lemma ShiftCovers<T>(outs: seq<seq<T>>, rest: seq<nat>)
    requires |outs| > 0 && Positions(outs[1..], rest)
    ensures forall j :: 0 < j < |outs| && |outs[j]| > 0 ==> j in Shift(rest)
  {
    var shifted := Shift(rest);
    forall j | 0 < j < |outs| && |outs[j]| > 0
      ensures j in shifted
    {
      assert outs[1..][j - 1] == outs[j];
      var m :| 0 <= m < |rest| && rest[m] == j - 1;
      assert shifted[m] == j;
    }
  }

  /** The shifted positions of the tail are positions of values, in increasing order. */
  lemma ShiftHolds<T>(outs: seq<seq<T>>, rest: seq<nat>)
    requires |outs| > 0 && Positions(outs[1..], rest)
    ensures forall m :: 0 <= m < |rest| ==> 0 < Shift(rest)[m] < |outs| && |outs[Shift(rest)[m]]| > 0
    ensures forall m, m' :: 0 <= m < m' < |rest| ==> Shift(rest)[m] < Shift(rest)[m']
  {
    var shifted := Shift(rest);
    forall m | 0 <= m < |rest|
      ensures 0 < shifted[m] < |outs| && |outs[shifted[m]]| > 0
    {
      assert outs[1..][rest[m]] == outs[shifted[m]];
    }
  }

  /** The positions of a list follow from those of its tail. */
  lemma ConsPositions<T>(outs: seq<seq<T>>, rest: seq<nat>)
    requires |outs| > 0 && Positions(outs[1..], rest)
    ensures |outs[0]| > 0 ==> Positions(outs, [0] + Shift(rest))
    ensures |outs[0]| == 0 ==> Positions(outs, Shift(rest))
  {
    var shifted := Shift(rest);
    ShiftCovers(outs, rest);
    ShiftHolds(outs, rest);
    if |outs[0]| > 0 {
      ConsZero(outs, shifted);
    } else {
      forall j | 0 <= j < |outs| && |outs[j]| > 0
        ensures j in shifted
      {
        assert j != 0;
      }
    }
  }

  /** Putting position 0 in front of later positions, when the head holds a value. */
  lemma ConsZero<T>(outs: seq<seq<T>>, later: seq<nat>)
    requires |outs| > 0 && |outs[0]| > 0
    requires forall m :: 0 <= m < |later| ==> 0 < later[m] < |outs| && |outs[later[m]]| > 0
    requires forall m, m' :: 0 <= m < m' < |later| ==> later[m] < later[m']
    requires forall j :: 0 < j < |outs| && |outs[j]| > 0 ==> j in later
    ensures Positions(outs, [0] + later)
  {
    var idx := [0] + later;
    assert forall m :: 0 < m < |idx| ==> idx[m] == later[m - 1];
    assert idx[0] == 0;
    forall j | 0 < j < |outs| && |outs[j]| > 0
      ensures j in idx
    {
      var m :| 0 <= m < |later| && later[m] == j;
      assert idx[m + 1] == j;
    }
  }

  /** The positions of the outcomes that hold a value, in increasing order. */
  function KeptAt<T>(outs: seq<seq<T>>): (idx: seq<nat>)
    ensures Positions(outs, idx)
    decreases |outs|
  {
    if |outs| == 0 then []
    else
      var rest := KeptAt(outs[1..]);
      ConsPositions(outs, rest);
      if |outs[0]| > 0 then [0] + Shift(rest) else Shift(rest)
  }

  /** With at most one value per outcome, the flattened list holds the values in their positions' order. */
  lemma {:induction false} FlattenInOrder<T>(outs: seq<seq<T>>)
    requires forall j :: 0 <= j < |outs| ==> |outs[j]| <= 1
    ensures var idx := KeptAt(outs);
      && |Flatten(outs)| == |idx|
      && forall m :: 0 <= m < |idx| ==> Flatten(outs)[m] == outs[idx[m]][0]
    decreases |outs|
  {
    if |outs| > 0 {
      var rest := outs[1..];
      assert forall j :: 0 <= j < |rest| ==> rest[j] == outs[j + 1];
      FlattenInOrder(rest);
      FlattenStep(outs, KeptAt(rest));
    }
  }

  /** One step of `FlattenInOrder`: the head's value, if any, comes first. */
  lemma FlattenStep<T>(outs: seq<seq<T>>, tail: seq<nat>)
    requires |outs| > 0 && |outs[0]| <= 1
    requires forall m :: 0 <= m < |tail| ==> tail[m] < |outs| - 1
    requires |Flatten(outs[1..])| == |tail|
    requires forall m :: 0 <= m < |tail| ==> |outs[1..][tail[m]]| > 0 && Flatten(outs[1..])[m] == outs[1..][tail[m]][0]
    ensures var idx := if |outs[0]| > 0 then [0] + Shift(tail) else Shift(tail);
      && |Flatten(outs)| == |idx|
      && forall m :: 0 <= m < |idx| ==> Flatten(outs)[m] == outs[idx[m]][0]
  {
    var shifted := Shift(tail);
    forall m | 0 <= m < |tail|
      ensures outs[shifted[m]] == outs[1..][tail[m]]
    {
    }
    assert Flatten(outs) == outs[0] + Flatten(outs[1..]);
  }

  /** The scan's loop flattens the outcomes of the pieces. */
  lemma {:induction false} KeepAllFlattens(pieces: seq<string>, parse: string -> Option<Value>)
    ensures KeepAll(pieces, parse) == Flatten(Outcomes(pieces, parse))
    decreases |pieces|
  {
    if |pieces| > 0 {
      KeepAllFlattens(pieces[1..], parse);
      assert Outcomes(pieces, parse)[1..] == Outcomes(pieces[1..], parse);
    }
  }

  /**
    The scan keeps, in their order, exactly the records of the pieces that
    yield one: a piece that fails is skipped and the others are kept.
  */
  lemma KeepAllInOrder(pieces: seq<string>, parse: string -> Option<Value>)
    ensures var idx := KeptAt(Outcomes(pieces, parse));
      && |KeepAll(pieces, parse)| == |idx|
      && (forall m, m' :: 0 <= m < m' < |idx| ==> idx[m] < idx[m'])
      && (forall m :: 0 <= m < |idx| ==>
            idx[m] < |pieces| && KeepAll(pieces, parse)[m] == Keep(parse(Chunk(pieces[idx[m]])))[0])
      && (forall j :: 0 <= j < |pieces| && |Keep(parse(Chunk(pieces[j])))| == 1 ==> j in idx)
  {
    var outs := Outcomes(pieces, parse);
    var idx := KeptAt(outs);
    KeepAllFlattens(pieces, parse);
    FlattenKept(outs);
    forall j | 0 <= j < |pieces| && |Keep(parse(Chunk(pieces[j])))| == 1
      ensures j in idx
    {
      assert |outs[j]| > 0;
    }
  }

  /** `FlattenInOrder` together with the facts `KeptAt` promises about the positions. */
  lemma FlattenKept<T>(outs: seq<seq<T>>)
    requires forall j :: 0 <= j < |outs| ==> |outs[j]| <= 1
    ensures var idx := KeptAt(outs);
      && |Flatten(outs)| == |idx|
      && (forall m, m' :: 0 <= m < m' < |idx| ==> idx[m] < idx[m'])
      && (forall m :: 0 <= m < |idx| ==> idx[m] < |outs| && Flatten(outs)[m] == outs[idx[m]][0])
      && (forall j :: 0 <= j < |outs| && |outs[j]| > 0 ==> j in idx)
  {
    FlattenInOrder(outs);
  }

  /** The records the scan salvages after position `from`. */
  function Salvage(content: string, from: nat, parse: string -> Option<Value>): seq<Value>
    requires from <= |content|
  {
    KeepAll(Pieces(content, from, Cuts(content, from, 0)), parse)
  }

  /** The manifest built around the salvaged records. */
  function Synthetic(frames: seq<Value>): Value {
    Obj([
      ("recording_info", Obj([
        ("total_frames", Int(|frames|)),
        ("duration", Float("0.0")),
        ("recording_time", Str("unknown")),
        ("game_version", Str(Recorder.GameVersion))])),
      ("frame_data", Arr(frames))])
  }

  /** The fields of the synthetic manifest. */
  lemma SyntheticFields(frames: seq<Value>)
    ensures Field(Synthetic(frames), "frame_data") == Some(Arr(frames))
    ensures Field(Field(Synthetic(frames), "recording_info").value, "total_frames") == Some(Int(|frames|))
    ensures Field(Field(Synthetic(frames), "recording_info").value, "game_version") == Some(Str(Recorder.GameVersion))
  {
    var top := Synthetic(frames).fields;
    var info := top[0].1.fields;
    assert Get(top, "recording_info") == Some(top[0].1);
    assert Get(top, "frame_data") == Get(top[1..], "frame_data");
    assert Get(info, "total_frames") == Some(Int(|frames|));
    assert Get(info, "game_version") == Get(info[1..], "game_version")
        == Get(info[2..], "game_version") == Get(info[3..], "game_version");
  }

  /** Where the frame log starts: just after the first occurrence of the key with its bracket. */
  function FramesStart(content: string): (start: Option<nat>)
    ensures start.Some? <==> Contains(content, StartMarker)
    ensures start.Some? ==> |StartMarker| <= start.value <= |content|
                            && OccursAt(content, StartMarker, start.value - |StartMarker|)
                            && forall k :: 0 <= k < start.value - |StartMarker| ==> !OccursAt(content, StartMarker, k)
  {
    match Find(content, StartMarker)
    case None => None
    case Some(p) => Some(p + |StartMarker|)
  }

  /**
    The structural scan: nothing when the key with its opening bracket is
    missing or no chunk survives; otherwise a manifest whose frame log is
    the salvaged records and whose frame total is their number.
  */
  function LoadSimple(content: string, parse: string -> Option<Value>): (data: Option<Value>)
    ensures FramesStart(content).None? ==> data.None?
    ensures FramesStart(content).Some? ==>
      var frames := Salvage(content, FramesStart(content).value, parse);
      && (data.None? <==> frames == [])
      && (data.Some? ==> && Field(data.value, "frame_data") == Some(Arr(frames))
                          && Field(data.value, "recording_info").Some?
                          && Field(Field(data.value, "recording_info").value, "total_frames") == Some(Int(|frames|)))
    ensures data.Some? ==> Truthy(data.value)
  {
    match FramesStart(content)
    case None => None
    case Some(start) =>
      var frames := Salvage(content, start, parse);
      SyntheticFields(frames);
      if |frames| == 0 then None else Some(Synthetic(frames))
  }
}
