/**
  The filename stamping of the background save worker, as a sequential fold
  over the outcomes of the image writes it performs in FIFO order.
*/
module SaveWorker {
  import opened Text

  /**
    What the `frame_filename` key of a frame record holds: not set yet
    (the save task is still queued), `None`, or a file name.
  */
  datatype FileSlot = Pending | NoFile | Named(name: string)

  /**
    One worker step on a write outcome: a successful write is stamped with
    the name built from the counter, which then advances; a failed write is
    stamped `None` and the counter stays.
  */
  function StampOne(count: nat, ok: bool): (FileSlot, nat) {
    if ok then (Named(FrameName(count)), count + 1) else (NoFile, count)
  }

  /** The number of successful writes. */
  function Successes(outcomes: seq<bool>): nat {
    if |outcomes| == 0 then 0 else (if outcomes[0] then 1 else 0) + Successes(outcomes[1..])
  }

  /**
    The slots a run of the worker stamps, starting from counter `count`:
    the i-th successful write is named after `count` plus the number of
    successes before it, and every failed write gets `None`.
  */
  function Stamp(count: nat, outcomes: seq<bool>): (slots: seq<FileSlot>)
    ensures |slots| == |outcomes|
    ensures forall i :: 0 <= i < |outcomes| ==>
      slots[i] == (if outcomes[i] then Named(FrameName(count + Successes(outcomes[..i]))) else NoFile)
    decreases |outcomes|
  {
    if |outcomes| == 0 then []
    else
      var (slot, next) := StampOne(count, outcomes[0]);
      var rest := Stamp(next, outcomes[1..]);
      SuccessesTail(outcomes);
      [slot] + rest
  }

  /** Counting the successes of a prefix from its second element on. */
  lemma SuccessesTail(outcomes: seq<bool>)
    requires |outcomes| > 0
    ensures forall i :: 0 < i <= |outcomes| ==>
      Successes(outcomes[..i]) == (if outcomes[0] then 1 else 0) + Successes(outcomes[1..][..i - 1])
  {
    forall i | 0 < i <= |outcomes|
      ensures Successes(outcomes[..i]) == (if outcomes[0] then 1 else 0) + Successes(outcomes[1..][..i - 1])
    {
      assert outcomes[..i][1..] == outcomes[1..][..i - 1];
    }
  }

  /** The counter after the run: it advanced once per successful write. */
  function Counter(count: nat, outcomes: seq<bool>): (next: nat)
    ensures next == count + Successes(outcomes)
    decreases |outcomes|
  {
    if |outcomes| == 0 then count else Counter(StampOne(count, outcomes[0]).1, outcomes[1..])
  }

  /** The names among the slots, in order. */
  function Names(slots: seq<FileSlot>): seq<string> {
    if |slots| == 0 then []
    else (if slots[0].Named? then [slots[0].name] else []) + Names(slots[1..])
  }

  /** `FrameName(from)`, `FrameName(from + 1)`, ... `FrameName(from + k - 1)`. */
  function NameRange(from: nat, k: nat): (names: seq<string>)
    ensures |names| == k
    ensures forall j :: 0 <= j < k ==> names[j] == FrameName(from + j)
  {
    seq(k, j requires 0 <= j < k => FrameName(from + j))
  }

  /**
    The names a run stamps are consecutive: starting from counter `count`
    they are exactly `FrameName(count)` up to `FrameName(count + k - 1)`,
    in submission order, where k is the number of successful writes.
  */
  lemma {:induction false} StampedNamesConsecutive(count: nat, outcomes: seq<bool>)
    ensures Names(Stamp(count, outcomes)) == NameRange(count, Successes(outcomes))
    decreases |outcomes|
  {
    if |outcomes| > 0 {
      var slot := StampOne(count, outcomes[0]).0;
      var next := StampOne(count, outcomes[0]).1;
      var st := Stamp(count, outcomes);
      var rest := Stamp(next, outcomes[1..]);
      var k := Successes(outcomes);
      StampedNamesConsecutive(next, outcomes[1..]);
      StampCons(count, outcomes);
      NamesCons(slot, rest);
      if outcomes[0] {
        NameRangeCons(count, k);
      }
    }
  }

  /** A range of names is its first name followed by the rest of the range. */
  lemma NameRangeCons(from: nat, k: nat)
    requires k > 0
    ensures NameRange(from, k) == [FrameName(from)] + NameRange(from + 1, k - 1)
  {
    forall j | 0 < j < k
      ensures NameRange(from, k)[j] == NameRange(from + 1, k - 1)[j - 1]
    {
      assert from + j == from + 1 + (j - 1);
    }
  }

  /** The first slot is the first outcome's. */
  lemma StampHead(count: nat, outcomes: seq<bool>)
    requires |outcomes| > 0
    ensures Stamp(count, outcomes)[0] == StampOne(count, outcomes[0]).0
  {
    StampCons(count, outcomes);
  }

  /** Every later slot is the one the rest of the outcomes get from the advanced counter. */
  lemma StampShift(count: nat, outcomes: seq<bool>, k: nat)
    requires 0 < k < |outcomes|
    ensures Stamp(count, outcomes)[k] == Stamp(StampOne(count, outcomes[0]).1, outcomes[1..])[k - 1]
  {
    StampCons(count, outcomes);
  }

  lemma StampCons(count: nat, outcomes: seq<bool>)
    requires |outcomes| > 0
    ensures Stamp(count, outcomes)
         == [StampOne(count, outcomes[0]).0] + Stamp(StampOne(count, outcomes[0]).1, outcomes[1..])
  {
  }

  /** One unfolding of `Names`. */
  lemma NamesCons(slot: FileSlot, rest: seq<FileSlot>)
    ensures Names([slot] + rest) == (if slot.Named? then [slot.name] else []) + Names(rest)
  {
    assert ([slot] + rest)[1..] == rest;
  }

  /**
    A whole run from a fresh counter names its files `frame_000000.png`
    onwards with no gap and no name used twice.
  */
  lemma DenseAndDistinct(outcomes: seq<bool>)
    ensures Names(Stamp(0, outcomes)) == NameRange(0, Successes(outcomes))
    ensures forall i, j :: 0 <= i < j < |Names(Stamp(0, outcomes))| ==>
      Names(Stamp(0, outcomes))[i] != Names(Stamp(0, outcomes))[j]
  {
    StampedNamesConsecutive(0, outcomes);
    forall i, j | 0 <= i < j < |Names(Stamp(0, outcomes))|
      ensures Names(Stamp(0, outcomes))[i] != Names(Stamp(0, outcomes))[j]
    {
      FrameNameInjective(i, j);
    }
  }
}
