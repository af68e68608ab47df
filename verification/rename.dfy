/**
  The rename tool's two passes over the frame log: renaming every image to
  a name built from its record, against an abstract frames directory, and
  rewriting the file names in a decoded manifest. A rename the operating
  system refuses is an oracle `fault(source, target)` giving the error text.
*/
module Rename {
  import opened Wrappers
  import opened Text
  import opened Json
  import opened Indices

  const FrameId := "frame_id"
  const ActionCode := "action_code"
  const MarioDead := "mario_dead"
  /** The reason recorded for a record whose image is not in the directory ("file does not exist"). */
  const MissingSource := "\U{6587}\U{4EF6}\U{4E0D}\U{5B58}\U{5728}"
  const NamingFormat := "user_fxxx_axxx_ntxxx.png"

  /** `0` when Mario is dead (the value is truthy), `1` otherwise. */
  function DeathStatus(dead: Value): string {
    if Truthy(dead) then "0" else "1"
  }

  /**
    The new image name `{user}_f{frame_id}_a{action_code}_nt{status}.png`,
    assembled from the right.
  */
  function NewName(user: string, frameId: Value, actionCode: Value, dead: Value): string {
    user + ("_f" + (PyStr(frameId) + ("_a" + (PyStr(actionCode) + ("_nt" + (DeathStatus(dead) + ".png"))))))
  }

  /** A record is a dict holding the three keys the loop body reads unconditionally. */
  predicate HasKeys(record: Value) {
    && record.Obj?
    && HasField(record.fields, FrameId)
    && HasField(record.fields, ActionCode)
    && HasField(record.fields, MarioDead)
  }

  /** The new name for a record that has the keys. */
  function Target(user: string, record: Value): string
    requires HasKeys(record)
  {
    NewName(user, Get(record.fields, FrameId).value, Get(record.fields, ActionCode).value,
            Get(record.fields, MarioDead).value)
  }

  /**
    What the loop body decides for one record before touching the disk:
    an escaping exception (a record that is not a dict or lacks a key, or a
    file name that is neither None nor a string), a skip (no file name), or
    a move of the named image to its new name.
  */
  datatype Plan = Halt | Skip | Move(frameId: Value, source: string, target: string)

  function PlanOf(user: string, record: Value): (p: Plan)
    ensures p.Halt? <==> !HasKeys(record) || (var n := Get(record.fields, FrameFilename); n.Some? && !n.value.Null? && !n.value.Str?)
    ensures p.Skip? <==> HasKeys(record) && (var n := Get(record.fields, FrameFilename); n.None? || n.value.Null?)
    ensures p.Move? ==> && HasKeys(record)
                        && Get(record.fields, FrameFilename) == Some(Str(p.source))
                        && p.frameId == Get(record.fields, FrameId).value
                        && p.target == Target(user, record)
  {
    if !HasKeys(record) then Halt
    else
      match Get(record.fields, FrameFilename)
      case None => Skip
      case Some(Null) => Skip
      case Some(Str(name)) => Move(Get(record.fields, FrameId).value, name, Target(user, record))
      case Some(_) => Halt
  }

  /** `(frame_id, error_reason)` of a record whose rename failed. */
  datatype Failure = Failure(frameId: Value, reason: string)

  /** What one planned step does to the directory. */
  datatype Effect = Halted | Skipped | Renamed | Failed(reason: string)

  function Apply(plan: Plan, dir: set<string>, fault: (string, string) -> Option<string>): (out: (Effect, set<string>))
    ensures out.0 == Halted <==> plan.Halt?
    ensures out.0 == Skipped <==> plan.Skip?
    ensures out.0 == Renamed <==> plan.Move? && plan.source in dir && fault(plan.source, plan.target).None?
    ensures out.0 == Renamed ==> out.1 == dir - {plan.source} + {plan.target}
                                 && plan.target in out.1
                                 && (plan.source != plan.target ==> plan.source !in out.1)
    ensures out.0 != Renamed ==> out.1 == dir
    ensures plan.Move? && plan.source !in dir ==> out.0 == Failed(MissingSource)
  {
    match plan
    case Halt => (Halted, dir)
    case Skip => (Skipped, dir)
    case Move(_, source, target) =>
      if source !in dir then (Failed(MissingSource), dir)
      else
        match fault(source, target)
        case Some(message) => (Failed(message), dir)
        case None => (Renamed, dir - {source} + {target})
  }

  /** The loop's counters, failure list and directory when it ended or an exception escaped. */
  datatype Batch = Batch(halted: bool, renamed: nat, errors: nat, skipped: nat, failed: seq<Failure>, dir: set<string>)

  /** The plans of all records, in order. */
  function Plans(user: string, records: seq<Value>): (plans: seq<Plan>)
    ensures |plans| == |records|
    ensures forall k :: 0 <= k < |records| ==> plans[k] == PlanOf(user, records[k])
  {
    seq(|records|, k requires 0 <= k < |records| => PlanOf(user, records[k]))
  }

  /** The rename loop over the plans, from a directory. */
  function Execute(plans: seq<Plan>, dir: set<string>, fault: (string, string) -> Option<string>): (b: Batch)
    decreases |plans|
  {
    if |plans| == 0 then Batch(false, 0, 0, 0, [], dir)
    else
      var (effect, dir') := Apply(plans[0], dir, fault);
      match effect
      case Halted => Batch(true, 0, 0, 0, [], dir)
      case Skipped =>
        var b := Execute(plans[1..], dir', fault);
        b.(skipped := b.skipped + 1)
      case Renamed =>
        var b := Execute(plans[1..], dir', fault);
        b.(renamed := b.renamed + 1)
      case Failed(reason) =>
        var b := Execute(plans[1..], dir', fault);
        b.(errors := b.errors + 1, failed := [Failure(plans[0].frameId, reason)] + b.failed)
  }

  /** The number of plans of each kind. */
  function Moves(plans: seq<Plan>): nat {
    if |plans| == 0 then 0 else (if plans[0].Move? then 1 else 0) + Moves(plans[1..])
  }

  /**
    No early abort: unless an exception escapes, which happens exactly when
    some record's plan is to halt, every record is counted once as renamed,
    failed or skipped; the skips are the records without a file name, and
    the failure list has one entry per failed record.
  */
  lemma {:induction false} ExecuteCounts(plans: seq<Plan>, dir: set<string>, fault: (string, string) -> Option<string>)
    ensures Execute(plans, dir, fault).halted <==> Halt in plans
    ensures !Execute(plans, dir, fault).halted ==>
      var b := Execute(plans, dir, fault);
      && b.renamed + b.errors + b.skipped == |plans|
      && b.renamed + b.errors == Moves(plans)
      && b.skipped == multiset(plans)[Skip]
    ensures |Execute(plans, dir, fault).failed| == Execute(plans, dir, fault).errors
    decreases |plans|
  {
    if |plans| > 0 {
      var dir' := Apply(plans[0], dir, fault).1;
      ExecuteCounts(plans[1..], dir', fault);
      assert plans == [plans[0]] + plans[1..];
      assert Halt in plans <==> plans[0] == Halt || Halt in plans[1..];
    }
  }

  /**
    The positions of the plans whose rename fails, in increasing order; an
    escaping exception ends the list, as it ends the loop.
  */
  function FailedAt(plans: seq<Plan>, dir: set<string>, fault: (string, string) -> Option<string>): (idx: seq<nat>)
    ensures forall m :: 0 <= m < |idx| ==> idx[m] < |plans| && plans[idx[m]].Move?
    ensures forall m, m' :: 0 <= m < m' < |idx| ==> idx[m] < idx[m']
    decreases |plans|
  {
    if |plans| == 0 then []
    else
      var (effect, dir') := Apply(plans[0], dir, fault);
      var rest := Shift(FailedAt(plans[1..], dir', fault));
      match effect
      case Halted => []
      case Failed(_) => [0] + rest
      case _ => rest
  }

  /**
    The failure list has one entry per failing move, in plan order: entry m
    names the frame of the m-th failing plan, and its reason is "file does
    not exist" or the message the system gave for that very rename.
  */
  lemma {:induction false} FailuresAreMoves(plans: seq<Plan>, dir: set<string>, fault: (string, string) -> Option<string>)
    ensures var idx := FailedAt(plans, dir, fault);
            var failed := Execute(plans, dir, fault).failed;
      && |failed| == |idx|
      && forall m :: 0 <= m < |idx| ==>
           && failed[m].frameId == plans[idx[m]].frameId
           && (failed[m].reason == MissingSource
               || fault(plans[idx[m]].source, plans[idx[m]].target) == Some(failed[m].reason))
    decreases |plans|
  {
    if |plans| > 0 {
      var (effect, dir') := Apply(plans[0], dir, fault);
      FailuresAreMoves(plans[1..], dir', fault);
      var tail := FailedAt(plans[1..], dir', fault);
      var failed := Execute(plans[1..], dir', fault).failed;
      forall m | 0 <= m < |tail|
        ensures plans[1..][tail[m]] == plans[tail[m] + 1]
      {
      }
      match effect
      case Halted =>
        assert Execute(plans, dir, fault).failed == [] && FailedAt(plans, dir, fault) == [];
      case Failed(reason) =>
        assert Execute(plans, dir, fault).failed == [Failure(plans[0].frameId, reason)] + failed;
        assert FailedAt(plans, dir, fault) == [0] + Shift(tail);
      case Skipped =>
        assert Execute(plans, dir, fault).failed == failed;
        assert FailedAt(plans, dir, fault) == Shift(tail);
      case Renamed =>
        assert Execute(plans, dir, fault).failed == failed;
        assert FailedAt(plans, dir, fault) == Shift(tail);
    }
  }

  /** The failures, in order, of the moves whose image is not in the directory. */
  function MissingFrom(plans: seq<Plan>, dir: set<string>): seq<Failure>
    decreases |plans|
  {
    if |plans| == 0 then []
    else
      (if plans[0].Move? && plans[0].source !in dir then [Failure(plans[0].frameId, MissingSource)] else [])
      + MissingFrom(plans[1..], dir)
  }

  /** Only whether each source is present matters to `MissingFrom`. */
  lemma {:induction false} MissingCongruent(plans: seq<Plan>, d: set<string>, d': set<string>)
    requires forall k :: 0 <= k < |plans| && plans[k].Move? ==> (plans[k].source in d <==> plans[k].source in d')
    ensures MissingFrom(plans, d) == MissingFrom(plans, d')
    decreases |plans|
  {
    if |plans| > 0 {
      assert forall k :: 0 <= k < |plans[1..]| ==> plans[1..][k] == plans[k + 1];
      MissingCongruent(plans[1..], d, d');
    }
  }

  /**
    When the system refuses nothing and no later source is an earlier
    source or target, the failure list is exactly one "file does not exist"
    entry per record whose image is missing from the directory at the
    start, in record order.
  */
  lemma {:induction false} FailuresAreMissingSources(plans: seq<Plan>, dir: set<string>, fault: (string, string) -> Option<string>)
    requires forall k :: 0 <= k < |plans| ==> !plans[k].Halt?
    requires forall k :: 0 <= k < |plans| && plans[k].Move? ==> fault(plans[k].source, plans[k].target).None?
    requires forall k, k' :: 0 <= k < k' < |plans| && plans[k].Move? && plans[k'].Move? ==>
      plans[k'].source != plans[k].source && plans[k'].source != plans[k].target
    ensures Execute(plans, dir, fault).failed == MissingFrom(plans, dir)
    decreases |plans|
  {
    if |plans| > 0 {
      var rest := plans[1..];
      var dir' := Apply(plans[0], dir, fault).1;
      assert forall k :: 0 <= k < |rest| ==> rest[k] == plans[k + 1];
      FailuresAreMissingSources(rest, dir', fault);
      forall k | 0 <= k < |rest| && rest[k].Move?
        ensures rest[k].source in dir' <==> rest[k].source in dir
      {
        if plans[0].Move? {
          assert plans[k + 1].source != plans[0].source && plans[k + 1].source != plans[0].target;
        }
      }
      MissingCongruent(rest, dir', dir);
    }
  }

  /**
    The directory changes only through moves: every name it ends with was
    there or is the target of a move, and every name it lost is the source
    of a move. Skipped records and failed renames leave it as it was.
  */
  lemma {:induction false} OnlyMovesTouchTheDirectory(plans: seq<Plan>, dir: set<string>, fault: (string, string) -> Option<string>)
    ensures forall x :: x in Execute(plans, dir, fault).dir && x !in dir ==>
      exists k :: 0 <= k < |plans| && plans[k].Move? && plans[k].target == x
    ensures forall x :: x in dir && x !in Execute(plans, dir, fault).dir ==>
      exists k :: 0 <= k < |plans| && plans[k].Move? && plans[k].source == x
    decreases |plans|
  {
    if |plans| > 0 {
      var dir' := Apply(plans[0], dir, fault).1;
      OnlyMovesTouchTheDirectory(plans[1..], dir', fault);
      var end := Execute(plans, dir, fault).dir;
      forall x | x in end && x !in dir
        ensures exists k :: 0 <= k < |plans| && plans[k].Move? && plans[k].target == x
      {
        if x in dir' {
          assert plans[0].Move? && plans[0].target == x;
        } else {
          var k :| 0 <= k < |plans[1..]| && plans[1..][k].Move? && plans[1..][k].target == x;
          assert plans[k + 1] == plans[1..][k];
        }
      }
      forall x | x in dir && x !in end
        ensures exists k :: 0 <= k < |plans| && plans[k].Move? && plans[k].source == x
      {
        if x !in dir' {
          assert plans[0].Move? && plans[0].source == x;
        } else {
          var k :| 0 <= k < |plans[1..]| && plans[1..][k].Move? && plans[1..][k].source == x;
          assert plans[k + 1] == plans[1..][k];
        }
      }
    }
  }

  /**
    When every image is where its record says, no later source is an
    earlier source or target, and the system refuses nothing, the batch
    renames every named image and leaves each under its new name.
  */
  lemma {:induction false} AllPresentAllRenamed(plans: seq<Plan>, dir: set<string>, fault: (string, string) -> Option<string>)
    requires forall k :: 0 <= k < |plans| ==> !plans[k].Halt?
    requires forall k :: 0 <= k < |plans| && plans[k].Move? ==>
      plans[k].source in dir && fault(plans[k].source, plans[k].target).None?
    requires forall k, k' :: 0 <= k < k' < |plans| && plans[k].Move? && plans[k'].Move? ==>
      plans[k'].source != plans[k].source && plans[k'].source != plans[k].target
    ensures var b := Execute(plans, dir, fault);
      && !b.halted && b.errors == 0 && b.failed == [] && b.renamed == Moves(plans)
      && forall k :: 0 <= k < |plans| && plans[k].Move? ==> plans[k].target in b.dir
    decreases |plans|
  {
    if |plans| > 0 {
      var rest := plans[1..];
      var (effect, dir') := Apply(plans[0], dir, fault);
      assert forall k :: 0 <= k < |rest| ==> rest[k] == plans[k + 1];
      if plans[0].Move? {
        forall k | 0 <= k < |rest| && rest[k].Move?
          ensures rest[k].source in dir'
        {
          assert plans[k + 1].source != plans[0].source;
        }
      }
      AllPresentAllRenamed(rest, dir', fault);
      KeepsTargets(rest, dir', fault);
    }
  }

  /**
    A name that no later move takes away stays in the directory: here, the
    target of the first plan, when no later source equals it.
  */
  lemma {:induction false} KeepsTargets(plans: seq<Plan>, dir: set<string>, fault: (string, string) -> Option<string>)
    ensures forall x :: x in dir && (forall k :: 0 <= k < |plans| && plans[k].Move? ==> plans[k].source != x) ==>
      x in Execute(plans, dir, fault).dir
    decreases |plans|
  {
    if |plans| > 0 {
      var dir' := Apply(plans[0], dir, fault).1;
      KeepsTargets(plans[1..], dir', fault);
      forall x | x in dir && (forall k :: 0 <= k < |plans| && plans[k].Move? ==> plans[k].source != x)
        ensures x in Execute(plans, dir, fault).dir
      {
        assert forall k :: 0 <= k < |plans[1..]| ==> plans[1..][k] == plans[k + 1];
      }
    }
  }

  /**
    The result of the rename pass: an escaping exception, with the renames
    done before it, or the pair `(success, failed_frames)` with the
    directory it left (none when the frames directory is missing).
  */
  datatype RenameRun =
    | Raised(dir: set<string>)
    | Returned(success: bool, failed: seq<Failure>, frames: Option<set<string>>)

  function RenameFrames(user: string, records: seq<Value>, frames: Option<set<string>>,
                        fault: (string, string) -> Option<string>): (run: RenameRun)
    ensures frames.None? ==> run == Returned(false, [], None)
    ensures frames.Some? ==> (run.Raised? <==> exists k :: 0 <= k < |records| && PlanOf(user, records[k]).Halt?)
    ensures frames.Some? && run.Returned? ==> run.frames.Some? && (run.success <==> run.failed == [])
  {
    match frames
    case None => Returned(false, [], None)
    case Some(dir) =>
      var plans := Plans(user, records);
      var b := Execute(plans, dir, fault);
      ExecuteCounts(plans, dir, fault);
      assert Halt in plans <==> exists k :: 0 <= k < |records| && PlanOf(user, records[k]).Halt? by {
        if Halt in plans {
          var k :| 0 <= k < |plans| && plans[k] == Halt;
          assert PlanOf(user, records[k]).Halt?;
        }
      }
      if b.halted then Raised(b.dir) else Returned(b.errors == 0, b.failed, Some(b.dir))
  }

  // ---------------------------------------------------------------------------
  // The manifest rewrite

  /** The `frame_filename` the rewrite stores for a record: its new name, or None when it had none. */
  function Written(user: string, record: Value): Value
    requires HasKeys(record)
  {
    match Get(record.fields, FrameFilename)
    case None => Null
    case Some(Null) => Null
    case Some(_) => Str(Target(user, record))
  }

  /** The rewrite can handle record `j`: it has the keys and the decoded log has a dict at `j`. */
  predicate Updatable(record: Value, items: seq<Value>, j: int) {
    HasKeys(record) && 0 <= j < |items| && items[j].Obj?
  }

  /** A frame log entry with its `frame_filename` set for its record. */
  function Updated(item: Value, record: Value, user: string): (r: Value)
    requires HasKeys(record) && item.Obj?
    ensures r.Obj? && Get(r.fields, FrameFilename) == Some(Written(user, record))
    ensures forall k :: k != FrameFilename ==> Get(r.fields, k) == Get(item.fields, k)
  {
    Obj(Put(item.fields, FrameFilename, Written(user, record)))
  }

  /**
    The rewrite loop from record `i` on: each record's slot in the decoded
    frame log gets its new `frame_filename`; any record it cannot handle
    raises, and the whole rewrite fails.
  */
  function UpdateFrom(items: seq<Value>, records: seq<Value>, user: string, i: nat): (r: Option<seq<Value>>)
    requires i <= |records|
    ensures r.None? ==> exists j :: i <= j < |records| && !Updatable(records[j], items, j)
    ensures r.Some? ==>
      && |r.value| == |items|
      && (forall j :: i <= j < |records| ==> Updatable(records[j], items, j))
      && (forall j :: 0 <= j < |items| ==>
            r.value[j] == if i <= j < |records| then Updated(items[j], records[j], user) else items[j])
    decreases |records| - i
  {
    if i == |records| then Some(items)
    else if !Updatable(records[i], items, i) then None
    else
      var item := Updated(items[i], records[i], user);
      var items1 := items[i := item];
      var r := UpdateFrom(items1, records, user, i + 1);
      assert forall j :: i < j < |records| ==> (Updatable(records[j], items1, j) <==> Updatable(records[j], items, j));
      assert forall j :: 0 <= j < |items| && j != i ==> items1[j] == items[j];
      r
  }

  /**
    The first half of the rewrite, on the manifest's top-level fields: the
    frame log is rewritten record by record. With no records the loop body
    never runs and nothing is looked up.
  */
  function RewriteFrames(fs: seq<(string, Value)>, records: seq<Value>, user: string): (r: Option<seq<(string, Value)>>)
    ensures |records| == 0 ==> r == Some(fs)
    ensures |records| > 0 ==>
      (r.Some? <==> && Get(fs, "frame_data").Some? && Get(fs, "frame_data").value.Arr?
                    && UpdateFrom(Get(fs, "frame_data").value.items, records, user, 0).Some?)
    ensures |records| > 0 && r.Some? ==>
      && Get(r.value, "frame_data") == Some(Arr(UpdateFrom(Get(fs, "frame_data").value.items, records, user, 0).value))
      && forall k :: k != "frame_data" ==> Get(r.value, k) == Get(fs, k)
  {
    if |records| == 0 then Some(fs)
    else
      match Get(fs, "frame_data")
      case Some(Arr(items)) =>
        (match UpdateFrom(items, records, user, 0)
         case Some(items') => Some(Put(fs, "frame_data", Arr(items')))
         case None => None)
      case _ => None
  }

  /** The second half: `recording_info` must be a dict, and gains the user and the naming format. */
  function AddUser(fs: seq<(string, Value)>, user: string): (r: Option<seq<(string, Value)>>)
    ensures r.Some? <==> Get(fs, "recording_info").Some? && Get(fs, "recording_info").value.Obj?
    ensures r.Some? ==>
      && Get(r.value, "recording_info").Some? && Get(r.value, "recording_info").value.Obj?
      && var info := Get(fs, "recording_info").value.fields;
         var info' := Get(r.value, "recording_info").value.fields;
      && Get(info', "user_name") == Some(Str(user))
      && Get(info', "naming_format") == Some(Str(NamingFormat))
      && (forall k :: k != "user_name" && k != "naming_format" ==> Get(info', k) == Get(info, k))
      && (forall k :: k != "recording_info" ==> Get(r.value, k) == Get(fs, k))
  {
    match Get(fs, "recording_info")
    case Some(Obj(info)) =>
      Some(Put(fs, "recording_info", Obj(Put(Put(info, "user_name", Str(user)), "naming_format", Str(NamingFormat)))))
    case _ => None
  }

  /**
    The rewrite of a decoded manifest: the frame log entries get their new
    names, then `recording_info` gets `user_name` and `naming_format`.
    None when any lookup or assignment raises.
  */
  function UpdateJsonData(data: Value, records: seq<Value>, user: string): (r: Option<Value>)
    ensures r.Some? ==> r.value.Obj?
  {
    if !data.Obj? then None
    else
      match RewriteFrames(data.fields, records, user)
      case None => None
      case Some(fs) =>
        match AddUser(fs, user)
        case None => None
        case Some(fs') => Some(Obj(fs'))
  }

  /**
    What a successful rewrite stores: every record's slot carries the name
    it was renamed to (None where it had no file), the other keys of each
    slot and the slots past the records stay, and `recording_info` gains the
    user and the naming format.
  */
  lemma UpdateWritesNewNames(data: Value, records: seq<Value>, user: string)
    requires UpdateJsonData(data, records, user).Some?
    requires |records| > 0
    ensures data.Obj? && Get(data.fields, "frame_data").Some? && Get(data.fields, "frame_data").value.Arr?
    ensures var items := Get(data.fields, "frame_data").value.items;
            var out := UpdateJsonData(data, records, user).value;
      && Get(out.fields, "frame_data").Some? && Get(out.fields, "frame_data").value.Arr?
      && var items' := Get(out.fields, "frame_data").value.items;
      && |items'| == |items| && |records| <= |items|
      && (forall j :: 0 <= j < |records| ==>
            && HasKeys(records[j]) && items'[j].Obj?
            && Get(items'[j].fields, FrameFilename) == Some(Written(user, records[j]))
            && forall k :: k != FrameFilename ==> Get(items'[j].fields, k) == Get(items[j].fields, k))
      && (forall j :: |records| <= j < |items| ==> items'[j] == items[j])
    ensures var out := UpdateJsonData(data, records, user).value;
      && Field(out, "recording_info").Some? && Field(out, "recording_info").value.Obj?
      && Field(Field(out, "recording_info").value, "user_name") == Some(Str(user))
      && Field(Field(out, "recording_info").value, "naming_format") == Some(Str(NamingFormat))
  {
    var fs := RewriteFrames(data.fields, records, user).value;
    var out := UpdateJsonData(data, records, user).value;
    assert out == Obj(AddUser(fs, user).value);
    assert Get(out.fields, "frame_data") == Get(fs, "frame_data");
    var items := Get(data.fields, "frame_data").value.items;
    var items' := UpdateFrom(items, records, user, 0).value;
    assert |items'| == |items|;
    assert Updatable(records[|records| - 1], items, |records| - 1);
    forall j | 0 <= j < |records|
      ensures HasKeys(records[j]) && items'[j].Obj?
      ensures Get(items'[j].fields, FrameFilename) == Some(Written(user, records[j]))
      ensures forall k :: k != FrameFilename ==> Get(items'[j].fields, k) == Get(items[j].fields, k)
    {
      assert Updatable(records[j], items, j);
      assert items'[j] == Updated(items[j], records[j], user);
    }
  }

  /**
    The two passes agree on names: for a record whose image was planned to
    move, the rewrite stores exactly that move's target.
  */
  lemma RewriteMatchesRename(data: Value, records: seq<Value>, user: string)
    requires UpdateJsonData(data, records, user).Some?
    requires |records| > 0
    ensures var out := UpdateJsonData(data, records, user).value;
      && Get(out.fields, "frame_data").Some? && Get(out.fields, "frame_data").value.Arr?
      && var items' := Get(out.fields, "frame_data").value.items;
      && |records| <= |items'|
      && forall j :: 0 <= j < |records| && PlanOf(user, records[j]).Move? ==>
           items'[j].Obj? && Get(items'[j].fields, FrameFilename) == Some(Str(PlanOf(user, records[j]).target))
  {
    UpdateWritesNewNames(data, records, user);
  }

  // ---------------------------------------------------------------------------
  // Name properties

  /** A new name never has the recorder's `frame_<digits>.png` shape. */
  lemma NewNameNotFrameName(user: string, frameId: Value, actionCode: Value, dead: Value, n: nat)
    ensures NewName(user, frameId, actionCode, dead) != FrameName(n)
  {
    var name := NewName(user, frameId, actionCode, dead);
    var f := FrameName(n);
    NewNameMarker(user, frameId, actionCode, dead);
    if |f| == |name| {
      assert f[|f| - 6] == f[6..|f| - 4][|f| - 12];
      assert !IsDigit('t');
    }
  }

  /** Six characters from its end, a new name holds the `t` of `_nt`. */
  lemma NewNameMarker(user: string, frameId: Value, actionCode: Value, dead: Value)
    ensures var name := NewName(user, frameId, actionCode, dead);
      |name| >= 8 && name[|name| - 6] == 't'
  {
    MarkerAt(user, PyStr(frameId), PyStr(actionCode), DeathStatus(dead));
  }

  lemma MarkerAt(user: string, f: string, a: string, d: string)
    requires |d| == 1
    ensures var name := user + ("_f" + (f + ("_a" + (a + ("_nt" + (d + ".png"))))));
      |name| >= 8 && name[|name| - 6] == 't'
  {
    var tail := "_nt" + (d + ".png");
    var name := user + ("_f" + (f + ("_a" + (a + tail))));
    var head := user + "_f" + f + "_a" + a;
    assert name == head + tail;
    assert |tail| == 8 && tail[2] == 't';
  }

  /** A character absent from two prefixes fixes where they end. */
  lemma SeparatorSplits(x: string, y: string, x': string, y': string, c: char)
    requires c !in x && c !in x'
    requires x + [c] + y == x' + [c] + y'
    ensures x == x'
  {
    var s := x + [c] + y;
    if |x| < |x'| {
      SeparatorAt(x, y, c);
      NotSeparator(x', y', c, |x|);
      assert false;
    } else if |x'| < |x| {
      SeparatorAt(x', y', c);
      assert false;
    } else {
      assert x == s[..|x|] == x';
    }
  }

  lemma SeparatorAt(x: string, y: string, c: char)
    ensures (x + [c] + y)[|x|] == c
  {
  }

  lemma NotSeparator(x: string, y: string, c: char, i: nat)
    requires c !in x && i < |x|
    ensures (x + [c] + y)[i] != c
  {
    assert (x + [c] + y)[i] == x[i];
  }

  /** A printed int holds no underscore. */
  lemma NoUnderscoreInInt(i: int)
    ensures '_' !in IntText(i)
  {
    var d := Decimal(if i < 0 then -i else i);
    assert forall k :: 0 <= k < |d| ==> d[k] != '_' by {
      assert AllDigits(d);
    }
    if i < 0 {
      assert IntText(i) == "-" + d;
    }
  }

  /** What follows the frame id in a new name, after its underscore. */
  function Rest(actionCode: Value, dead: Value): string {
    "a" + (PyStr(actionCode) + ("_nt" + (DeathStatus(dead) + ".png")))
  }

  /** A new name is the user, `_f`, the frame id, an underscore, then the rest. */
  lemma NewNameSplit(user: string, frameId: Value, actionCode: Value, dead: Value)
    ensures NewName(user, frameId, actionCode, dead) == (user + "_f") + (PyStr(frameId) + ['_'] + Rest(actionCode, dead))
  {
    var f := PyStr(frameId);
    var a := PyStr(actionCode) + ("_nt" + (DeathStatus(dead) + ".png"));
    assert NewName(user, frameId, actionCode, dead) == user + ("_f" + (f + ("_a" + a)));
    assert Rest(actionCode, dead) == "a" + a;
    Regroup(user, f, a);
  }

  lemma Regroup(user: string, f: string, a: string)
    ensures user + ("_f" + (f + ("_a" + a))) == (user + "_f") + (f + ['_'] + ("a" + a))
  {
    assert "_a" + a == ['_'] + ("a" + a);
  }

  /**
    For one user, records with different integer frame ids get different
    new names, so no rename overwrites the image another record moved.
  */
  lemma NewNameSeparatesFrames(user: string, a: int, b: int, ac: Value, ac': Value, dead: Value, dead': Value)
    requires a != b
    ensures NewName(user, Int(a), ac, dead) != NewName(user, Int(b), ac', dead')
  {
    var p := user + "_f";
    var y := Rest(ac, dead);
    var y' := Rest(ac', dead');
    NewNameSplit(user, Int(a), ac, dead);
    NewNameSplit(user, Int(b), ac', dead');
    NoUnderscoreInInt(a);
    NoUnderscoreInInt(b);
    IntTextInjective(a, b);
    var n := NewName(user, Int(a), ac, dead);
    var n' := NewName(user, Int(b), ac', dead');
    if n == n' {
      assert n[|p|..] == IntText(a) + ['_'] + y;
      assert n'[|p|..] == IntText(b) + ['_'] + y';
      SeparatorSplits(IntText(a), y, IntText(b), y', '_');
    }
  }
}
