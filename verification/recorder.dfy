/**
  The bookkeeping of the recorder: a state record updated by pure step
  functions for `start_recording`, `record_frame`, one step of the save
  worker, and `stop_recording` (which writes the manifest and the
  statistics).
*/
module Recorder {
  import opened Wrappers
  import opened Text
  import opened ActionCodec
  import opened Tally
  import opened SaveWorker

  /** Width and height of a surface, in pixels. */
  datatype Size = Size(width: nat, height: nat)

  /**
    The size an image is written at for a quality setting: `low` halves
    both sides, `high` keeps them, and `medium` or any other string takes
    three quarters; fractions of a pixel are dropped.
  */
  function ScaledSize(quality: string, s: Size): (t: Size)
    ensures quality == "low" ==>
      2 * t.width <= s.width < 2 * t.width + 2 && 2 * t.height <= s.height < 2 * t.height + 2
    ensures quality == "high" ==> t == s
    ensures quality != "low" && quality != "high" ==>
      4 * t.width <= 3 * s.width < 4 * t.width + 4 && 4 * t.height <= 3 * s.height < 4 * t.height + 4
  {
    if quality == "low" then Size(s.width / 2, s.height / 2)
    else if quality == "high" then s
    else Size(3 * s.width / 4, 3 * s.height / 4)
  }

  /**
    Which picture an image file holds: the copy of the screen taken at
    frame `frameId` of recording session `session`, at the size written.
  */
  datatype Shot = Shot(session: nat, frameId: nat, size: Size)

  /**
    A queued save: the index in the frame log of the frame record it will
    stamp (none once a restart has dropped that log), the file name fixed
    when it was queued, and the screen copy.
  */
  datatype SaveTask = SaveTask(owner: Option<nat>, path: string, shot: Shot)

  /** What one call of `record_frame` is given. */
  datatype Input = Input(keys: Keys, marioState: string, marioDead: bool, screen: Size)

  /**
    One entry of `frame_data`, without its timestamp. Its `action_binary`
    and `action_names` fields are computed from the code when the record is
    made and never change, so they are the functions `ActionBinary` and
    `ActionNames` of the record.
  */
  datatype FrameRecord = FrameRecord(
    frameId: nat,
    actionCode: nat,
    marioState: string,
    marioDead: bool,
    frameSaved: bool,
    file: FileSlot)

  /** `bin(action_code)`. */
  function ActionBinary(f: FrameRecord): string {
    Binary(f.actionCode)
  }

  /** `decode_action(action_code)`. */
  function ActionNames(f: FrameRecord): seq<Label> {
    Decode(f.actionCode)
  }

  /** The `recording_info` part of the manifest, without its clock fields. */
  datatype Manifest = Manifest(totalFrames: nat, gameVersion: string, frames: seq<FrameRecord>)

  /** The statistics file. */
  datatype Statistics = Statistics(
    actions: Histogram<string>,
    states: Histogram<string>,
    descriptions: seq<(string, Label)>)

  /** The recorder's fields, plus the image files and the two JSON files it writes. */
  datatype RecorderState = RecorderState(
    mode: bool,
    frameSkip: int,
    quality: string,
    session: nat,
    frameData: seq<FrameRecord>,
    frameCount: nat,
    saveFrameCount: nat,
    queue: seq<SaveTask>,
    workerRunning: bool,
    images: map<string, Shot>,
    manifest: Option<Manifest>,
    statistics: Option<Statistics>)

  const GameVersion := "Mario Level 1"

  /** A new recorder: nothing logged, nothing queued, an empty frames directory. */
  function Init(mode: bool, frameSkip: int, quality: string): (r: RecorderState) {
    RecorderState(mode, frameSkip, quality, 0, [], 0, 0, [], false, map[], None, None)
  }

  /** The queued tasks after a restart: their frame records are no longer in the log. */
  function Detach(queue: seq<SaveTask>): (q: seq<SaveTask>)
    ensures |q| == |queue|
    ensures forall k :: 0 <= k < |q| ==> q[k] == queue[k].(owner := None)
  {
    seq(|queue|, k requires 0 <= k < |queue| => queue[k].(owner := None))
  }

  /**
    `start_recording`: outside recording mode nothing happens; otherwise
    the log and both counters are reset and a worker is started. The queue
    is kept, so saves queued before the restart are still performed.
  */
  function StartRecording(r: RecorderState): (r': RecorderState)
    ensures !r.mode ==> r' == r
    ensures r.mode ==> (r'.frameData == [] && r'.frameCount == 0 && r'.saveFrameCount == 0
      && r'.workerRunning && r'.queue == Detach(r.queue) && r'.images == r.images
      && r'.session != r.session
      && r'.mode == r.mode && r'.frameSkip == r.frameSkip && r'.quality == r.quality
      && r'.manifest == r.manifest && r'.statistics == r.statistics)
  {
    if !r.mode then r
    else r.(session := r.session + 1, frameData := [], frameCount := 0, saveFrameCount := 0,
            queue := Detach(r.queue), workerRunning := true)
  }

  /** Whether the frame with this number has its screen saved. */
  predicate SavedFrame(frameCount: nat, frameSkip: int)
    requires frameSkip != 0
  {
    frameCount % frameSkip == 0
  }

  /**
    `record_frame`. Outside recording mode it does nothing. A frame skip
    of 0 raises `ZeroDivisionError` (`None` here) before anything changes.
    Otherwise exactly one record is appended, numbered with the old frame
    count, and the count goes up by one; a frame that is saved is queued
    and its file name left unset, a frame that is not gets `None`.
  */
  function RecordFrame(r: RecorderState, input: Input): (res: Option<RecorderState>)
    ensures !r.mode ==> res == Some(r)
    ensures r.mode && r.frameSkip == 0 ==> res.None?
    ensures r.mode && r.frameSkip != 0 ==> (res.Some?
      && |res.value.frameData| == |r.frameData| + 1
      && res.value.frameData[..|r.frameData|] == r.frameData
      && res.value.frameCount == r.frameCount + 1
      && res.value.frameData[|r.frameData|].frameId == r.frameCount
      && res.value.frameData[|r.frameData|].actionCode == Encode(input.keys)
      && res.value.frameData[|r.frameData|].marioState == input.marioState
      && res.value.frameData[|r.frameData|].marioDead == input.marioDead
      && res.value.frameData[|r.frameData|].frameSaved == (r.frameCount % r.frameSkip == 0)
      && res.value.frameData[|r.frameData|].file == (if r.frameCount % r.frameSkip == 0 then Pending else NoFile)
      && res.value.queue == (if r.frameCount % r.frameSkip == 0
           then r.queue + [SaveTask(Some(|r.frameData|), FrameName(r.saveFrameCount), Shot(r.session, r.frameCount, input.screen))]
           else r.queue)
      && res.value.saveFrameCount == r.saveFrameCount && res.value.session == r.session
      && res.value.workerRunning == r.workerRunning && res.value.images == r.images
      && res.value.mode == r.mode && res.value.frameSkip == r.frameSkip && res.value.quality == r.quality
      && res.value.manifest == r.manifest && res.value.statistics == r.statistics)
  {
    if !r.mode then Some(r)
    else if r.frameSkip == 0 then None
    else
      Some(Append(r, NewRecord(r, input), NewTask(r, input)))
  }

  /** The record `record_frame` logs for this input. */
  function NewRecord(r: RecorderState, input: Input): FrameRecord
    requires r.frameSkip != 0
  {
    var code := Encode(input.keys);
    var saved := SavedFrame(r.frameCount, r.frameSkip);
    FrameRecord(r.frameCount, code, input.marioState, input.marioDead, saved, if saved then Pending else NoFile)
  }

  /**
    The action fields of a logged frame: its names are the labels of the
    keys held (LEFT winning over RIGHT), and its binary text reads back as
    its code.
  */
  lemma TickActionFields(r: RecorderState, input: Input)
    requires r.mode && r.frameSkip != 0
    ensures var f := RecordFrame(r, input).value.frameData[|r.frameData|];
      && ActionNames(f) == Labels(input.keys)
      && ParseBinary(ActionBinary(f)) == Some(f.actionCode)
      && f.actionCode < 32
  {
    var f := RecordFrame(r, input).value.frameData[|r.frameData|];
    RoundTrip(input.keys);
    BinaryRoundTrip(f.actionCode);
  }

  /** The save task `record_frame` queues for this input, if the frame is saved. */
  function NewTask(r: RecorderState, input: Input): SaveTask {
    SaveTask(Some(|r.frameData|), FrameName(r.saveFrameCount), Shot(r.session, r.frameCount, input.screen))
  }

  /** Logging a record, and queueing its task when the record is to be saved. */
  function Append(r: RecorderState, rec: FrameRecord, task: SaveTask): RecorderState {
    r.(frameData := r.frameData + [rec], frameCount := r.frameCount + 1,
       queue := if rec.frameSaved then r.queue + [task] else r.queue)
  }

  /**
    Where the worker writes an image: at the path the producer fixed when
    it queued the save task, or at the name the worker is about to stamp.
  */
  datatype PathRule = EnqueuePath | StampedPath

  function WritePath(rule: PathRule, task: SaveTask, count: nat): string {
    match rule
    case EnqueuePath => task.path
    case StampedPath => FrameName(count)
  }

  /**
    One step of the save worker, given whether the image write succeeds.
    A stopped worker, or one with nothing queued, does nothing. Otherwise
    the oldest task is taken off the queue; on success the image is written
    and the save task's frame record is stamped with the name built from the
    counter, which advances; on failure the record gets `None`.
  */
  function WorkStep(r: RecorderState, ok: bool, rule: PathRule): (r': RecorderState)
    ensures !r.workerRunning || |r.queue| == 0 ==> r' == r
    ensures r.workerRunning && |r.queue| > 0 ==>
      r'.queue == r.queue[1..]
      && r'.saveFrameCount == r.saveFrameCount + (if ok then 1 else 0)
      && |r'.frameData| == |r.frameData|
      && (forall i :: 0 <= i < |r.frameData| && r.queue[0].owner != Some(i) ==> r'.frameData[i] == r.frameData[i])
      && (ok ==> r'.images == r.images[WritePath(rule, r.queue[0], r.saveFrameCount) :=
                                        r.queue[0].shot.(size := ScaledSize(r.quality, r.queue[0].shot.size))])
      && (!ok ==> r'.images == r.images)
      && (r.queue[0].owner.Some? && r.queue[0].owner.value < |r.frameData| ==>
            var o := r.queue[0].owner.value;
            r'.frameData[o] == r.frameData[o].(file := if ok then Named(FrameName(r.saveFrameCount)) else NoFile))
      && r'.mode == r.mode && r'.frameSkip == r.frameSkip && r'.quality == r.quality && r'.session == r.session
      && r'.frameCount == r.frameCount && r'.workerRunning && r'.manifest == r.manifest && r'.statistics == r.statistics
  {
    if !r.workerRunning || |r.queue| == 0 then r
    else
      var task := r.queue[0];
      var (slot, next) := StampOne(r.saveFrameCount, ok);
      var images := if ok then r.images[WritePath(rule, task, r.saveFrameCount) :=
                                          task.shot.(size := ScaledSize(r.quality, task.shot.size))]
                    else r.images;
      var frames := if task.owner.Some? && task.owner.value < |r.frameData|
                    then r.frameData[task.owner.value := r.frameData[task.owner.value].(file := slot)]
                    else r.frameData;
      r.(queue := r.queue[1..], saveFrameCount := next, images := images, frameData := frames)
  }

  /** The action codes of the log as the statistics keys (`str(code)`). */
  function ActionKeys(frames: seq<FrameRecord>): (keys: seq<string>)
    ensures |keys| == |frames|
    ensures forall i :: 0 <= i < |frames| ==> keys[i] == IntText(frames[i].actionCode)
  {
    seq(|frames|, i requires 0 <= i < |frames| => IntText(frames[i].actionCode))
  }

  /** The character states of the log. */
  function StateKeys(frames: seq<FrameRecord>): (keys: seq<string>)
    ensures |keys| == |frames|
    ensures forall i :: 0 <= i < |frames| ==> keys[i] == frames[i].marioState
  {
    seq(|frames|, i requires 0 <= i < |frames| => frames[i].marioState)
  }

  /** A key is in a key sequence exactly when some record has it. */
  lemma KeysOccur(frames: seq<FrameRecord>)
    ensures forall k :: k in ActionKeys(frames) <==> exists i :: 0 <= i < |frames| && IntText(frames[i].actionCode) == k
    ensures forall k :: k in StateKeys(frames) <==> exists i :: 0 <= i < |frames| && frames[i].marioState == k
  {
    var actions := ActionKeys(frames);
    var states := StateKeys(frames);
    forall k | k in actions
      ensures exists i :: 0 <= i < |frames| && IntText(frames[i].actionCode) == k
    {
      var i :| 0 <= i < |actions| && actions[i] == k;
    }
    forall k | k in states
      ensures exists i :: 0 <= i < |frames| && frames[i].marioState == k
    {
      var i :| 0 <= i < |states| && states[i] == k;
    }
  }

  /**
    `save_action_statistics`: each histogram has one entry per value that
    occurs in the log, counting its occurrences, so that the counts add up
    to the number of records.
  */
  function ActionStatistics(frames: seq<FrameRecord>): (s: Statistics)
    ensures Sum(s.actions) == |frames| && Sum(s.states) == |frames|
    ensures DistinctKeys(s.actions) && DistinctKeys(s.states)
    ensures forall k :: HasKey(s.actions, k) <==> exists i :: 0 <= i < |frames| && IntText(frames[i].actionCode) == k
    ensures forall k :: HasKey(s.states, k) <==> exists i :: 0 <= i < |frames| && frames[i].marioState == k
    ensures forall k :: CountOf(s.actions, k) == multiset(ActionKeys(frames))[k]
    ensures forall k :: CountOf(s.states, k) == multiset(StateKeys(frames))[k]
  {
    var actions := ActionKeys(frames);
    var states := StateKeys(frames);
    KeysOccur(frames);
    Statistics(TallyOf(actions), TallyOf(states), ActionDescriptions)
  }

  /**
    `stop_recording`: only in recording mode and with a non-empty log, the
    worker is stopped, the manifest is written with the frame count as its
    total, and the statistics are written. Saves still queued stay queued,
    and their frame records go out without a file name.
  */
  function StopRecording(r: RecorderState): (r': RecorderState)
    ensures !(r.mode && |r.frameData| > 0) ==> r' == r
    ensures r.mode && |r.frameData| > 0 ==>
      !r'.workerRunning && r'.frameData == r.frameData && r'.queue == r.queue && r'.images == r.images
      && r'.manifest == Some(Manifest(r.frameCount, GameVersion, r.frameData))
      && r'.statistics == Some(ActionStatistics(r.frameData))
      && r'.mode == r.mode && r'.frameSkip == r.frameSkip && r'.quality == r.quality
      && r'.session == r.session && r'.frameCount == r.frameCount && r'.saveFrameCount == r.saveFrameCount
  {
    if r.mode && |r.frameData| > 0 then
      r.(workerRunning := false,
         manifest := Some(Manifest(r.frameCount, GameVersion, r.frameData)),
         statistics := Some(ActionStatistics(r.frameData)))
    else r
  }

  /** What can happen to the recorder. */
  datatype Event = Start | Tick(input: Input) | Work(ok: bool) | Stop

  /** One event; `None` when `record_frame` raises. */
  function Step(r: RecorderState, e: Event, rule: PathRule): Option<RecorderState> {
    match e
    case Start => Some(StartRecording(r))
    case Tick(input) => RecordFrame(r, input)
    case Work(ok) => Some(WorkStep(r, ok, rule))
    case Stop => Some(StopRecording(r))
  }

  /** A sequence of events, stopping at the first exception. */
  function Run(r: RecorderState, events: seq<Event>, rule: PathRule): Option<RecorderState>
    decreases |events|
  {
    if |events| == 0 then Some(r)
    else match Step(r, events[0], rule)
      case None => None
      case Some(r1) => Run(r1, events[1..], rule)
  }

  // ---------------------------------------------------------------------------
  // The bookkeeping invariant

  /** A name `FrameName(n)` for some n below `count`. */
  predicate StampedBelow(name: string, count: nat) {
    match ParseFrameName(name)
    case None => false
    case Some(n) => n < count && FrameName(n) == name
  }

  /**
    Record i of the log: numbered i, its action fields consistent with its
    code, saved exactly when i is a multiple of the frame skip, and without
    a file name when not saved.
  */
  predicate RecordValid(frameSkip: int, i: nat, f: FrameRecord) {
    && f.frameId == i
    && f.actionCode < 32
    && frameSkip != 0
    && f.frameSaved == (i % frameSkip == 0)
    && (!f.frameSaved ==> f.file == NoFile)
  }

  /** Some queued task stamps record i. */
  predicate Owned(queue: seq<SaveTask>, i: nat) {
    exists k :: 0 <= k < |queue| && queue[k].owner == Some(i)
  }

  /**
    The queue refers to saved records of the current log, in log order,
    each carrying the screen copy of its own frame.
  */
  predicate QueueValid(session: nat, frameData: seq<FrameRecord>, queue: seq<SaveTask>) {
    && (forall k :: 0 <= k < |queue| && queue[k].owner.Some? ==>
          && queue[k].owner.value < |frameData|
          && frameData[queue[k].owner.value].frameSaved
          && queue[k].shot.session == session
          && queue[k].shot.frameId == queue[k].owner.value)
    && (forall a, b :: 0 <= a < b < |queue| && queue[a].owner.Some? && queue[b].owner.Some? ==>
          queue[a].owner.value < queue[b].owner.value)
  }

  /** No two records of the log are stamped with the same name. */
  predicate DistinctNames(frameData: seq<FrameRecord>) {
    forall i, j :: 0 <= i < j < |frameData| && frameData[i].file.Named? && frameData[j].file.Named? ==>
      frameData[i].file.name != frameData[j].file.name
  }

  /**
    The part of the invariant that does not depend on where the worker
    writes: the records, the queue, which records are pending, and the
    stamped names, each `FrameName(n)` for an n the counter has passed and
    no two alike.
  */
  predicate LogBookkeeping(frameSkip: int, session: nat, frameData: seq<FrameRecord>, frameCount: nat,
                           saveFrameCount: nat, queue: seq<SaveTask>) {
    && frameCount == |frameData|
    && (forall i :: 0 <= i < |frameData| ==> RecordValid(frameSkip, i, frameData[i]))
    && QueueValid(session, frameData, queue)
    && (forall i :: 0 <= i < |frameData| ==> (frameData[i].file == Pending <==> Owned(queue, i)))
    && (forall i :: 0 <= i < |frameData| && frameData[i].file.Named? ==>
          StampedBelow(frameData[i].file.name, saveFrameCount))
    && DistinctNames(frameData)
  }

  /** The file `name` holds the picture of frame i of this session. */
  predicate ImageOf(session: nat, images: map<string, Shot>, i: nat, name: string) {
    && name in images
    && images[name].session == session
    && images[name].frameId == i
  }

  /** Every stamped record's file holds that record's own picture. */
  predicate ImagesHold(session: nat, images: map<string, Shot>, frameData: seq<FrameRecord>) {
    forall i :: 0 <= i < |frameData| && frameData[i].file.Named? ==>
      ImageOf(session, images, i, frameData[i].file.name)
  }

  predicate LogValid(r: RecorderState) {
    LogBookkeeping(r.frameSkip, r.session, r.frameData, r.frameCount, r.saveFrameCount, r.queue)
  }

  /** The whole invariant: the log part, and the images matching the log. */
  predicate Valid(r: RecorderState) {
    LogValid(r) && ImagesHold(r.session, r.images, r.frameData)
  }

  lemma InitValid(mode: bool, frameSkip: int, quality: string)
    ensures Valid(Init(mode, frameSkip, quality))
  {
  }

  lemma StartValid(r: RecorderState)
    requires LogValid(r)
    ensures LogValid(StartRecording(r))
    ensures Valid(r) ==> Valid(StartRecording(r))
  {
  }

  lemma StopValid(r: RecorderState)
    requires LogValid(r)
    ensures LogValid(StopRecording(r))
    ensures Valid(r) ==> Valid(StopRecording(r))
  {
  }

  lemma TickValid(r: RecorderState, input: Input)
    requires LogValid(r) && RecordFrame(r, input).Some?
    ensures LogValid(RecordFrame(r, input).value)
    ensures Valid(r) ==> Valid(RecordFrame(r, input).value)
  {
    if r.mode {
      var rec := NewRecord(r, input);
      assert RecordValid(r.frameSkip, |r.frameData|, rec);
      AppendValid(r, rec, NewTask(r, input));
    }
  }

  /** Appending a well-formed record, with its task when it is saved, keeps the invariant. */
  lemma AppendValid(r: RecorderState, rec: FrameRecord, task: SaveTask)
    requires LogValid(r)
    requires RecordValid(r.frameSkip, |r.frameData|, rec)
    requires rec.file == (if rec.frameSaved then Pending else NoFile)
    requires task.owner == Some(|r.frameData|)
    requires task.shot.session == r.session && task.shot.frameId == |r.frameData|
    ensures LogValid(Append(r, rec, task))
    ensures Valid(r) ==> Valid(Append(r, rec, task))
  {
    var r' := Append(r, rec, task);
    var n := |r.frameData|;
    assert r'.frameData[n] == rec;
    forall i | 0 <= i < n
      ensures r'.frameData[i] == r.frameData[i]
    {
    }
    AppendKeepsNames(r.frameData, rec, r.saveFrameCount, r.session, r.images);
    AppendKeepsQueue(r.session, r.frameData, r.queue, rec, task);
    AppendKeepsPending(r.frameData, r.queue, rec, task);
  }

  /** Appending a record, with its task exactly when it is saved, keeps the queue well formed. */
  lemma AppendKeepsQueue(session: nat, frameData: seq<FrameRecord>, queue: seq<SaveTask>,
                         rec: FrameRecord, task: SaveTask)
    requires QueueValid(session, frameData, queue)
    requires task.owner == Some(|frameData|)
    requires task.shot.session == session && task.shot.frameId == |frameData|
    ensures QueueValid(session, frameData + [rec], if rec.frameSaved then queue + [task] else queue)
  {
    var f := frameData + [rec];
    var q := if rec.frameSaved then queue + [task] else queue;
    var n := |frameData|;
    assert f[n] == rec;
    forall i | 0 <= i < n
      ensures f[i] == frameData[i]
    {
    }
    forall k | 0 <= k < |queue|
      ensures q[k] == queue[k]
    {
    }
    forall k | 0 <= k < |q| && q[k].owner.Some?
      ensures q[k].owner.value <= n
      ensures q[k].owner.value == n <==> k == |queue|
    {
    }
  }

  /** Appending a record, with its task exactly when it is pending, keeps which records are pending. */
  lemma AppendKeepsPending(frameData: seq<FrameRecord>, queue: seq<SaveTask>, rec: FrameRecord, task: SaveTask)
    requires forall i :: 0 <= i < |frameData| ==> (frameData[i].file == Pending <==> Owned(queue, i))
    requires forall k :: 0 <= k < |queue| && queue[k].owner.Some? ==> queue[k].owner.value < |frameData|
    requires rec.file == (if rec.frameSaved then Pending else NoFile)
    requires task.owner == Some(|frameData|)
    ensures var f := frameData + [rec];
            var q := if rec.frameSaved then queue + [task] else queue;
      forall i :: 0 <= i < |f| ==> (f[i].file == Pending <==> Owned(q, i))
  {
    var f := frameData + [rec];
    var q := if rec.frameSaved then queue + [task] else queue;
    var n := |frameData|;
    forall i | 0 <= i < |f|
      ensures f[i].file == Pending <==> Owned(q, i)
    {
      if i < n {
        assert f[i] == frameData[i];
        if Owned(queue, i) {
          var k :| 0 <= k < |queue| && queue[k].owner == Some(i);
          assert q[k] == queue[k];
        }
        if Owned(q, i) {
          var k :| 0 <= k < |q| && q[k].owner == Some(i);
          assert k < |queue| && q[k] == queue[k];
        }
      } else {
        assert f[i] == rec;
        if rec.frameSaved {
          assert q[|queue|].owner == Some(n);
        }
      }
    }
  }

  /** A record without a name keeps the stamped names as they were. */
  lemma AppendKeepsNames(frameData: seq<FrameRecord>, rec: FrameRecord, count: nat,
                         session: nat, images: map<string, Shot>)
    requires !rec.file.Named?
    requires forall i :: 0 <= i < |frameData| && frameData[i].file.Named? ==>
      StampedBelow(frameData[i].file.name, count)
    requires DistinctNames(frameData)
    ensures forall i :: 0 <= i < |frameData + [rec]| && (frameData + [rec])[i].file.Named? ==>
      StampedBelow((frameData + [rec])[i].file.name, count)
    ensures DistinctNames(frameData + [rec])
    ensures ImagesHold(session, images, frameData) ==> ImagesHold(session, images, frameData + [rec])
  {
    var f := frameData + [rec];
    var n := |frameData|;
    assert f[n] == rec;
    forall i | 0 <= i < n
      ensures f[i] == frameData[i]
    {
    }
    forall i, j | 0 <= i < j < |f| && f[i].file.Named? && f[j].file.Named?
      ensures f[i].file.name != f[j].file.name
    {
      assert j < n;
    }
    if ImagesHold(session, images, frameData) {
      forall i | 0 <= i < |f| && f[i].file.Named?
        ensures ImageOf(session, images, i, f[i].file.name)
      {
        assert i < n;
      }
    }
  }

  /** A worker turn keeps the log part whatever the write rule, and the images part under the stamped rule. */
  lemma WorkValid(r: RecorderState, ok: bool, rule: PathRule)
    requires LogValid(r)
    ensures LogValid(WorkStep(r, ok, rule))
    ensures rule == StampedPath && Valid(r) ==> Valid(WorkStep(r, ok, rule))
  {
    if r.workerRunning && |r.queue| > 0 {
      WorkKeepsRecords(r, ok, rule);
      WorkKeepsQueue(r, ok, rule);
      WorkKeepsPending(r, ok, rule);
      WorkKeepsNames(r, ok, rule);
      if rule == StampedPath && Valid(r) {
        WorkKeepsImages(r, ok);
      }
    }
  }

  lemma WorkKeepsRecords(r: RecorderState, ok: bool, rule: PathRule)
    requires LogValid(r) && r.workerRunning && |r.queue| > 0
    ensures var r' := WorkStep(r, ok, rule);
      r'.frameCount == |r'.frameData|
      && forall i :: 0 <= i < |r'.frameData| ==> RecordValid(r'.frameSkip, i, r'.frameData[i])
  {
    var r' := WorkStep(r, ok, rule);
    forall i | 0 <= i < |r'.frameData|
      ensures RecordValid(r'.frameSkip, i, r'.frameData[i])
    {
      assert RecordValid(r.frameSkip, i, r.frameData[i]);
    }
  }

  lemma WorkKeepsQueue(r: RecorderState, ok: bool, rule: PathRule)
    requires LogValid(r) && r.workerRunning && |r.queue| > 0
    ensures var r' := WorkStep(r, ok, rule);
      QueueValid(r'.session, r'.frameData, r'.queue)
  {
    var r' := WorkStep(r, ok, rule);
    forall k | 0 <= k < |r'.queue|
      ensures r'.queue[k] == r.queue[k + 1]
    {
    }
    forall k | 0 <= k < |r'.queue| && r'.queue[k].owner.Some?
      ensures r'.frameData[r'.queue[k].owner.value].frameSaved
    {
      assert r.queue[0].owner.Some? ==> r.queue[0].owner.value < r'.queue[k].owner.value;
    }
  }

  lemma WorkKeepsPending(r: RecorderState, ok: bool, rule: PathRule)
    requires LogValid(r) && r.workerRunning && |r.queue| > 0
    ensures var r' := WorkStep(r, ok, rule);
      forall i :: 0 <= i < |r'.frameData| ==> (r'.frameData[i].file == Pending <==> Owned(r'.queue, i))
  {
    var r' := WorkStep(r, ok, rule);
    var task := r.queue[0];
    forall i | 0 <= i < |r'.frameData|
      ensures r'.frameData[i].file == Pending <==> Owned(r'.queue, i)
    {
      if Owned(r'.queue, i) {
        var k :| 0 <= k < |r'.queue| && r'.queue[k].owner == Some(i);
        assert r.queue[k + 1].owner == Some(i);
        assert task.owner != Some(i);
      }
      if task.owner != Some(i) && Owned(r.queue, i) {
        var k :| 0 <= k < |r.queue| && r.queue[k].owner == Some(i);
        assert k > 0;
        assert r'.queue[k - 1].owner == Some(i);
      }
    }
  }

  /** The name the worker is about to stamp is none of the names already stamped. */
  lemma FreshName(frameData: seq<FrameRecord>, count: nat)
    requires forall i :: 0 <= i < |frameData| && frameData[i].file.Named? ==>
      StampedBelow(frameData[i].file.name, count)
    ensures forall i :: 0 <= i < |frameData| && frameData[i].file.Named? ==>
      frameData[i].file.name != FrameName(count)
  {
    FrameNameRoundTrip(count);
    forall i | 0 <= i < |frameData| && frameData[i].file.Named?
      ensures frameData[i].file.name != FrameName(count)
    {
      var m := ParseFrameName(frameData[i].file.name).value;
      FrameNameInjective(m, count);
    }
  }

  lemma WorkKeepsNames(r: RecorderState, ok: bool, rule: PathRule)
    requires LogValid(r) && r.workerRunning && |r.queue| > 0
    ensures var r' := WorkStep(r, ok, rule);
      && (forall i :: 0 <= i < |r'.frameData| && r'.frameData[i].file.Named? ==>
            StampedBelow(r'.frameData[i].file.name, r'.saveFrameCount))
      && DistinctNames(r'.frameData)
  {
    var r' := WorkStep(r, ok, rule);
    var task := r.queue[0];
    FreshName(r.frameData, r.saveFrameCount);
    FrameNameRoundTrip(r.saveFrameCount);
    forall i | 0 <= i < |r'.frameData| && task.owner != Some(i)
      ensures r'.frameData[i] == r.frameData[i]
    {
    }
    forall i | 0 <= i < |r'.frameData| && r'.frameData[i].file.Named?
      ensures StampedBelow(r'.frameData[i].file.name, r'.saveFrameCount)
    {
      if task.owner != Some(i) {
        assert r.frameData[i].file.Named? && StampedBelow(r.frameData[i].file.name, r.saveFrameCount);
      }
    }
    forall i, j | 0 <= i < j < |r'.frameData| && r'.frameData[i].file.Named? && r'.frameData[j].file.Named?
      ensures r'.frameData[i].file.name != r'.frameData[j].file.name
    {
      if task.owner != Some(i) && task.owner != Some(j) {
        assert r.frameData[i].file.Named? && r.frameData[j].file.Named?;
      }
    }
  }

  /** Under the stamped rule the new image goes to the name just stamped, which no other record has. */
  lemma WorkKeepsImages(r: RecorderState, ok: bool)
    requires Valid(r) && r.workerRunning && |r.queue| > 0
    ensures var r' := WorkStep(r, ok, StampedPath);
      ImagesHold(r'.session, r'.images, r'.frameData)
  {
    var r' := WorkStep(r, ok, StampedPath);
    var task := r.queue[0];
    FreshName(r.frameData, r.saveFrameCount);
    forall i | 0 <= i < |r'.frameData| && r'.frameData[i].file.Named?
      ensures ImageOf(r'.session, r'.images, i, r'.frameData[i].file.name)
    {
      if task.owner != Some(i) {
        assert r'.frameData[i] == r.frameData[i];
      }
    }
  }

  // ---------------------------------------------------------------------------
  // Reachable states

  /**
    Every event keeps the log part of the invariant, whatever the write
    rule; under the stamped rule it keeps the whole invariant.
  */
  lemma StepValid(r: RecorderState, e: Event, rule: PathRule)
    requires LogValid(r) && Step(r, e, rule).Some?
    ensures LogValid(Step(r, e, rule).value)
    ensures rule == StampedPath && Valid(r) ==> Valid(Step(r, e, rule).value)
  {
    match e
    case Start => StartValid(r);
    case Tick(input) => TickValid(r, input);
    case Work(ok) => WorkValid(r, ok, rule);
    case Stop => StopValid(r);
  }

  lemma {:induction false} RunValid(r: RecorderState, events: seq<Event>, rule: PathRule)
    requires LogValid(r) && Run(r, events, rule).Some?
    ensures LogValid(Run(r, events, rule).value)
    ensures rule == StampedPath && Valid(r) ==> Valid(Run(r, events, rule).value)
    decreases |events|
  {
    if |events| > 0 {
      StepValid(r, events[0], rule);
      RunValid(Step(r, events[0], rule).value, events[1..], rule);
    }
  }

  /**
    What holds after any run of events from a new recorder, whichever way
    the worker picks its path: the log is numbered 0, 1, 2, ... with the
    frame count as its length; a record is saved exactly when its number is
    a multiple of the frame skip, and an unsaved record has no file name; a
    record's file name is unset exactly while its save is queued; and no two
    records share a name. Only when the worker writes under the name it
    stamps does every stamped name hold that frame's picture.
  */
  lemma ReachableBookkeeping(mode: bool, frameSkip: int, quality: string, events: seq<Event>, rule: PathRule)
    requires Run(Init(mode, frameSkip, quality), events, rule).Some?
    ensures var r := Run(Init(mode, frameSkip, quality), events, rule).value;
      && r.frameCount == |r.frameData|
      && (forall i :: 0 <= i < |r.frameData| ==> r.frameData[i].frameId == i)
      && (forall i :: 0 <= i < |r.frameData| ==>
            frameSkip != 0 && (r.frameData[i].frameSaved <==> i % frameSkip == 0))
      && (forall i :: 0 <= i < |r.frameData| && !r.frameData[i].frameSaved ==> r.frameData[i].file == NoFile)
      && (forall i :: 0 <= i < |r.frameData| ==> (r.frameData[i].file == Pending <==> Owned(r.queue, i)))
      && (forall i, j :: 0 <= i < j < |r.frameData| && r.frameData[i].file.Named? && r.frameData[j].file.Named? ==>
            r.frameData[i].file.name != r.frameData[j].file.name)
    ensures var r := Run(Init(mode, frameSkip, quality), events, rule).value;
      rule == StampedPath ==>
        forall i :: 0 <= i < |r.frameData| && r.frameData[i].file.Named? ==>
          r.frameData[i].file.name in r.images && r.images[r.frameData[i].file.name].frameId == i
  {
    InitValid(mode, frameSkip, quality);
    RunValid(Init(mode, frameSkip, quality), events, rule);
    RunKeepsSettings(Init(mode, frameSkip, quality), events, rule);
    var r := Run(Init(mode, frameSkip, quality), events, rule).value;
    assert r.frameSkip == Init(mode, frameSkip, quality).frameSkip == frameSkip;
    forall i | 0 <= i < |r.frameData|
      ensures frameSkip != 0 && (r.frameData[i].frameSaved <==> i % frameSkip == 0)
    {
      assert RecordValid(r.frameSkip, i, r.frameData[i]);
    }
    assert forall i :: 0 <= i < |r.frameData| ==>
            frameSkip != 0 && (r.frameData[i].frameSaved <==> i % frameSkip == 0);
    if rule == StampedPath {
      forall i | 0 <= i < |r.frameData| && r.frameData[i].file.Named?
        ensures r.frameData[i].file.name in r.images && r.images[r.frameData[i].file.name].frameId == i
      {
        assert ImageOf(r.session, r.images, i, r.frameData[i].file.name);
      }
    }
  }

  /** No event changes the mode, the frame skip or the quality. */
  lemma {:induction false} RunKeepsSettings(r: RecorderState, events: seq<Event>, rule: PathRule)
    requires Run(r, events, rule).Some?
    ensures var r' := Run(r, events, rule).value;
      r'.mode == r.mode && r'.frameSkip == r.frameSkip && r'.quality == r.quality
    decreases |events|
  {
    if |events| > 0 {
      RunKeepsSettings(Step(r, events[0], rule).value, events[1..], rule);
    }
  }

  /** The state without its image files. */
  function WithoutImages(r: RecorderState): RecorderState {
    r.(images := map[])
  }

  /** One event under two write rules, from states that differ only in their image files. */
  lemma StepOnlyImages(r: RecorderState, s: RecorderState, e: Event, rule: PathRule, rule': PathRule)
    requires WithoutImages(r) == WithoutImages(s)
    ensures Step(r, e, rule).Some? == Step(s, e, rule').Some?
    ensures Step(r, e, rule).Some? ==>
      WithoutImages(Step(r, e, rule).value) == WithoutImages(Step(s, e, rule').value)
  {
    assert r.frameData == s.frameData && r.queue == s.queue && r.mode == s.mode && r.frameSkip == s.frameSkip;
    assert r.saveFrameCount == s.saveFrameCount && r.workerRunning == s.workerRunning && r.quality == s.quality;
    assert r.frameCount == s.frameCount && r.session == s.session;
    assert r.manifest == s.manifest && r.statistics == s.statistics;
  }

  /**
    The write rule decides only which files hold which pictures: from
    states that agree on everything else, the same events raise under both
    rules or under neither, and lead to states that again agree on
    everything but the image files.
  */
  lemma {:induction false} RuleOnlyImages(r: RecorderState, s: RecorderState, events: seq<Event>, rule: PathRule, rule': PathRule)
    requires WithoutImages(r) == WithoutImages(s)
    ensures Run(r, events, rule).Some? == Run(s, events, rule').Some?
    ensures Run(r, events, rule).Some? ==>
      WithoutImages(Run(r, events, rule).value) == WithoutImages(Run(s, events, rule').value)
    decreases |events|
  {
    if |events| > 0 {
      var e := events[0];
      StepOnlyImages(r, s, e, rule, rule');
      if Step(r, e, rule).Some? {
        RuleOnlyImages(Step(r, e, rule).value, Step(s, e, rule').value, events[1..], rule, rule');
      }
    }
  }

  // ---------------------------------------------------------------------------
  // How many frames are saved

  function Abs(x: int): nat {
    if x < 0 then -x else x
  }

  /** The number of records marked saved. */
  function SavedCount(frames: seq<FrameRecord>): nat {
    if |frames| == 0 then 0
    else SavedCount(frames[..|frames| - 1]) + (if frames[|frames| - 1].frameSaved then 1 else 0)
  }

  /** Euclidean division has one quotient and one remainder. */
  lemma DivModUnique(a: int, m: int, q: int, t: int)
    requires m > 0 && a == q * m + t && 0 <= t < m
    ensures a / m == q && a % m == t
  {
    var q', t' := a / m, a % m;
    assert (q - q') * m == t' - t;
    assert q - q' >= 1 ==> (q - q') * m >= m;
    assert q' - q >= 1 ==> (q' - q) * m >= m;
  }

  /** Whether x is a multiple of the divisor does not depend on its sign. */
  lemma MultipleOfAbs(x: int, skip: int)
    requires skip != 0
    ensures x % skip == 0 <==> x % Abs(skip) == 0
  {
    if skip < 0 {
      DivModUnique(x, Abs(skip), -(x / skip), x % skip);
    }
  }

  /** Among the numbers 0 .. n-1, those that are multiples of the frame skip. */
  function Multiples(n: nat, skip: int): nat
    requires skip != 0
  {
    if n == 0 then 0 else Multiples(n - 1, skip) + (if (n - 1) % skip == 0 then 1 else 0)
  }

  /** ceil(n / m). */
  function CeilDiv(n: nat, m: nat): nat
    requires m > 0
  {
    (n + m - 1) / m
  }

  /** There are ceil(n / |skip|) multiples of `skip` below n. */
  lemma {:induction false} MultiplesCeil(n: nat, skip: int)
    requires skip != 0
    ensures Multiples(n, skip) == CeilDiv(n, Abs(skip))
  {
    var m := Abs(skip);
    if n > 0 {
      var x := n - 1;
      MultiplesCeil(x, skip);
      MultipleOfAbs(x, skip);
      var q, t := x / m, x % m;
      DivModUnique(x + m, m, q + 1, t);
      if t == 0 {
        DivModUnique(x + m - 1, m, q, m - 1);
      } else {
        DivModUnique(x + m - 1, m, q + 1, t - 1);
      }
    }
  }

  /** In a valid log the saved records are exactly the multiples of the frame skip. */
  lemma {:induction false} SavedAreMultiples(frameSkip: int, frames: seq<FrameRecord>)
    requires frameSkip != 0
    requires forall i :: 0 <= i < |frames| ==> RecordValid(frameSkip, i, frames[i])
    ensures SavedCount(frames) == Multiples(|frames|, frameSkip)
    decreases |frames|
  {
    if |frames| > 0 {
      var init := frames[..|frames| - 1];
      assert forall i :: 0 <= i < |init| ==> init[i] == frames[i];
      SavedAreMultiples(frameSkip, init);
      assert RecordValid(frameSkip, |frames| - 1, frames[|frames| - 1]);
    }
  }

  /**
    Of the frames recorded since the last start, ceil(N / |frame_skip|) are
    marked saved, N being the number of records.
  */
  lemma SavedCeil(mode: bool, frameSkip: int, quality: string, events: seq<Event>, rule: PathRule)
    requires frameSkip != 0
    requires Run(Init(mode, frameSkip, quality), events, rule).Some?
    ensures var r := Run(Init(mode, frameSkip, quality), events, rule).value;
      SavedCount(r.frameData) == CeilDiv(|r.frameData|, Abs(frameSkip))
  {
    InitValid(mode, frameSkip, quality);
    RunValid(Init(mode, frameSkip, quality), events, rule);
    RunKeepsSettings(Init(mode, frameSkip, quality), events, rule);
    ValidSavedCeil(Run(Init(mode, frameSkip, quality), events, rule).value);
  }

  lemma ValidSavedCeil(r: RecorderState)
    requires LogValid(r) && r.frameSkip != 0
    ensures SavedCount(r.frameData) == CeilDiv(|r.frameData|, Abs(r.frameSkip))
  {
    SavedAreMultiples(r.frameSkip, r.frameData);
    MultiplesCeil(|r.frameData|, r.frameSkip);
  }

  // ---------------------------------------------------------------------------
  // The manifest and the statistics

  /**
    `save_recording_data` after a valid run: the total is the number of
    records, which are numbered 0, 1, 2, ...; the statistics count every
    record once in each histogram.
  */
  lemma StopWritesManifest(r: RecorderState)
    requires LogValid(r) && r.mode && |r.frameData| > 0
    ensures var r' := StopRecording(r);
      && r'.manifest.Some?
      && r'.manifest.value.totalFrames == |r'.manifest.value.frames|
      && r'.manifest.value.gameVersion == "Mario Level 1"
      && (forall i :: 0 <= i < |r'.manifest.value.frames| ==> r'.manifest.value.frames[i].frameId == i)
      && r'.statistics.Some?
      && Sum(r'.statistics.value.actions) == r'.manifest.value.totalFrames
      && Sum(r'.statistics.value.states) == r'.manifest.value.totalFrames
  {
    forall i | 0 <= i < |r.frameData|
      ensures r.frameData[i].frameId == i
    {
      assert RecordValid(r.frameSkip, i, r.frameData[i]);
    }
  }

  // ---------------------------------------------------------------------------
  // Writing at the path fixed when the save was queued

  /**
    The producer fixes the file path from the worker's counter when it
    queues a save. If two frames are queued before the worker gets to the
    first, both saves go to `frame_000000.png`: the second image overwrites
    the first, while the worker stamps the second record `frame_000001.png`,
    a file that is never written.
  */
  lemma EnqueuePathLosesImage(input: Input)
    ensures var r0 := StartRecording(Init(true, 1, "high"));
      var r1 := RecordFrame(r0, input).value;
      var r2 := RecordFrame(r1, input).value;
      var r3 := WorkStep(r2, true, EnqueuePath);
      var r4 := WorkStep(r3, true, EnqueuePath);
      && r4.frameData[1].file == Named(FrameName(1))
      && FrameName(1) !in r4.images
      && r4.images[FrameName(0)].frameId == 1
  {
    var r0 := StartRecording(Init(true, 1, "high"));
    assert r0.mode && r0.frameSkip == 1 && r0.frameCount == 0 && r0.saveFrameCount == 0;
    assert r0.session == 1 && r0.queue == [] && r0.frameData == [] && r0.workerRunning && r0.images == map[];
    OneTick(r0, input);
    var r1 := RecordFrame(r0, input).value;
    OneTick(r1, input);
    var r2 := RecordFrame(r1, input).value;
    assert r2.queue == [SaveTask(Some(0), FrameName(0), Shot(1, 0, input.screen)),
                        SaveTask(Some(1), FrameName(0), Shot(1, 1, input.screen))];
    TwoSavesOnePath(r2);
  }

  /** With a frame skip of 1 every frame is queued, at the path the counter names. */
  lemma OneTick(r: RecorderState, input: Input)
    requires r.mode && r.frameSkip == 1
    ensures RecordFrame(r, input).Some?
    ensures var r' := RecordFrame(r, input).value;
      && r'.mode && r'.frameSkip == 1
      && r'.queue == r.queue + [SaveTask(Some(|r.frameData|), FrameName(r.saveFrameCount), Shot(r.session, r.frameCount, input.screen))]
      && r'.frameCount == r.frameCount + 1 && |r'.frameData| == |r.frameData| + 1
      && r'.saveFrameCount == r.saveFrameCount && r'.session == r.session
      && r'.workerRunning == r.workerRunning && r'.images == r.images
  {
  }

  /** Two queued saves fixed to the same path, both written, leave one file. */
  lemma TwoSavesOnePath(r: RecorderState)
    requires r.workerRunning && r.saveFrameCount == 0 && |r.frameData| == 2 && |r.queue| == 2
    requires r.queue[0].owner == Some(0) && r.queue[1].owner == Some(1)
    requires r.queue[0].path == FrameName(0) && r.queue[1].path == FrameName(0)
    requires r.queue[1].shot.frameId == 1 && r.images == map[]
    ensures var r' := WorkStep(WorkStep(r, true, EnqueuePath), true, EnqueuePath);
      && r'.frameData[1].file == Named(FrameName(1))
      && FrameName(1) !in r'.images
      && r'.images[FrameName(0)].frameId == 1
  {
    FrameNameInjective(0, 1);
    var r1 := WorkStep(r, true, EnqueuePath);
    assert r1.images.Keys == {FrameName(0)};
    var r2 := WorkStep(r1, true, EnqueuePath);
    assert r2.images.Keys == {FrameName(0)};
  }

  // ---------------------------------------------------------------------------
  // The worker as a FIFO fold

  /** The worker handling as many queued saves as there are outcomes. */
  function Works(r: RecorderState, oks: seq<bool>, rule: PathRule): RecorderState
    decreases |oks|
  {
    if |oks| == 0 then r else Works(WorkStep(r, oks[0], rule), oks[1..], rule)
  }

  /** A record whose save is not among those handled is left alone. */
  lemma {:induction false} WorksLeaveOthers(r: RecorderState, oks: seq<bool>, i: nat, rule: PathRule)
    requires |oks| <= |r.queue| && i < |r.frameData|
    requires forall k :: 0 <= k < |oks| ==> r.queue[k].owner != Some(i)
    ensures |Works(r, oks, rule).frameData| == |r.frameData|
    ensures Works(r, oks, rule).frameData[i] == r.frameData[i]
    decreases |oks|
  {
    if |oks| > 0 {
      var r1 := WorkStep(r, oks[0], rule);
      if r.workerRunning {
        assert forall k :: 0 <= k < |oks| - 1 ==> r1.queue[k] == r.queue[k + 1];
        WorksLeaveOthers(r1, oks[1..], i, rule);
      } else {
        assert r1 == r;
        WorksLeaveOthers(r1, oks[1..], i, rule);
      }
    }
  }

  /** The queued tasks point into a log of n records, in strictly increasing order. */
  predicate Ordered(n: nat, queue: seq<SaveTask>) {
    && (forall k :: 0 <= k < |queue| && queue[k].owner.Some? ==> queue[k].owner.value < n)
    && (forall a, b :: 0 <= a < b < |queue| && queue[a].owner.Some? && queue[b].owner.Some? ==>
          queue[a].owner.value < queue[b].owner.value)
  }

  /** One turn of a running worker on an ordered queue whose head has an owner. */
  lemma StepStamps(r: RecorderState, ok: bool, rule: PathRule)
    requires Ordered(|r.frameData|, r.queue) && r.workerRunning && |r.queue| > 0 && r.queue[0].owner.Some?
    ensures var r1 := WorkStep(r, ok, rule);
            var o := r.queue[0].owner.value;
      && r1.queue == r.queue[1..] && r1.saveFrameCount == StampOne(r.saveFrameCount, ok).1
      && Ordered(|r1.frameData|, r1.queue)
      && o < |r.frameData| && r1.frameData[o].file == StampOne(r.saveFrameCount, ok).0
      && forall k :: 0 < k < |r.queue| && r.queue[k].owner.Some? ==> r.queue[k].owner.value != o
  {
    var r1 := WorkStep(r, ok, rule);
    assert forall k :: 0 <= k < |r1.queue| ==> r1.queue[k] == r.queue[k + 1];
  }

  /**
    A running worker that handles the first saves of the queue, each queued
    for a record of the log, stamps those records exactly as the sequential
    fold `Stamp` does from the current counter: the k-th record is named
    after the counter plus the successes before it, or gets `None`.
  */
  lemma {:induction false} WorksStamp(r: RecorderState, oks: seq<bool>, rule: PathRule)
    requires Ordered(|r.frameData|, r.queue) && r.workerRunning && |oks| <= |r.queue|
    requires forall k :: 0 <= k < |oks| ==> r.queue[k].owner.Some?
    ensures |Works(r, oks, rule).frameData| == |r.frameData|
    ensures Works(r, oks, rule).saveFrameCount == Counter(r.saveFrameCount, oks)
    ensures forall k :: 0 <= k < |oks| ==>
      r.queue[k].owner.value < |r.frameData|
      && Works(r, oks, rule).frameData[r.queue[k].owner.value].file == Stamp(r.saveFrameCount, oks)[k]
    decreases |oks|
  {
    if |oks| > 0 {
      var r1 := WorkStep(r, oks[0], rule);
      var o := r.queue[0].owner.value;
      var rest := oks[1..];
      StepStamps(r, oks[0], rule);
      WorksStamp(r1, rest, rule);
      StampHead(r.saveFrameCount, oks);
      assert Works(r, oks, rule) == Works(r1, rest, rule);
      WorksLeaveOthers(r1, rest, o, rule);
      forall k | 0 <= k < |oks|
        ensures r.queue[k].owner.value < |r.frameData|
        ensures Works(r, oks, rule).frameData[r.queue[k].owner.value].file == Stamp(r.saveFrameCount, oks)[k]
      {
        if k > 0 {
          assert r.queue[k] == r1.queue[k - 1];
          StampShift(r.saveFrameCount, oks, k);
        }
      }
    }
  }
}
