/**
  The rename tool's entry point as a function from the state of the
  recording directory to an exit status and a new state: the load tiers
  (strict decode, line repair on a decode error, structural scan when the
  result is empty), the checks on the frame log, the confirmation, the
  rename pass, and the manifest rewrite gated on its success.
  Decoding, encoding and operating-system refusals are oracles.
*/
module RenameTool {
  import opened Wrappers
  import opened Text
  import opened Json
  import opened LineRepair
  import opened FrameScan
  import opened Rename

  /**
    The recording directory: whether it exists, the manifest's text (None
    when the file is missing), the backup's text, and the names in the
    frames directory (None when it is missing).
  */
  datatype Disk = Disk(recordingDir: bool, manifest: Option<string>, backup: Option<string>, frames: Option<set<string>>)

  /** `sys.exit(code)`, or an exception escaping `main`. */
  datatype Status = Exited(code: int) | Crashed

  datatype Outcome = Outcome(status: Status, disk: Disk)

  /**
    The manifest the rewrite starts from: the file read again, as the tool
    does, or the data already loaded.
  */
  datatype RewriteSource = Reread | Loaded

  /**
    The strict loader: the decoded manifest, or, on a decode error, the
    original text backed up, the repaired text written over the manifest,
    and that decoded instead.
  */
  function LoadStrict(disk: Disk, parse: string -> Option<Value>): (out: (Option<Value>, Disk))
    ensures disk.manifest.None? ==> out == (None, disk)
    ensures disk.manifest.Some? && parse(disk.manifest.value).Some? ==> out == (parse(disk.manifest.value), disk)
    ensures disk.manifest.Some? && parse(disk.manifest.value).None? ==>
      var fixed := RepairText(disk.manifest.value);
      out == (parse(fixed), disk.(backup := disk.manifest, manifest := Some(fixed)))
  {
    match disk.manifest
    case None => (None, disk)
    case Some(content) =>
      match parse(content)
      case Some(v) => (Some(v), disk)
      case None =>
        var fixed := RepairText(content);
        (parse(fixed), disk.(backup := Some(content), manifest := Some(fixed)))
  }

  /** The tiers: the structural scan runs on the current file when the strict loader's result is empty. */
  function Load(disk: Disk, parse: string -> Option<Value>): (out: (Option<Value>, Disk))
  {
    var (data, disk1) := LoadStrict(disk, parse);
    if data.Some? && Truthy(data.value) then (data, disk1)
    else if disk1.manifest.None? then (None, disk1)
    else (LoadSimple(disk1.manifest.value, parse), disk1)
  }

  /**
    The load tiers: a result is never empty; the backup is written, with
    the original text, and the manifest replaced by its repair exactly when
    the file exists and does not decode; the structural scan supplies the
    result exactly when the strict tiers gave nothing or an empty value;
    and the frames directory is not touched.
  */
  lemma LoadTiers(disk: Disk, parse: string -> Option<Value>)
    ensures var (data, disk') := Load(disk, parse);
      && (data.Some? ==> Truthy(data.value))
      && disk'.recordingDir == disk.recordingDir && disk'.frames == disk.frames
      && (if disk.manifest.Some? && parse(disk.manifest.value).None?
          then disk'.backup == disk.manifest && disk'.manifest == Some(RepairText(disk.manifest.value))
          else disk'.backup == disk.backup && disk'.manifest == disk.manifest)
      && var strict := LoadStrict(disk, parse).0;
      && (strict.Some? && Truthy(strict.value) ==> data == strict)
      && (!(strict.Some? && Truthy(strict.value)) ==>
            data == if disk'.manifest.None? then None else LoadSimple(disk'.manifest.value, parse))
  {
  }

  /** The sample lines print `frame_id`, `action_code` and `mario_dead` of the first three records. */
  predicate SamplesReadable(items: seq<Value>) {
    forall i :: 0 <= i < |items| && i < 3 ==> HasKeys(items[i])
  }

  /** `input(...).strip().lower() == 'y'`: only `Y` lowercases to `y`. */
  predicate Confirmed(answer: string) {
    Strip(answer) == "y" || Strip(answer) == "Y"
  }

  /** How far `main` gets before asking: stopped with an outcome, or ready with the data and its frame log. */
  datatype Stage = Stopped(outcome: Outcome) | Ready(data: Value, items: seq<Value>, disk: Disk)

  /**
    `main` up to the confirmation prompt. A loaded value that is not a
    dict fails at `data.get`; a non-empty `frame_data` that is not a list
    fails at `len` or at the sample lookups; a sample record without the
    three keys fails at its lookup. Each of these escapes `main`.
  */
  function Prepare(disk: Disk, parse: string -> Option<Value>): (st: Stage)
    ensures !disk.recordingDir ==> st == Stopped(Outcome(Exited(1), disk))
    ensures disk.recordingDir && st.Stopped? ==> st.outcome.disk == Load(disk, parse).1
    ensures disk.recordingDir && Load(disk, parse).0.None? ==> st == Stopped(Outcome(Exited(1), Load(disk, parse).1))
    ensures st.Ready? ==>
      && Load(disk, parse).0 == Some(st.data) && st.disk == Load(disk, parse).1
      && st.data.Obj? && Get(st.data.fields, "frame_data") == Some(Arr(st.items))
      && |st.items| > 0 && SamplesReadable(st.items)
    ensures disk.recordingDir && Load(disk, parse).0.Some? && Load(disk, parse).0.value.Obj? ==>
      var fd := Get(Load(disk, parse).0.value.fields, "frame_data");
      (fd.None? || !Truthy(fd.value)) ==> st == Stopped(Outcome(Exited(1), Load(disk, parse).1))
    ensures disk.recordingDir && Load(disk, parse).0.Some? && Load(disk, parse).0.value.Obj? ==>
      var v := Load(disk, parse).0.value;
      forall items :: Get(v.fields, "frame_data") == Some(Arr(items)) && |items| > 0 && SamplesReadable(items) ==>
        st == Ready(v, items, Load(disk, parse).1)
    ensures disk.recordingDir && Load(disk, parse).0.Some? && !Load(disk, parse).0.value.Obj? ==>
      st == Stopped(Outcome(Crashed, Load(disk, parse).1))
    ensures disk.recordingDir && Load(disk, parse).0.Some? && Load(disk, parse).0.value.Obj? ==>
      var fd := Get(Load(disk, parse).0.value.fields, "frame_data");
      fd.Some? && Truthy(fd.value) && (!fd.value.Arr? || !SamplesReadable(fd.value.items)) ==>
        st == Stopped(Outcome(Crashed, Load(disk, parse).1))
  {
    if !disk.recordingDir then Stopped(Outcome(Exited(1), disk))
    else Gate(Load(disk, parse).0, Load(disk, parse).1)
  }

  /** The checks on what the load gave, with the disk as the load left it. */
  function Gate(data: Option<Value>, disk: Disk): (st: Stage)
    ensures st.Stopped? ==> st.outcome.disk == disk
    ensures data.None? ==> st == Stopped(Outcome(Exited(1), disk))
    ensures data.Some? && !data.value.Obj? ==> st == Stopped(Outcome(Crashed, disk))
    ensures data.Some? && data.value.Obj? ==>
      var fd := Get(data.value.fields, "frame_data");
      && ((fd.None? || !Truthy(fd.value)) ==> st == Stopped(Outcome(Exited(1), disk)))
      && (fd.Some? && Truthy(fd.value) && (!fd.value.Arr? || !SamplesReadable(fd.value.items)) ==>
            st == Stopped(Outcome(Crashed, disk)))
      && forall items :: fd == Some(Arr(items)) && |items| > 0 && SamplesReadable(items) ==>
           st == Ready(data.value, items, disk)
    ensures st.Ready? ==>
      && data == Some(st.data) && st.disk == disk
      && st.data.Obj? && Get(st.data.fields, "frame_data") == Some(Arr(st.items))
      && |st.items| > 0 && SamplesReadable(st.items)
  {
    match data
    case None => Stopped(Outcome(Exited(1), disk))
    case Some(v) =>
      if !v.Obj? then Stopped(Outcome(Crashed, disk))
      else
        var fd := match Get(v.fields, "frame_data") case Some(x) => x case None => Arr([]);
        if !Truthy(fd) then Stopped(Outcome(Exited(1), disk))
        else if !fd.Arr? then Stopped(Outcome(Crashed, disk))
        else if !SamplesReadable(fd.items) then Stopped(Outcome(Crashed, disk))
        else Ready(v, fd.items, disk)
  }

  /**
    The rewrite after a successful rename, from the chosen source. As
    written it reads the manifest file again, writes the update when the
    file decodes and the update applies, and exits 0 either way; from the
    loaded data it writes the update, or exits 1 when it does not apply.
  */
  function Rewrite(data: Value, items: seq<Value>, disk: Disk, user: string,
                   parse: string -> Option<Value>, dump: Value -> string, source: RewriteSource): (o: Outcome)
    ensures o.disk == disk.(manifest := o.disk.manifest)
    ensures o.disk.manifest != disk.manifest ==> o.status == Exited(0)
    ensures source == Reread ==> o.status == Exited(0)
    ensures source == Reread && disk.manifest.Some? && parse(disk.manifest.value).Some?
            && UpdateJsonData(parse(disk.manifest.value).value, items, user).Some? ==>
      o.disk.manifest == Some(dump(UpdateJsonData(parse(disk.manifest.value).value, items, user).value))
    ensures source == Reread && !(disk.manifest.Some? && parse(disk.manifest.value).Some?
            && UpdateJsonData(parse(disk.manifest.value).value, items, user).Some?) ==>
      o.disk == disk
    ensures source == Loaded && UpdateJsonData(data, items, user).Some? ==>
      o == Outcome(Exited(0), disk.(manifest := Some(dump(UpdateJsonData(data, items, user).value))))
    ensures source == Loaded && UpdateJsonData(data, items, user).None? ==> o == Outcome(Exited(1), disk)
  {
    match source
    case Reread =>
      var base := if disk.manifest.Some? then parse(disk.manifest.value) else None;
      var updated := if base.Some? then UpdateJsonData(base.value, items, user) else None;
      if updated.Some? then Outcome(Exited(0), disk.(manifest := Some(dump(updated.value))))
      else Outcome(Exited(0), disk)
    case Loaded =>
      match UpdateJsonData(data, items, user)
      case Some(v) => Outcome(Exited(0), disk.(manifest := Some(dump(v))))
      case None => Outcome(Exited(1), disk)
  }

  /** `main` from the confirmation prompt on. */
  function Finish(data: Value, items: seq<Value>, disk: Disk, user: string, answer: string,
                  parse: string -> Option<Value>, dump: Value -> string,
                  fault: (string, string) -> Option<string>, source: RewriteSource): Outcome
  {
    if !Confirmed(answer) then Outcome(Exited(0), disk)
    else
      match RenameFrames(user, items, disk.frames, fault)
      case Raised(dir) => Outcome(Crashed, disk.(frames := Some(dir)))
      case Returned(success, _, frames) =>
        var disk2 := disk.(frames := frames);
        if !success then Outcome(Exited(1), disk2)
        else Rewrite(data, items, disk2, user, parse, dump, source)
  }

  function Main(disk: Disk, user: string, answer: string, parse: string -> Option<Value>,
                dump: Value -> string, fault: (string, string) -> Option<string>, source: RewriteSource): Outcome
  {
    match Prepare(disk, parse)
    case Stopped(o) => o
    case Ready(data, items, disk1) => Finish(data, items, disk1, user, answer, parse, dump, fault, source)
  }

  /**
    The gates after the prompt, whichever source the rewrite uses: a
    declined prompt exits 0 and touches nothing; the manifest is rewritten
    only after a rename pass that reported success; a pass that raised or
    reported failure leaves the manifest alone and does not exit 0; and the
    frames directory ends as the pass left it.
  */
  lemma FinishGates(data: Value, items: seq<Value>, disk: Disk, user: string, answer: string,
                    parse: string -> Option<Value>, dump: Value -> string,
                    fault: (string, string) -> Option<string>, source: RewriteSource)
    ensures var o := Finish(data, items, disk, user, answer, parse, dump, fault, source);
      && (!Confirmed(answer) ==> o == Outcome(Exited(0), disk))
      && (Confirmed(answer) ==>
            var run := RenameFrames(user, items, disk.frames, fault);
            && (o.disk.manifest != disk.manifest ==> run.Returned? && run.success)
            && (!(run.Returned? && run.success) ==> o.status != Exited(0) && o.disk.manifest == disk.manifest)
            && o.disk.frames == (if run.Raised? then Some(run.dir) else run.frames))
      && o.disk.backup == disk.backup && o.disk.recordingDir == disk.recordingDir
  {
    var o := Finish(data, items, disk, user, answer, parse, dump, fault, source);
    if Confirmed(answer) {
      var run := RenameFrames(user, items, disk.frames, fault);
      if run.Raised? {
        assert o == Outcome(Crashed, disk.(frames := Some(run.dir)));
      } else if !run.success {
        assert o == Outcome(Exited(1), disk.(frames := run.frames));
      } else {
        assert o == Rewrite(data, items, disk.(frames := run.frames), user, parse, dump, source);
      }
    }
  }

  /**
    Before the prompt nothing but the repair touches the disk: a missing
    directory, a load that found nothing, or an empty frame log exits 1,
    and in every stopped case the frames directory is as it was.
  */
  lemma PrepareGates(disk: Disk, parse: string -> Option<Value>)
    ensures Prepare(disk, parse).Stopped? ==>
      var o := Prepare(disk, parse).outcome;
      && o.disk.frames == disk.frames
      && (o.status == Crashed || o.status == Exited(1))
    ensures Prepare(disk, parse).Ready? ==> Prepare(disk, parse).disk.frames == disk.frames
  {
    LoadTiers(disk, parse);
  }

  /**
    As written, a salvage leaves the manifest stale. When neither the file
    nor its repair decodes, the frame log can only come from the structural
    scan; the rewrite then reads the repaired file again, which does not
    decode, so whatever the run does the manifest keeps the repaired text
    with the old image names.
  */
  lemma SalvageLeavesStaleManifest(disk: Disk, user: string, answer: string, parse: string -> Option<Value>,
                                   dump: Value -> string, fault: (string, string) -> Option<string>)
    requires disk.recordingDir && disk.manifest.Some?
    requires parse(disk.manifest.value).None? && parse(RepairText(disk.manifest.value)).None?
    ensures Main(disk, user, answer, parse, dump, fault, Reread).disk.manifest == Some(RepairText(disk.manifest.value))
  {
    var fixed := RepairText(disk.manifest.value);
    SalvageLoad(disk, parse);
    var st := Prepare(disk, parse);
    if st.Ready? {
      assert st.disk.manifest == Some(fixed);
      FinishGates(st.data, st.items, st.disk, user, answer, parse, dump, fault, Reread);
      if Confirmed(answer) {
        var run := RenameFrames(user, st.items, st.disk.frames, fault);
        if run.Returned? && run.success {
          assert Finish(st.data, st.items, st.disk, user, answer, parse, dump, fault, Reread)
              == Rewrite(st.data, st.items, st.disk.(frames := run.frames), user, parse, dump, Reread);
        }
      }
    }
  }

  /**
    And it still reports success: when the salvaged frame log passes the
    checks and a confirmed rename pass succeeds, the images have moved and
    the tool exits 0.
  */
  lemma SalvageStillSucceeds(disk: Disk, user: string, answer: string, parse: string -> Option<Value>,
                             dump: Value -> string, fault: (string, string) -> Option<string>)
    requires disk.recordingDir && disk.manifest.Some?
    requires parse(disk.manifest.value).None? && parse(RepairText(disk.manifest.value)).None?
    ensures var st := Prepare(disk, parse);
            var o := Main(disk, user, answer, parse, dump, fault, Reread);
      st.Ready? && Confirmed(answer) && RenameFrames(user, st.items, st.disk.frames, fault).Returned?
        && RenameFrames(user, st.items, st.disk.frames, fault).success ==>
      && st.data == LoadSimple(RepairText(disk.manifest.value), parse).value
      && o.status == Exited(0)
      && o.disk.frames == RenameFrames(user, st.items, st.disk.frames, fault).frames
  {
    var fixed := RepairText(disk.manifest.value);
    var disk1 := disk.(backup := disk.manifest, manifest := Some(fixed));
    SalvageLoad(disk, parse);
    var st := Prepare(disk, parse);
    if st.Ready? && Confirmed(answer) {
      assert st.disk == disk1;
      var run := RenameFrames(user, st.items, disk1.frames, fault);
      if run.Returned? && run.success {
        var disk2 := disk1.(frames := run.frames);
        MainAfterPrepare(disk, user, answer, parse, dump, fault, Reread);
        FinishAfterSuccess(st.data, st.items, disk1, user, answer, parse, dump, fault, Reread);
        assert Rewrite(st.data, st.items, disk2, user, parse, dump, Reread) == Outcome(Exited(0), disk2);
      }
    }
  }

  /** Once the checks pass, `main` goes on from the prompt with what they found. */
  lemma MainAfterPrepare(disk: Disk, user: string, answer: string, parse: string -> Option<Value>,
                         dump: Value -> string, fault: (string, string) -> Option<string>, source: RewriteSource)
    requires Prepare(disk, parse).Ready?
    ensures var st := Prepare(disk, parse);
      Main(disk, user, answer, parse, dump, fault, source)
        == Finish(st.data, st.items, st.disk, user, answer, parse, dump, fault, source)
  {
  }

  /** After a confirmed, successful rename pass, what remains is the rewrite. */
  lemma FinishAfterSuccess(data: Value, items: seq<Value>, disk: Disk, user: string, answer: string,
                           parse: string -> Option<Value>, dump: Value -> string,
                           fault: (string, string) -> Option<string>, source: RewriteSource)
    requires Confirmed(answer)
    requires RenameFrames(user, items, disk.frames, fault).Returned? && RenameFrames(user, items, disk.frames, fault).success
    ensures Finish(data, items, disk, user, answer, parse, dump, fault, source)
         == Rewrite(data, items, disk.(frames := RenameFrames(user, items, disk.frames, fault).frames), user, parse, dump, source)
  {
  }

  /** When neither the file nor its repair decodes, the load is the structural scan of the repaired file. */
  lemma SalvageLoad(disk: Disk, parse: string -> Option<Value>)
    requires disk.manifest.Some?
    requires parse(disk.manifest.value).None? && parse(RepairText(disk.manifest.value)).None?
    ensures Load(disk, parse) == (LoadSimple(RepairText(disk.manifest.value), parse),
                                  disk.(backup := disk.manifest, manifest := Some(RepairText(disk.manifest.value))))
  {
  }

  /**
    With the rewrite built from the loaded data, a confirmed run that exits
    0 has rewritten the manifest: its new text encodes a manifest in which
    every record whose image was moved carries the move's target.
  */
  lemma LoadedRewriteRecordsMoves(disk: Disk, user: string, answer: string, parse: string -> Option<Value>,
                                  dump: Value -> string, fault: (string, string) -> Option<string>)
    requires Prepare(disk, parse).Ready? && Confirmed(answer)
    requires Main(disk, user, answer, parse, dump, fault, Loaded).status == Exited(0)
    ensures var st := Prepare(disk, parse);
            var out := UpdateJsonData(st.data, st.items, user);
      && out.Some? && Main(disk, user, answer, parse, dump, fault, Loaded).disk.manifest == Some(dump(out.value))
      && out.value.Obj? && Get(out.value.fields, "frame_data").Some? && Get(out.value.fields, "frame_data").value.Arr?
      && var items' := Get(out.value.fields, "frame_data").value.items;
      && |st.items| <= |items'|
      && forall j :: 0 <= j < |st.items| && PlanOf(user, st.items[j]).Move? ==>
           items'[j].Obj? && Get(items'[j].fields, FrameFilename) == Some(Str(PlanOf(user, st.items[j]).target))
  {
    var st := Prepare(disk, parse);
    var v := UpdateJsonData(st.data, st.items, user);
    var run := RenameFrames(user, st.items, st.disk.frames, fault);
    assert Main(disk, user, answer, parse, dump, fault, Loaded)
        == Finish(st.data, st.items, st.disk, user, answer, parse, dump, fault, Loaded);
    FinishGates(st.data, st.items, st.disk, user, answer, parse, dump, fault, Loaded);
    assert Finish(st.data, st.items, st.disk, user, answer, parse, dump, fault, Loaded)
        == Rewrite(st.data, st.items, st.disk.(frames := run.frames), user, parse, dump, Loaded);
    RewriteMatchesRename(st.data, st.items, user);
    assert Main(disk, user, answer, parse, dump, fault, Loaded).disk.manifest == Some(dump(v.value));
  }

  /**
    For a manifest that decodes, the tool as written rewrites exactly what
    the corrected tool does: the file read again is the data already
    loaded, so the two runs end with the same disk. They differ only when
    the update does not apply, where the tool as written still exits 0.
  */
  lemma RereadMatchesLoaded(disk: Disk, user: string, answer: string, parse: string -> Option<Value>,
                            dump: Value -> string, fault: (string, string) -> Option<string>)
    requires disk.manifest.Some? && parse(disk.manifest.value).Some? && Truthy(parse(disk.manifest.value).value)
    ensures var a := Main(disk, user, answer, parse, dump, fault, Reread);
            var b := Main(disk, user, answer, parse, dump, fault, Loaded);
      && a.disk == b.disk
      && (b.status == Exited(0) ==> a == b)
      && (a.status != b.status ==> a.status == Exited(0) && b.status == Exited(1))
  {
    var st := Prepare(disk, parse);
    if st.Ready? {
      assert st.disk == disk && st.data == parse(disk.manifest.value).value;
      if Confirmed(answer) {
        var run := RenameFrames(user, st.items, st.disk.frames, fault);
        if run.Returned? && run.success {
          FinishAfterSuccess(st.data, st.items, st.disk, user, answer, parse, dump, fault, Reread);
          FinishAfterSuccess(st.data, st.items, st.disk, user, answer, parse, dump, fault, Loaded);
        }
      }
    }
  }
}
