# Mario gameplay recorder and frame-rename tool, in Dafny

This project models the two halves of a gameplay-recording pipeline for a
Mario clone.

**The recorder** (`data/recorder.py`) logs one record per game frame. Each
record holds:
- the frame number;
- the pressed keys, packed into a 5-bit action code, with its binary text and label list;
- Mario's state and whether he is dead;
- whether the frame's screen is saved.

Every `frame_skip`-th frame has its screen queued for a background save
worker. The worker writes the image and stamps the record with the name
`frame_NNNNNN.png`, or with `None` when the write fails. Stopping the
recording writes:
- a JSON manifest, holding `recording_info` and the `frame_data` log;
- a statistics file, with per-action and per-state histograms and a table
  describing the action codes.

**The rename tool** (`rename_recording.py`) runs these steps in order:
1. It loads a recording's manifest in tiers:
   - a strict JSON decode;
   - on a decode error, a line-based repair of a truncated file, which backs
     up the original and writes the repair over it;
   - when that gives nothing, a structural scan that salvages every balanced
     `{...}` chunk after `"frame_data": [`.
2. It checks the frame log and prints three sample records.
3. It asks for confirmation.
4. It renames every saved image to `{user}_f{frame_id}_a{action_code}_nt{0|1}.png`.
5. Only if every rename succeeded, it rewrites the manifest's file names and
   adds the user to `recording_info`.

The model is written in terms of pure functions over immutable states:

| module | models |
|---|---|
| `Wrappers` | `Option` |
| `Text` | `str(int)`, `f"{n:06d}"`, `bin()`, `split`/`join`, `strip`, `find`, `count` |
| `ActionCodec` | `encode_action`, `decode_action`, and the `action_descriptions` table |
| `Tally` | the dictionary counting loop of `save_action_statistics` |
| `SaveWorker` | the worker's sequential stamping of file names |
| `Recorder` | the recorder as a state machine over start, tick, worker-step and stop events, under either image-path rule; the log bookkeeping it keeps under both rules, and the image clause it keeps only under the corrected write rule |
| `Indices` | lists of positions into a sequence |
| `Json` | decoded JSON values and the Python operations the tool applies to them, and the `frame_filename` key |
| `LineRepair` | `try_fix_json` |
| `FrameScan` | `load_recording_data_simple` |
| `Rename` | `rename_frames` and `update_json_data` |
| `RenameTool` | the load tiers and `main`, over an abstract recording directory |

Some things become parameters:
- JSON decoding (`parse`) and encoding (`dump`);
- the operating system's refusal of a rename (`fault`);
- the worker's write outcome (`ok` / `oks`);
- the user's answer at the prompt.

The worker's image path is a parameter too, `PathRule`, with two values:
- `EnqueuePath` writes the image at the path fixed when the frame was queued, as the source does.
- `StampedPath` writes it under the name its record is stamped with. This is the corrected write rule (see "## Findings").

The log bookkeeping holds under both rules. Only the clause tying each stamped name to its picture needs the corrected rule.

## Model

| member | source | states |
|---|---|---|
| ActionCodec.Encode | data/recorder.py:145-169 | the code is below 32; bit 0 is LEFT, bit 1 is RIGHT only when LEFT is not held, bits 2-4 are JUMP, ACTION, DOWN; bits 0 and 1 are never both set |
| ActionCodec.MaskBits | data/recorder.py:149-169 | the OR of the five flag values has exactly the bits of the held keys, with LEFT excluding RIGHT |
| ActionCodec.Decode | data/recorder.py:187-205 | LEFT is listed iff bit 0 is set, RIGHT iff bit 1 is set and bit 0 is clear, JUMP/ACTION/DOWN iff bits 2-4; the list is ["NONE"] exactly when none of the five bits is set; labels come in the fixed order |
| ActionCodec.Labels | data/recorder.py:187-205 | the labels a key state stands for: each label iff its key is held (RIGHT only without LEFT), NONE alone when nothing is held, in the fixed order |
| ActionCodec.RoundTrip | data/recorder.py:145-205 | decoding an encoded key state gives exactly the labels of that key state |
| ActionCodec.DecodeThenEncode | data/recorder.py:145-205 | every code below 32 without both direction bits is re-encoded from its decoded labels to itself |
| ActionCodec.EncodeFlags | data/recorder.py:145-169 | encoding the flags read off such a code gives the code back |
| ActionCodec.DecodeKeys | data/recorder.py:187-205 | the key state read back from decoded labels is the code's own flags |
| ActionCodec.DecodeIgnoresHighBits | data/recorder.py:187-205 | decoding looks only at the low five bits |
| ActionCodec.FilterRanked | data/recorder.py:189-205 | keeping the held labels of an ordered list keeps the order |
| ActionCodec.EncodeLookup | data/recorder.py:152-167 | on a dict of keys, an absent key looked up raises KeyError naming that key |
| ActionCodec.EncodeLookupTotal | data/recorder.py:145-169 | on a key table with every binding present, the dict lookup computes exactly Encode |
| ActionCodec.DescriptionsAsWrittenRaise | data/recorder.py:246-253 | building the description table as written raises KeyError for the jump key on its first entry |
| ActionCodec.LabelsOfOne | data/recorder.py:187-205 | a key state with one key held decodes to that key's label alone, and with none held to NONE |
| ActionCodec.DescribedCode | data/recorder.py:246-252 | the single-key states encode to 1, 2, 4, 8, 16, and no key to 0 |
| ActionCodec.DescriptionKeys | data/recorder.py:246-253 | each key of the corrected table is `str` of the code of the key state it describes |
| ActionCodec.DescriptionLabels | data/recorder.py:246-253 | each code of the corrected table decodes back to that entry's label alone |
| Text.IntTextRoundTrip | data/recorder.py:233 | `str(i)` of any integer parses back to i |
| Text.IntTextInjective | data/recorder.py:233 | different action codes give different histogram keys |
| Text.FrameName | data/recorder.py:87 | a frame name is `frame_`, at least six digits, `.png` |
| Text.FrameNameRoundTrip | data/recorder.py:87 | the counter can be read back out of `frame_{n:06d}.png` |
| Text.FrameNameInjective | data/recorder.py:87-88 | different counter values give different frame names |
| Text.BinaryRoundTrip | data/recorder.py:117 | `bin(n)` parses back to n |
| Text.JoinSplit | rename_recording.py:41-70 | joining the lines of a text with `\n` gives the text back |
| Text.SplitJoin | rename_recording.py:41-70 | splitting a join of separator-free lines gives the lines back |
| Text.Strip | rename_recording.py:131-133 | the result is a slice of the input with only whitespace cut from either end, and starts and ends with a non-space |
| Text.Find | rename_recording.py:113-116 | the position of the first occurrence, or None exactly when there is none |
| Tally.Bump | data/recorder.py:234-236 | one increment raises that key's count by one, adds the key if new, and leaves every other count alone |
| Tally.TallyOf | data/recorder.py:229-241 | the histogram has distinct keys, exactly the values seen, each counted as often as it occurs, and its counts sum to the number of frames |
| SaveWorker.Stamp | data/recorder.py:68-99 | the k-th handled save gets `frame_{c:06d}.png`, where c is the start counter plus the successes before it, or None when its write fails |
| SaveWorker.Counter | data/recorder.py:88 | the counter ends at its start plus the number of successful writes |
| SaveWorker.StampedNamesConsecutive | data/recorder.py:87-88 | the names handed out are the consecutive frame names from the start counter, one per success |
| SaveWorker.DenseAndDistinct | data/recorder.py:87-88 | from a fresh counter the names are `frame_000000.png` onward with no gaps, and no two are equal |
| Recorder.ScaledSize | data/recorder.py:171-185 | low quality halves each side and rounds down, high keeps the size, anything else takes three quarters rounded down |
| Recorder.StartRecording | data/recorder.py:39-53 | outside recording mode nothing changes; otherwise the log and both counters are reset, a worker runs, a new session begins, the queue is kept with every task detached from the log, and the images, settings, manifest and statistics are unchanged |
| Recorder.Detach | data/recorder.py:39-53 | after a restart every task still queued keeps its path and picture but no longer refers to a record of the new log |
| Recorder.RecordFrame | data/recorder.py:101-143 | outside recording mode nothing changes; a frame skip of 0 raises; otherwise exactly one record is appended, with the old frame count as id, the encoded keys, the given Mario state and death flag, and `frame_saved` iff the count is a multiple of the skip; a saved frame is queued with a `frame_{count:06d}.png` path and its file left unset, an unsaved one gets None; the earlier records, the counter, the images, the settings, the manifest and the statistics are unchanged |
| Recorder.TickActionFields | data/recorder.py:107-118 | the new record's `action_names` are the labels of the pressed keys and its `action_binary` parses back to its code |
| Recorder.WorkStep | data/recorder.py:68-99 | one worker turn takes the head of the queue; on success it writes the scaled picture at the rule's path and advances the counter, on failure it leaves both; the owning record gets `frame_{counter:06d}.png` on success and None on failure, and no other record, setting, manifest or statistic changes |
| Recorder.WorksStamp | data/recorder.py:68-99 | under either image-path rule, a run of worker turns stamps the queued records exactly as the sequential stamping does and leaves the counter at its start plus the successes |
| Recorder.ActionStatistics | data/recorder.py:227-254 | the action and state histograms have distinct keys, exactly the `str(action_code)` and state values that occur, counted with multiplicity, each summing to the number of frames |
| Recorder.KeysOccur | data/recorder.py:232-241 | a histogram key occurs iff some frame has that value |
| Recorder.StopRecording | data/recorder.py:55-66 | with recording mode on and a non-empty log, the worker is stopped, the manifest of the frame count, game version and log is written, and the statistics are those of the log; the log, queue, images, counters and settings are unchanged; otherwise nothing happens |
| Recorder.StopWritesManifest | data/recorder.py:207-225 | from any state with the log bookkeeping, under either image-path rule, the written manifest's `total_frames` is the number of records, its game version is "Mario Level 1", its records are numbered 0, 1, 2, … and both histograms sum to the frame total |
| Recorder.StartValid | data/recorder.py:39-53 | starting keeps the log bookkeeping, and the image clause with it |
| Recorder.TickValid | data/recorder.py:101-143 | recording a frame keeps the log bookkeeping, and the image clause with it |
| Recorder.WorkValid | data/recorder.py:68-99 | a worker turn keeps the log bookkeeping under either image-path rule, and the image clause under the corrected write rule |
| Recorder.StopValid | data/recorder.py:55-66 | stopping keeps the log bookkeeping, and the image clause with it |
| Recorder.RunValid | data/recorder.py:39-143 | any sequence of events keeps the log bookkeeping under either image-path rule, and the image clause under the corrected write rule |
| Recorder.ReachableBookkeeping | data/recorder.py:101-143 | in every reachable state, under either image-path rule, records are numbered by position, `frame_saved` follows the skip, unsaved records have None, a record is pending iff a queued task refers to it, and no two records share a file name; under the corrected write rule a stamped record's image file also holds that very frame |
| Recorder.RunKeepsSettings | data/recorder.py:15-21 | under either image-path rule, mode, frame skip and quality never change |
| Recorder.RuleOnlyImages | data/recorder.py:77-88 | the image-path rule changes only which files hold which pictures: from states equal but for their images, the same events raise under both rules or neither and end in states equal but for their images |
| Recorder.SavedCeil | data/recorder.py:110 | under either image-path rule, after n recorded frames exactly ⌈n / abs(frame_skip)⌉ are marked saved |
| Recorder.ValidSavedCeil | data/recorder.py:110 | the same count holds in any state with the log bookkeeping, whatever its images |
| Recorder.EnqueuePathLosesImage | data/recorder.py:82-127 | with the path fixed at enqueue time, two frames queued before the worker runs are both written to `frame_000000.png`: the second record is named `frame_000001.png`, which does not exist, and the first name holds the second frame's picture |
| Recorder.TwoSavesOnePath | data/recorder.py:77-88 | two tasks that carry the same path and both succeed leave the second record's name without a file |
| Json.PyStr | rename_recording.py:250 | a string interpolates as itself and an int as text that parses back to it |
| Json.Get | rename_recording.py:253 | `dict.get` finds a value exactly when the key is present, and the pair is in the dict |
| Json.Put | rename_recording.py:254-260 | item assignment stores the value under the key, keeps every other key's value, and grows the dict only for a new key |
| LineRepair.Braces | rename_recording.py:65-67 | one `}` line per unit of positive count, none otherwise |
| LineRepair.RepairCuts | rename_recording.py:41-62 | when the copy stops at the first line where the key has been seen and the count is negative, the result is the lines up to and including it, then `    ]` and `}` |
| LineRepair.RepairUncut | rename_recording.py:41-67 | when no line lets the copy stop, the result is every line followed by one `}` per unit of positive final count |
| LineRepair.RepairKeepsBalancedText | rename_recording.py:41-70 | a text whose lines never let the copy stop and that leaves no brace open is written back unchanged |
| FrameScan.Cuts | rename_recording.py:121-145 | the chunk ends are exactly the `}` positions where the running depth since the start returns to 0, in increasing order |
| FrameScan.Keep | rename_recording.py:131-143 | an undecodable chunk is dropped; a dict is kept and gains `frame_filename: None` only when it lacks the key, with every other key unchanged; a list is kept unchanged iff it holds the string `frame_filename`, a string iff it contains it; anything else is dropped |
| FrameScan.KeepAll | rename_recording.py:124-145 | at most one record per chunk, every kept dict has `frame_filename`, and when every chunk decodes to a dict none is lost |
| FrameScan.KeepAllInOrder | rename_recording.py:124-145 | the kept records are, in order, the records of an increasing list of chunk positions, which holds every chunk that yields a record: a chunk that fails is skipped and the others are kept in their order |
| FrameScan.FramesStart | rename_recording.py:110-118 | scanning starts right after the first `"frame_data": [`, and there is a start iff the marker occurs |
| FrameScan.SyntheticFields | rename_recording.py:154-162 | the synthetic manifest carries the salvaged records, their number as `total_frames`, and the game version |
| FrameScan.LoadSimple | rename_recording.py:94-164 | no marker, or no salvaged record, gives None; otherwise a manifest whose `frame_data` is the salvaged records and whose `total_frames` is their number |
| Rename.PlanOf | rename_recording.py:186-205 | a record without the three keys, or whose file name is neither None nor a string, raises; a missing or None file name is skipped; otherwise the image moves from its name to `{user}_f{id}_a{code}_nt{0 if dead else 1}.png` |
| Rename.Apply | rename_recording.py:204-224 | a move of a present file with no OS refusal renames it (the target is in the directory, the source is gone unless equal); a missing source fails with "file does not exist", a refusal fails with the OS message; nothing else touches the directory |
| Rename.Plans | rename_recording.py:186-205 | one plan per record, in order |
| Rename.ExecuteCounts | rename_recording.py:181-231 | the pass raises iff some record raises; otherwise renamed + errors + skipped is the number of records, renamed + errors is the number of moves, skipped is the number of skips, and one failure entry is recorded per error |
| Rename.FailuresAreMoves | rename_recording.py:211-224 | the failure list has one entry per failing rename, in record order: entry m names the frame id of the m-th failing move, and its reason is "file does not exist" or the system's message for that move's rename |
| Rename.FailuresAreMissingSources | rename_recording.py:207-224 | when the system refuses nothing and no source is an earlier source or target, the failure list is exactly one "file does not exist" entry per move whose image is missing at the start, in record order |
| Rename.OnlyMovesTouchTheDirectory | rename_recording.py:204-224 | a name only appears as a move's target and only disappears as a move's source |
| Rename.KeepsTargets | rename_recording.py:204-224 | a file that no move takes as source is still there afterwards |
| Rename.AllPresentAllRenamed | rename_recording.py:181-231 | when every source exists, the OS refuses nothing, and no source is an earlier source or target, every move succeeds and every target exists at the end |
| Rename.RenameFrames | rename_recording.py:171-231 | a missing frames directory returns (False, []); the pass raises iff some record raises; otherwise success iff no failure was recorded |
| Rename.UpdateFrom | rename_recording.py:243-256 | the loop fails iff some record lacks the keys or has no dict at its index in the frame log; otherwise exactly the first n entries are rewritten |
| Rename.Updated | rename_recording.py:252-256 | a rewritten entry has `frame_filename` set to the new name, or to None for a record without an image, and keeps every other key |
| Rename.RewriteFrames | rename_recording.py:242-256 | with no records nothing is looked up; otherwise the rewrite succeeds iff `frame_data` is a list the loop can update, and it changes only `frame_data` |
| Rename.AddUser | rename_recording.py:258-260 | succeeds iff `recording_info` is a dict, and adds exactly `user_name` and `naming_format` |
| Rename.UpdateWritesNewNames | rename_recording.py:234-271 | a successful rewrite keeps the frame log's length, gives entry j the new name of record j (or None), keeps its other keys and the entries past the records, and records the user and the naming format |
| Rename.RewriteMatchesRename | rename_recording.py:249-254 | every record whose image was moved gets exactly the move's target as its new `frame_filename` |
| Rename.NewNameNotFrameName | rename_recording.py:202 | a new name never looks like a recorder name `frame_NNNNNN.png` |
| Rename.NewNameSeparatesFrames | rename_recording.py:202 | for one user, records with different integer frame ids get different new names, whatever their codes and death flags |
| RenameTool.LoadStrict | rename_recording.py:13-31 | a missing file gives None; a decodable file gives its value; otherwise the original is backed up, the repaired text replaces the manifest, and the repair's decode is the result |
| RenameTool.LoadTiers | rename_recording.py:296-304 | a loaded value is never empty; the backup and repair are written exactly when the file exists and does not decode; the structural scan of the current file supplies the result exactly when the strict tiers give nothing or an empty value; the frames are untouched |
| RenameTool.Prepare | rename_recording.py:291-317 | a missing directory, a failed load, or an empty or missing frame log exits 1; a loaded value that is not a dict, a non-empty `frame_data` that is not a list, or an unreadable sample record crashes; a dict whose `frame_data` is a non-empty list with readable samples reaches the prompt with that data and list, and only then |
| RenameTool.Gate | rename_recording.py:306-317 | the same checks on a given load result: exit 1, crash or ready exactly in the cases above, with the disk as the load left it |
| RenameTool.PrepareGates | rename_recording.py:291-317 | before the prompt the frames are untouched and every stop is exit 1 or an exception |
| RenameTool.Rewrite | rename_recording.py:330-334 | as written, the manifest is re-read and, when it decodes and the update applies, replaced by the encoded update, otherwise left alone, and the exit is 0 either way; from the loaded data the encoded update is written with exit 0, or nothing changes with exit 1; only the manifest ever changes |
| RenameTool.FinishGates | rename_recording.py:319-345 | a declined prompt exits 0 and changes nothing; the manifest is rewritten only after a pass that reported success; a pass that raised or failed does not exit 0 and leaves the manifest alone; the frames end as the pass left them |
| RenameTool.SalvageLoad | rename_recording.py:298-304 | when neither the file nor its repair decodes, the load is the structural scan of the repaired file, with the backup written |
| RenameTool.SalvageLeavesStaleManifest | rename_recording.py:328-334 | as written, after a salvage the manifest keeps the repaired text with the old names, whatever the run does |
| RenameTool.SalvageStillSucceeds | rename_recording.py:328-334 | as written, after a salvage a successful pass still exits 0 with the images moved |
| RenameTool.RereadMatchesLoaded | rename_recording.py:328-334 | for a manifest that decodes, the tool as written ends with the same disk as the corrected one, and with the same outcome whenever the corrected one exits 0; otherwise it exits 0 where the corrected one exits 1 |
| RenameTool.LoadedRewriteRecordsMoves | rename_recording.py:328-334 | rewriting from the loaded data, a confirmed run that exits 0 writes a manifest in which every moved record carries its move's target |

## Left out

- Wall-clock time, `time.strftime`, durations and timestamps are not modelled. The manifest model carries `total_frames`, the game version and the records; the time fields are omitted.
- Threads are modelled by sequential interleaving. `start_recording` and `record_frame` are events, and each worker turn is an event with its write outcome. The 0.1 s queue poll, the 5 s join timeout and the daemon flag are not modelled.
- A repeated `start_recording` starts a second thread in the source. The model keeps one worker, which takes the queue in order.
- The queue is unbounded (`queue.Queue()`), so the `queue.Full` branch of `record_frame` can never run and is not modelled.
- Pygame is not modelled: surfaces become a screen size plus a frame identity. `pg.image.save` becomes the `ok` outcome, and scaling keeps only the size. Recorder.ScaledSize computes `int(w * 0.5)` and `int(w * 0.75)` in exact rational arithmetic, which agrees with the float computation for screen-sized integers.
- Console output (`print`), argument parsing and the `__main__` guard are not modelled. The prompt's answer is a parameter.
- File-system errors while reading or writing the JSON files are not modelled. Neither are Unicode decode errors or `EOFError` at the prompt. The directory is an abstract record.
- `os.path.join` is taken to put a plain file name inside the frames directory. Names holding separators, or absolute names, are not modelled.
- JSON text is not parsed or printed by the model. `json.load`/`json.loads` and `json.dump` are the `parse` and `dump` parameters.
- Json.PyStr: `str()` of a value is exact for strings and integers, which are what the recorder writes. For other values it follows `repr` without string escaping.
- Rename.NewNameSeparatesFrames: stated for integer frame ids, which is what the recorder writes, not for arbitrary JSON values.
- KeepAll: its own contract gives only counts and the `frame_filename` key; which chunks' records are kept, and in what order, is stated by FrameScan.KeepAllInOrder.
- FailuresAreMoves: the reason is stated as "file does not exist" or the system's message for that rename, without saying which. Which one applies depends on the directory as the earlier renames left it. Rename.FailuresAreMissingSources pins it down when the system refuses nothing and no renames overlap.
- Recorder.StopRecording: stated with the corrected action-description table. As written the table raises after the manifest is written; that case is covered by ActionCodec.DescriptionsAsWrittenRaise.
- The rename tool's "example data" printing is modelled only by whether it raises, through `SamplesReadable`.
- RenameTool.Rewrite with `Loaded` exits 1 when the rewrite cannot be applied. This is a design choice for the corrected tool; the source ignores the result.
- Where the code and the intended behaviour disagree, the model follows the code:
  - A queued frame has no `frame_filename` key until the worker stamps it. The key is absent, not `null`.
  - The recording directory is fixed for the life of a `Recorder`, not per session.
  - `stop_recording` with an empty log does nothing.
  - `start_recording` does not clear the save queue, so old tasks are still written after a restart (Recorder.Detach).
  - The confirmation compares `strip().lower()` with `y`, so `Y` also confirms.

## Findings

| source | as written | input that shows it | evidently intended | confidence | as-written member | corrected member |
|---|---|---|---|---|---|---|
| data/recorder.py:246-253 | `encode_action` is called on one-key dicts, and it indexes every binding | stopping any non-empty recording: `{left: True}` raises KeyError on the jump key, after the manifest is written and before the statistics file is written | a table mapping "1", "2", "4", "8", "16", "0" to LEFT, RIGHT, JUMP, ACTION, DOWN, NONE | not executed | ActionCodec.DescriptionsAsWrittenRaise | ActionCodec.DescriptionLabels |
| data/recorder.py:82-127 | the image path is fixed from `save_frame_count` when the frame is queued, but the record is stamped from the counter when the worker writes | frame skip 1, two frames recorded before the worker runs, both writes succeed: both go to `frame_000000.png`, and record 1 is stamped `frame_000001.png`, which does not exist | write each image under the name its record is stamped with | not executed | Recorder.EnqueuePathLosesImage | Recorder.ReachableBookkeeping |
| rename_recording.py:234-264 | the rewrite re-reads the manifest file, and `main` ignores its False result | a manifest cut off inside a record: neither the file nor its line repair decodes; the structural scan salvages the complete records; the pass renames their images and exits 0, but the manifest keeps the old names | update the manifest from the data already loaded, and fail when that update fails | not executed | RenameTool.SalvageLeavesStaleManifest | RenameTool.LoadedRewriteRecordsMoves |
