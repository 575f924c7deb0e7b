/** `SdCardSyncService` (SdCardSyncService.java): the SD-card sync, run
    sequentially. The workers `syncInThread` would hand to the executor are
    queued in `pending` and run, in order, by `RunPending`. */
module SdCardSync {

  import opened Wrappers
  import opened JavaStrings
  import opened TagList
  import opened NoteRecord
  import opened NoteXml
  import opened NoteContent
  import opened Notes
  import opened SyncModel

  /** `NoteHandler` storing what it parsed into `note`. */
  method ApplyParsed(note: Note, p: Parsed)
    modifies note
    ensures note.Snapshot() == Fill(old(note.Snapshot()), p)
  {
    ApplyDates(note, p);
    ApplyCursor(note, p);
    ApplyWindow(note, p);
    ApplyFlags(note, p);
  }

  method ApplyDates(note: Note, p: Parsed)
    modifies note
    ensures note.Snapshot() == FillDates(old(note.Snapshot()), p)
  {
    note.title := Either(p.title, note.title);
    note.lastChangeDate := Either(p.lastChangeDate, note.lastChangeDate);
    note.lastMetadataChangeDate := Either(p.lastMetadataChangeDate, note.lastMetadataChangeDate);
    note.createDate := Either(p.createDate, note.createDate);
  }

  method ApplyCursor(note: Note, p: Parsed)
    modifies note
    ensures note.Snapshot() == FillCursor(old(note.Snapshot()), p)
  {
    note.tags := p.tags.GetOr(note.tags);
    note.cursorPos := p.cursorPos.GetOr(note.cursorPos);
    note.selectionBoundPos := p.selectionBoundPos.GetOr(note.selectionBoundPos);
  }

  method ApplyWindow(note: Note, p: Parsed)
    modifies note
    ensures note.Snapshot() == FillWindow(old(note.Snapshot()), p)
  {
    note.width := p.width.GetOr(note.width);
    note.height := p.height.GetOr(note.height);
    note.x := p.x.GetOr(note.x);
    note.y := p.y.GetOr(note.y);
  }

  method ApplyFlags(note: Note, p: Parsed)
    modifies note
    ensures note.Snapshot() == FillFlags(old(note.Snapshot()), p)
  {
    note.openOnStartup := p.openOnStartup.GetOr(note.openOnStartup);
    note.pinned := p.pinned.GetOr(note.pinned);
  }

  class SdCardSyncService {
    /** `Tomdroid.NOTES_PATH`. */
    const notesPath: string
    var numberOfFilesToSync: int
    /** The notes loaded so far, handed to `syncNotes` by the last worker. */
    var syncableNotes: seq<Note>
    /** Workers dispatched and not yet run. */
    var pending: seq<Worker>
    /** What the service did, oldest first. */
    var events: seq<Event>

    constructor (notesPath: string)
      ensures this.notesPath == notesPath && numberOfFilesToSync == 0
      ensures syncableNotes == [] && pending == [] && events == []
    {
      this.notesPath := notesPath;
      numberOfFilesToSync := 0;
      syncableNotes := [];
      pending := [];
      events := [];
    }

    /** `sync(push)` (lines 91-137): without the directory it reports
        `NO_SD_CARD`, without `.note` files `PARSING_NO_NOTES`, each time
        with progress 100 and no worker; otherwise it dispatches one worker
        per note file, the last one flagged. */
    method Sync(push: bool, env: Env)
      modifies this`events, this`pending, this`numberOfFilesToSync
      ensures !DirReady(env) ==>
        events == old(events) + [Progress(0), Send(NoSdCard), Progress(100)] &&
        pending == old(pending) && numberOfFilesToSync == old(numberOfFilesToSync)
      ensures DirReady(env) ==> numberOfFilesToSync == |NoteFiles(env.names)|
      ensures DirReady(env) && NoteFiles(env.names) == [] ==>
        events == old(events) + [Progress(0), Send(ParsingNoNotes), Progress(100)] && pending == old(pending)
      ensures DirReady(env) && NoteFiles(env.names) != [] ==>
        events == old(events) + [Progress(0)] &&
        pending == old(pending) + Dispatch(ListedPaths(notesPath, NoteFiles(env.names)), push)
    {
      events := events + [Progress(0)];
      var present := env.dirExists;
      if !present {
        present := env.mkdirCreates;
      }
      if !present {
        events := events + [Send(NoSdCard), Progress(100)];
        return;
      }
      var fileList := ListedPaths(notesPath, NoteFiles(env.names));
      numberOfFilesToSync := |fileList|;
      if |fileList| == 0 {
        events := events + [Send(ParsingNoNotes), Progress(100)];
        return;
      }
      Enqueue(fileList, push);
    }

    /** The dispatch loop of `sync` (lines 128-136): one worker per file, in
        order, and only the last one flagged. */
    method Enqueue(fileList: seq<string>, push: bool)
      requires fileList != []
      modifies this`pending
      ensures pending == old(pending) + Dispatch(fileList, push)
    {
      ghost var all := Dispatch(fileList, push);
      for i := 0 to |fileList| - 1
        invariant pending == old(pending) + all[..i]
      {
        DispatchStep(fileList, push, i);
        pending := pending + [Worker(fileList[i], false, push)];
      }
      DispatchStep(fileList, push, |fileList| - 1);
      assert all[..|fileList|] == all;
      pending := pending + [Worker(fileList[|fileList| - 1], true, push)];
    }

    /** `Worker.onWorkDone`: the last worker hands the loaded notes over. */
    method OnWorkDone(w: Worker)
      modifies this`events
      ensures events == old(events) + (if w.isLast then [SyncNotes(syncableNotes, w.push)] else [])
    {
      if w.isLast {
        events := events + [SyncNotes(syncableNotes, w.push)];
      }
    }

    /** `Worker.run` (lines 168-229): a fresh note named after the file is
        filled from it and added only when reading, parsing and the
        `note-content` match all succeed; otherwise `PARSING_FAILED` is
        sent. Every path ends in `onWorkDone`. */
    method RunWorker(w: Worker, env: Env)
      modifies this
      ensures pending == old(pending) && numberOfFilesToSync == old(numberOfFilesToSync)
      ensures Load(w.path, env).None? ==>
        syncableNotes == old(syncableNotes) &&
        events == old(events) + [Send(ParsingFailed)] + WorkDone(w, syncableNotes)
      ensures Load(w.path, env).Some? ==>
        |syncableNotes| == |old(syncableNotes)| + 1 &&
        syncableNotes[..|old(syncableNotes)|] == old(syncableNotes) &&
        fresh(syncableNotes[|old(syncableNotes)|]) &&
        syncableNotes[|old(syncableNotes)|].Snapshot() == Load(w.path, env).value &&
        events == old(events) + WorkDone(w, syncableNotes)
    {
      var note := new Note();
      note.SetFileName(w.path);
      note.SetGuid(Replace(BaseName(w.path), NoteSuffix, ""));
      var contents := env.read(w.path);
      if contents.None? {
        events := events + [Send(ParsingFailed)];
        OnWorkDone(w);
        return;
      }
      var parsed := env.parse(contents.value);
      if parsed.None? {
        events := events + [Send(ParsingFailed)];
        OnWorkDone(w);
        return;
      }
      ApplyParsed(note, parsed.value);
      var m := Extract(contents.value);
      if m.None? {
        events := events + [Send(ParsingFailed)];
        OnWorkDone(w);
        return;
      }
      note.SetXmlContent(m.value);
      assert note.Snapshot() == Load(w.path, env).value;
      syncableNotes := syncableNotes + [note];
      OnWorkDone(w);
    }

    /** The executor: run the dispatched workers one after another. Each
        flagged worker calls `syncNotes` exactly once, the others never;
        each worker adds at most one note. */
    method RunPending(env: Env)
      modifies this
      ensures pending == [] && numberOfFilesToSync == old(numberOfFilesToSync)
      ensures SyncCount(events) == SyncCount(old(events)) + CountLast(old(pending))
      ensures |old(syncableNotes)| <= |syncableNotes| <= |old(syncableNotes)| + |old(pending)|
      ensures syncableNotes[..|old(syncableNotes)|] == old(syncableNotes)
    {
      ghost var todo := pending;
      ghost var i := 0;
      while pending != []
        invariant 0 <= i <= |todo| && pending == todo[i..]
        invariant SyncCount(events) == SyncCount(old(events)) + CountLast(todo[..i])
        invariant |old(syncableNotes)| <= |syncableNotes| <= |old(syncableNotes)| + i
        invariant syncableNotes[..|old(syncableNotes)|] == old(syncableNotes)
        invariant numberOfFilesToSync == old(numberOfFilesToSync)
        decreases |pending|
      {
        var w := pending[0];
        pending := pending[1..];
        RunCounted(w, env);
        assert todo[..i + 1] == todo[..i] + [w];
        CountLastAppend(todo[..i], [w]);
        assert [w][..0] == [];
        i := i + 1;
      }
      assert todo[..i] == todo;
    }

    /** One worker's run, seen from the loop that runs them all: it syncs
        once exactly when it is the last, and keeps the notes loaded so far. */
    method RunCounted(w: Worker, env: Env)
      modifies this
      ensures pending == old(pending) && numberOfFilesToSync == old(numberOfFilesToSync)
      ensures SyncCount(events) == SyncCount(old(events)) + (if w.isLast then 1 else 0)
      ensures |old(syncableNotes)| <= |syncableNotes| <= |old(syncableNotes)| + 1
      ensures syncableNotes[..|old(syncableNotes)|] == old(syncableNotes)
    {
      ghost var before := events;
      RunWorker(w, env);
      WorkDoneSyncsOnceIfLast(w, syncableNotes);
      if Load(w.path, env).None? {
        FailureSyncsNever();
        SyncCountAppend(before, [Send(ParsingFailed)]);
        SyncCountAppend(before + [Send(ParsingFailed)], WorkDone(w, syncableNotes));
      } else {
        SyncCountAppend(before, WorkDone(w, syncableNotes));
      }
    }

    /** The part of `pushNote` that takes the values it merges from the
        stored file, if there is one (lines 279-345). */
    method MergeStored(env: Env, path: string, stamp: string) returns (m: Merge)
      ensures m == MergeFrom(env, path, stamp)
    {
      var rnote := new Note();
      var createDate := stamp;
      var cursorPos: Int32, width: Int32, height: Int32, x: Int32, y: Int32 := 0, 0, 0, -1, -1;
      var tags := "";
      if env.fileExists(path) {
        var contents := env.read(path);
        if contents.None? {
          return MergeFailed(ParsingFailed);
        }
        var parsed := env.parse(contents.value);
        if parsed.None? {
          return MergeFailed(ParsingFailed);
        }
        ApplyParsed(rnote, parsed.value);
        if rnote.createDate.None? {
          return MergeFailed(NotePushError);
        }
        createDate := rnote.createDate.value;
        cursorPos, width, height, x, y := rnote.cursorPos, rnote.width, rnote.height, rnote.x, rnote.y;
        tags := BuildTagFragment(rnote.Tags());
      }
      m := Merged(PushFields(createDate, cursorPos, width, height, x, y, tags));
    }

    /** `pushNote(note)` (lines 256-366). */
    method PushNote(note: Note, env: Env, epoch: string)
      modifies this`events, note
      ensures note.Snapshot() == PushedNote(old(note.Snapshot()), env, epoch)
      ensures events == old(events) + PushEvents(old(note.Snapshot()), notesPath, env, epoch)
    {
      var present := env.dirExists;
      if !present {
        present := env.mkdirCreates;
      }
      if !present {
        events := events + [Send(NoSdCard)];
        return;
      }
      var path := notesPath + "/" + JavaStr(note.guid) + NoteSuffix;
      var stored := note.GetLastChangeDate(epoch);
      var rendered := env.stamp(stored);
      if rendered.None? {
        events := events + [Send(NotePushError)];
        return;
      }
      PushRendered(note, path, rendered.value, env, epoch);
    }

    /** `pushNote` once the note's last change date rendered as `stamp`:
        merge with the stored file, then write and report. */
    method PushRendered(note: Note, path: string, stamp: string, env: Env, epoch: string)
      requires note.lastChangeDate.Some? && env.stamp(note.lastChangeDate.value) == Some(stamp)
      modifies this`events, note
      ensures note.Snapshot() == old(note.Snapshot())
      ensures events == old(events) + OutcomeEvents(RenderedPlan(old(note.Snapshot()), path, env, stamp))
    {
      var merged := MergeStored(env, path, stamp);
      if merged.MergeFailed? {
        events := events + [Send(merged.msg)];
        return;
      }
      var lastChange := note.GetLastChangeDate(epoch);
      var text := PushFile(JavaStr(note.title), JavaStr(note.xmlContent), env.stamp(lastChange).value, merged.fields);
      if env.writeOk(path) {
        events := events + [Written(path, text), Send(NotePushed)];
      } else {
        events := events + [Send(NotePushError)];
      }
    }

    /** `deleteNote(guid)` (lines 367-381). */
    method DeleteNote(guid: Option<string>, env: Env)
      modifies this`events
      ensures events == old(events) + DeleteEvents(notesPath, guid, env)
    {
      var path := notesPath + "/" + JavaStr(guid) + NoteSuffix;
      if env.deleteThrows(path) {
        events := events + [Send(NoteDeleteError)];
        return;
      }
      events := events + [DeleteCalled(path)];
      events := events + [Send(NoteDeleted)];
    }

    /** `pullNote(guid)` (lines 383-406): one worker, flagged last, never
        pushing, for the file named without a `/` after the directory. */
    method PullNote(guid: Option<string>, env: Env)
      modifies this`events, this`pending
      ensures !DirReady(env) ==> events == old(events) + [Send(NoSdCard)] && pending == old(pending)
      ensures DirReady(env) ==>
        events == old(events) && pending == old(pending) + [Worker(PullPath(notesPath, guid), true, false)]
    {
      var present := env.dirExists;
      if !present {
        present := env.mkdirCreates;
      }
      if !present {
        events := events + [Send(NoSdCard)];
        return;
      }
      var path := notesPath + JavaStr(guid) + NoteSuffix;
      pending := pending + [Worker(path, true, false)];
    }
  }
}
