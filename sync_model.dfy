/** The values the SD-card sync service works with (SdCardSyncService.java):
    the messages it sends, the workers it dispatches, the outside world it
    consults, and what `pushNote` and a worker compute from it. */
module SyncModel {

  import opened Wrappers
  import opened JavaStrings
  import opened TagList
  import opened NoteRecord
  import opened NoteXml
  import opened NoteContent
  import opened Notes

  /** The constants the service hands to `sendMessage`. */
  datatype Message =
    | NoSdCard
    | ParsingNoNotes
    | ParsingFailed
    | NotePushed
    | NotePushError
    | NoteDeleted
    | NoteDeleteError

  /** What the service does that is visible from outside: progress reports,
      messages, the hand-over to `syncNotes`, file writes and deletions. */
  datatype Event =
    | Progress(percent: int)
    | Send(msg: Message)
    | SyncNotes(notes: seq<Note>, push: bool)
    | Written(path: string, text: string)
    | DeleteCalled(path: string)

  /** A `Worker`: the file it loads, whether it is the last one dispatched,
      and the caller's `push` flag. */
  datatype Worker = Worker(path: string, isLast: bool, push: bool)

  /** The fields `NoteHandler` stores while parsing a `.note` file; each is
      absent when the file has no such element. */
  datatype Parsed = Parsed(
    title: Option<string>,
    lastChangeDate: Option<string>,
    lastMetadataChangeDate: Option<string>,
    createDate: Option<string>,
    tags: Option<string>,
    cursorPos: Option<Int32>,
    selectionBoundPos: Option<Int32>,
    width: Option<Int32>,
    height: Option<Int32>,
    x: Option<Int32>,
    y: Option<Int32>,
    openOnStartup: Option<bool>,
    pinned: Option<bool>)

  /** The file system and the Android date routines as the service sees
      them. `dirExists`: the notes directory exists; `mkdirCreates`: one
      `mkdir` makes it exist; `names`: what `listFiles` finds in it, in
      order; `read`: the contents of a file, `None` when reading throws;
      `parse`: what `NoteHandler` gathers, `None` when parsing throws;
      `stamp`: `parse3339` of a stored date followed by `format3339(false)`,
      `None` when `parse3339` throws; `writeOk`: creating and writing the
      file at a path succeeds; `deleteThrows`: `File.delete` throws. */
  datatype Env = Env(
    dirExists: bool,
    mkdirCreates: bool,
    names: seq<string>,
    fileExists: string -> bool,
    read: string -> Option<string>,
    parse: string -> Option<Parsed>,
    stamp: string -> Option<string>,
    writeOk: string -> bool,
    deleteThrows: string -> bool)

  /** The directory is there after the `exists`/`mkdir`/`exists` sequence. */
  predicate DirReady(env: Env)
  {
    env.dirExists || env.mkdirCreates
  }

  // ---------------------------------------------------------------------
  // File names and paths
  // ---------------------------------------------------------------------

  const NoteSuffix: string := ".note"

  /** `NotesFilter.accept` (lines 143-147). */
  predicate Accept(name: string)
    ensures Accept(name) <==>
      |name| >= |NoteSuffix| && name == name[..|name| - |NoteSuffix|] + NoteSuffix
  {
    EndsWith(name, NoteSuffix)
  }

  /** `a` is `b` with some elements left out, the rest kept in order:
      matched from the back, each element of `a` against the latest
      element of `b` that can still take it. */
  predicate SubsequenceOf(a: seq<string>, b: seq<string>)
    decreases |b|
  {
    if a == [] then true
    else if b == [] then false
    else if a[|a| - 1] == b[|b| - 1] then SubsequenceOf(a[..|a| - 1], b[..|b| - 1])
    else SubsequenceOf(a, b[..|b| - 1])
  }

  /** `listFiles(new NotesFilter())`: the accepted names, in listing order. */
  function NoteFiles(names: seq<string>): (r: seq<string>)
    ensures |r| <= |names|
    ensures forall n :: n in r <==> n in names && Accept(n)
    ensures SubsequenceOf(r, names)
  {
    if names == [] then []
    else
      var init := NoteFiles(names[..|names| - 1]);
      var last := names[|names| - 1];
      assert names == names[..|names| - 1] + [last];
      if Accept(last) then init + [last] else init
  }

  /** `File.getName`: what follows the last `/`. */
  function BaseName(p: string): (r: string)
    ensures '/' !in r
    ensures |r| <= |p|
  {
    if p == [] || p[|p| - 1] == '/' then []
    else BaseName(p[..|p| - 1]) + [p[|p| - 1]]
  }

  /** The base name is the part of the path after its last `/`. */
  lemma {:induction false} BaseNameIsLastComponent(p: string)
    ensures p == p[..|p| - |BaseName(p)|] + BaseName(p)
    ensures |BaseName(p)| < |p| ==> p[|p| - |BaseName(p)| - 1] == '/'
    decreases |p|
  {
    if p != [] && p[|p| - 1] != '/' {
      var init := p[..|p| - 1];
      var c := p[|p| - 1];
      BaseNameIsLastComponent(init);
      var r := BaseName(init);
      var head := init[..|init| - |r|];
      assert BaseName(p) == r + [c];
      assert p == init + [c];
      assert p[..|p| - |r| - 1] == head;
      assert p == head + (r + [c]);
    }
  }

  /** The guid a worker gives its note: the file's name with every `.note`
      removed (line 172). */
  function GuidOf(path: string): (r: string)
    ensures '/' !in r
    ensures |r| <= |path|
  {
    ReplaceKeepsOut(BaseName(path), NoteSuffix, "", '/');
    Replace(BaseName(path), NoteSuffix, "")
  }

  /** The path of the file `sync` hands to a worker for the name `name`
      found in the directory `notesPath`. */
  function ListedPath(notesPath: string, name: string): string
  {
    notesPath + "/" + name
  }

  function ListedPaths(notesPath: string, names: seq<string>): (r: seq<string>)
    ensures |r| == |names|
    ensures forall k :: 0 <= k < |names| ==> r[k] == ListedPath(notesPath, names[k])
  {
    seq(|names|, k requires 0 <= k < |names| => ListedPath(notesPath, names[k]))
  }

  /** The file `pushNote` and `deleteNote` use (lines 277 and 371): the
      one `sync` lists as the name `guid.note`. */
  function PushPath(notesPath: string, guid: Option<string>): (r: string)
    ensures r == ListedPath(notesPath, JavaStr(guid) + NoteSuffix)
    ensures Accept(r)
  {
    AcceptsNoteName(notesPath + "/" + JavaStr(guid));
    notesPath + "/" + JavaStr(guid) + NoteSuffix
  }

  /** The file `pullNote` loads (line 402): no `/` after the directory. */
  function PullPath(notesPath: string, guid: Option<string>): (r: string)
    ensures notesPath <= r && Accept(r)
  {
    AcceptsNoteName(notesPath + JavaStr(guid));
    notesPath + JavaStr(guid) + NoteSuffix
  }

  lemma AcceptsNoteName(stem: string)
    ensures Accept(stem + NoteSuffix)
  {
    var s := stem + NoteSuffix;
    assert s[|s| - |NoteSuffix|..] == NoteSuffix;
  }

  lemma {:induction false} BaseNameOfListed(notesPath: string, name: string)
    requires '/' !in name
    ensures BaseName(ListedPath(notesPath, name)) == name
    decreases |name|
  {
    var p := ListedPath(notesPath, name);
    if name != [] {
      var init := name[..|name| - 1];
      assert p[..|p| - 1] == ListedPath(notesPath, init);
      BaseNameOfListed(notesPath, init);
      assert name == init + [name[|name| - 1]];
    }
  }

  /** Removing every `.note` from `stem + ".note"` gives `stem` back when
      `stem` holds no `.note`: no occurrence can straddle the end of
      `stem`, as no proper suffix of `.note` begins with `.`. */
  lemma {:induction false} DropNoteSuffix(stem: string)
    requires forall i: nat :: !OccursAt(stem, NoteSuffix, i)
    ensures Replace(stem + NoteSuffix, NoteSuffix, "") == stem
    decreases |stem|
  {
    var s := stem + NoteSuffix;
    if stem == [] {
      assert s[..|NoteSuffix|] == NoteSuffix;
      assert s[|NoteSuffix|..] == [];
    } else {
      assert s[..|NoteSuffix|] != NoteSuffix by {
        if |stem| >= |NoteSuffix| {
          assert s[..|NoteSuffix|] == stem[..|NoteSuffix|];
          assert !OccursAt(stem, NoteSuffix, 0);
        } else {
          assert s[..|NoteSuffix|][|stem|] == '.';
          assert NoteSuffix[|stem|] != '.';
        }
      }
      var tail := stem[1..];
      forall i: nat
        ensures !OccursAt(tail, NoteSuffix, i)
      {
        assert !OccursAt(stem, NoteSuffix, i + 1);
        if i + |NoteSuffix| <= |tail| {
          assert tail[i..i + |NoteSuffix|] == stem[i + 1..i + 1 + |NoteSuffix|];
        }
      }
      DropNoteSuffix(tail);
      assert s[1..] == tail + NoteSuffix;
    }
  }

  /** A worker for `stem + ".note"` in the notes directory names its note
      `stem` (lines 170-172). */
  lemma GuidOfListedNote(notesPath: string, stem: string)
    requires '/' !in stem
    requires forall i: nat :: !OccursAt(stem, NoteSuffix, i)
    ensures GuidOf(ListedPath(notesPath, stem + NoteSuffix)) == stem
  {
    assert '/' !in NoteSuffix;
    assert '/' !in stem + NoteSuffix;
    BaseNameOfListed(notesPath, stem + NoteSuffix);
    DropNoteSuffix(stem);
  }

  /** The file a push writes for a guid without `/` or `.note` is read back
      by `sync`: the filter accepts its name and the worker gives its note
      the same guid. */
  lemma PushedFileReadBack(notesPath: string, guid: string)
    requires '/' !in guid
    requires forall i: nat :: !OccursAt(guid, NoteSuffix, i)
    ensures BaseName(PushPath(notesPath, Some(guid))) == guid + NoteSuffix
    ensures Accept(BaseName(PushPath(notesPath, Some(guid))))
    ensures GuidOf(PushPath(notesPath, Some(guid))) == guid
  {
    assert '/' !in NoteSuffix;
    assert '/' !in guid + NoteSuffix;
    BaseNameOfListed(notesPath, guid + NoteSuffix);
    AcceptsNoteName(guid);
    GuidOfListedNote(notesPath, guid);
  }

  /** The path strings differ by the `/` that `pullNote` leaves out after
      the directory. */
  lemma PullPathDiffers(notesPath: string, guid: Option<string>)
    ensures PullPath(notesPath, guid) != PushPath(notesPath, guid)
    ensures var pull := PullPath(notesPath, guid);
      PushPath(notesPath, guid) == pull[..|notesPath|] + "/" + pull[|notesPath|..]
  {
    var pull := PullPath(notesPath, guid);
    assert pull[..|notesPath|] == notesPath;
    assert pull[|notesPath|..] == JavaStr(guid) + NoteSuffix;
    assert |PushPath(notesPath, guid)| == |pull| + 1;
  }

  // ---------------------------------------------------------------------
  // Dispatch
  // ---------------------------------------------------------------------

  /** The workers `sync` dispatches for `paths` (lines 128-136): one per
      path in order, carrying `push`, the last one flagged. */
  function Dispatch(paths: seq<string>, push: bool): (r: seq<Worker>)
    ensures |r| == |paths|
  {
    seq(|paths|, k requires 0 <= k < |paths| => Worker(paths[k], k == |paths| - 1, push))
  }

  /** The number of workers flagged `isLast`. */
  function CountLast(ws: seq<Worker>): nat
  {
    if ws == [] then 0
    else CountLast(ws[..|ws| - 1]) + (if ws[|ws| - 1].isLast then 1 else 0)
  }

  lemma {:induction false} CountLastAppend(a: seq<Worker>, b: seq<Worker>)
    ensures CountLast(a + b) == CountLast(a) + CountLast(b)
    decreases |b|
  {
    if b == [] {
      assert a + b == a;
    } else {
      var init := b[..|b| - 1];
      assert (a + b)[..|a + b| - 1] == a + init;
      CountLastAppend(a, init);
    }
  }

  lemma {:induction false} NoneLast(ws: seq<Worker>)
    requires forall k :: 0 <= k < |ws| ==> !ws[k].isLast
    ensures CountLast(ws) == 0
    decreases |ws|
  {
    if ws != [] {
      NoneLast(ws[..|ws| - 1]);
    }
  }

  /** Dispatching gives each path its worker, in order, with the caller's
      flag, and only the last worker is flagged: exactly one is. */
  lemma DispatchShape(paths: seq<string>, push: bool)
    requires paths != []
    ensures forall k :: 0 <= k < |paths| ==> Dispatch(paths, push)[k].path == paths[k]
    ensures forall k :: 0 <= k < |paths| ==> Dispatch(paths, push)[k].push == push
    ensures forall k :: 0 <= k < |paths| ==> (Dispatch(paths, push)[k].isLast <==> k == |paths| - 1)
    ensures CountLast(Dispatch(paths, push)) == 1
  {
    var ws := Dispatch(paths, push);
    var init := ws[..|ws| - 1];
    NoneLast(init);
    assert ws == init + [ws[|ws| - 1]];
  }

  /** The workers for the first `i + 1` paths are those for the first `i`
      and then the one for path `i`. */
  lemma DispatchStep(paths: seq<string>, push: bool, i: nat)
    requires i < |paths|
    ensures Dispatch(paths, push)[..i + 1]
      == Dispatch(paths, push)[..i] + [Worker(paths[i], i == |paths| - 1, push)]
  {
    var ws := Dispatch(paths, push);
    assert ws[..i + 1] == ws[..i] + [ws[i]];
  }

  /** How many times `syncNotes` was called. */
  function SyncCount(evs: seq<Event>): nat
  {
    if evs == [] then 0
    else SyncCount(evs[..|evs| - 1]) + (if evs[|evs| - 1].SyncNotes? then 1 else 0)
  }

  lemma {:induction false} SyncCountAppend(a: seq<Event>, b: seq<Event>)
    ensures SyncCount(a + b) == SyncCount(a) + SyncCount(b)
    decreases |b|
  {
    if b == [] {
      assert a + b == a;
    } else {
      var init := b[..|b| - 1];
      assert (a + b)[..|a + b| - 1] == a + init;
      SyncCountAppend(a, init);
    }
  }

  // ---------------------------------------------------------------------
  // A worker's note
  // ---------------------------------------------------------------------

  function Either<T>(a: Option<T>, b: Option<T>): Option<T>
  {
    if a.Some? then a else b
  }

  /** `d` after `NoteHandler` stored the fields it found. */
  function Fill(d: NoteData, p: Parsed): (r: NoteData)
    ensures r.xmlContent == d.xmlContent && r.fileName == d.fileName && r.guid == d.guid
  {
    FillFlags(FillWindow(FillCursor(FillDates(d, p), p), p), p)
  }

  function FillDates(d: NoteData, p: Parsed): NoteData
  {
    d.(title := Either(p.title, d.title),
       lastChangeDate := Either(p.lastChangeDate, d.lastChangeDate),
       lastMetadataChangeDate := Either(p.lastMetadataChangeDate, d.lastMetadataChangeDate),
       createDate := Either(p.createDate, d.createDate))
  }

  function FillCursor(d: NoteData, p: Parsed): NoteData
  {
    d.(tags := p.tags.GetOr(d.tags),
       cursorPos := p.cursorPos.GetOr(d.cursorPos),
       selectionBoundPos := p.selectionBoundPos.GetOr(d.selectionBoundPos))
  }

  function FillWindow(d: NoteData, p: Parsed): NoteData
  {
    d.(width := p.width.GetOr(d.width),
       height := p.height.GetOr(d.height),
       x := p.x.GetOr(d.x),
       y := p.y.GetOr(d.y))
  }

  function FillFlags(d: NoteData, p: Parsed): NoteData
  {
    d.(openOnStartup := p.openOnStartup.GetOr(d.openOnStartup),
       pinned := p.pinned.GetOr(d.pinned))
  }

  /** The note a worker for `path` adds to `syncableNotes`, or `None` when
      it reports `PARSING_FAILED` instead: reading fails, parsing fails, or
      the contents hold no `note-content` match (lines 168-228). */
  function Load(path: string, env: Env): (r: Option<NoteData>)
    ensures r.Some? ==> r.value.fileName == Some(path) && r.value.guid == Some(GuidOf(path))
    ensures r.Some? <==>
      env.read(path).Some? && env.parse(env.read(path).value).Some? && Extract(env.read(path).value).Some?
    ensures r.Some? ==> r.value.xmlContent == Extract(env.read(path).value)
  {
    var d0 := Fresh.(fileName := Some(path), guid := Some(GuidOf(path)));
    match env.read(path)
    case None => None
    case Some(contents) =>
      match env.parse(contents)
      case None => None
      case Some(p) =>
        match Extract(contents)
        case None => None
        case Some(c) => Some(Fill(d0, p).(xmlContent := Some(c)))
  }

  /** For a well-formed file the note holds the text between the
      `note-content` tags. */
  lemma LoadWrappedNote(path: string, env: Env, pre: string, attrs: string, body: string, post: string)
    requires env.read(path) == Some(pre + OpenTag + attrs + ">" + body + CloseTag + post)
    requires env.parse(env.read(path).value).Some?
    requires '<' !in pre && '<' !in post && |attrs| > 0 && '>' !in attrs
    ensures Load(path, env).Some? && Load(path, env).value.xmlContent == Some(body)
  {
    ExtractWrapped(pre, attrs, body, post);
  }

  /** What `onWorkDone` (lines 231-235) adds to the event log: the
      hand-over to `syncNotes` when the worker is the last one. */
  function WorkDone(w: Worker, notes: seq<Note>): seq<Event>
  {
    if w.isLast then [SyncNotes(notes, w.push)] else []
  }

  /** A failure report calls `syncNotes` no time. */
  lemma FailureSyncsNever()
    ensures SyncCount([Send(ParsingFailed)]) == 0
  {
    assert [Send(ParsingFailed)][..0] == [];
  }

  /** Line 227 as written: `syncableNotes` is never assigned, so it is
      still `null` (`None`) there, `add` throws a NullPointerException out
      of `run`, and `onWorkDone` is not reached. With a list, the note is
      added and `onWorkDone` follows. The events of a worker whose note
      loaded. */
  function LoadedRunEvents(list: Option<seq<Note>>, w: Worker, note: Note): seq<Event>
  {
    match list
    case None => []
    case Some(notes) => WorkDone(w, notes + [note])
  }

  /** As written, the last worker never hands the notes to `syncNotes`
      once its own note has loaded. */
  lemma NullListLastWorkerNeverSyncs(w: Worker, note: Note)
    requires w.isLast
    ensures SyncCount(LoadedRunEvents(None, w, note)) == 0
  {
  }

  /** With the list there, as the worker is evidently meant to run, the
      last worker hands the notes to `syncNotes` once. */
  lemma ListLastWorkerSyncsOnce(notes: seq<Note>, w: Worker, note: Note)
    requires w.isLast
    ensures SyncCount(LoadedRunEvents(Some(notes), w, note)) == 1
  {
    WorkDoneSyncsOnceIfLast(w, notes + [note]);
  }

  /** `onWorkDone` calls `syncNotes` once for the last worker and never for
      the others; a failure report calls it no time. */
  lemma WorkDoneSyncsOnceIfLast(w: Worker, notes: seq<Note>)
    ensures SyncCount(WorkDone(w, notes)) == (if w.isLast then 1 else 0)
  {
    if w.isLast {
      assert [SyncNotes(notes, w.push)][..0] == [];
    }
  }

  // ---------------------------------------------------------------------
  // pushNote
  // ---------------------------------------------------------------------

  /** Where the values `pushNote` merges come from, or the message it sends
      instead of writing. */
  datatype Merge = Merged(fields: PushFields) | MergeFailed(msg: Message)

  /** The values for a file at `path` when the pushed note's last change
      date renders as `stamp` (lines 279-345): defaults without a stored
      file; otherwise those of the stored note, whose creation date must
      be there (line 330 dereferences it); `PARSING_FAILED` when the stored
      file cannot be read or parsed. */
  function MergeFrom(env: Env, path: string, stamp: string): (r: Merge)
    ensures r.MergeFailed? ==> r.msg in {ParsingFailed, NotePushError}
  {
    if !env.fileExists(path) then Merged(PushFields(stamp, 0, 0, 0, -1, -1, ""))
    else match env.read(path)
      case None => MergeFailed(ParsingFailed)
      case Some(contents) =>
        match env.parse(contents)
        case None => MergeFailed(ParsingFailed)
        case Some(p) =>
          var prev := Fill(Fresh, p);
          if prev.createDate.None? then MergeFailed(NotePushError)
          else Merged(PushFields(prev.createDate.value, prev.cursorPos, prev.width, prev.height,
            prev.x, prev.y, TagFragment(prev.tags)))
  }

  /** The stored date `pushNote` renders: `getLastChangeDate` fills a null
      field with `epoch`. */
  function PushedChangeDate(d: NoteData, epoch: string): string
  {
    d.lastChangeDate.GetOr(epoch)
  }

  /** How a push ends: stopped with a message before any write, or an
      attempt to write `text` to `path` that succeeds when `ok`. */
  datatype PushOutcome = Stopped(msg: Message) | Attempt(path: string, text: string, ok: bool)

  /** What `pushNote` of a note in state `d` decides (lines 256-366). */
  function PushPlan(d: NoteData, notesPath: string, env: Env, epoch: string): (r: PushOutcome)
    ensures r.Attempt? ==> DirReady(env) && r.path == PushPath(notesPath, d.guid)
    ensures r.Stopped? ==> r.msg in {NoSdCard, ParsingFailed, NotePushError}
  {
    if !DirReady(env) then Stopped(NoSdCard)
    else
      match env.stamp(PushedChangeDate(d, epoch))
      case None => Stopped(NotePushError)
      case Some(stamp) => RenderedPlan(d, PushPath(notesPath, d.guid), env, stamp)
  }

  /** The rest of the push once the note's last change date rendered as
      `stamp`: merge, then write the text. */
  function RenderedPlan(d: NoteData, path: string, env: Env, stamp: string): (r: PushOutcome)
    ensures r.Attempt? ==> r.path == path
    ensures r.Stopped? ==> r.msg in {ParsingFailed, NotePushError}
  {
    match MergeFrom(env, path, stamp)
    case MergeFailed(m) => Stopped(m)
    case Merged(f) => Attempt(path, PushFile(JavaStr(d.title), JavaStr(d.xmlContent), stamp, f), env.writeOk(path))
  }

  /** The events of an outcome: a failed write sends `NOTE_PUSH_ERROR`, a
      successful one is followed by `NOTE_PUSHED`. */
  function OutcomeEvents(o: PushOutcome): (r: seq<Event>)
    ensures 1 <= |r| <= 2 && r[|r| - 1].Send?
    ensures |r| == 2 <==> o.Attempt? && o.ok
    ensures |r| == 2 ==> r[0] == Written(o.path, o.text) && r[1] == Send(NotePushed)
  {
    match o
    case Stopped(m) => [Send(m)]
    case Attempt(path, text, ok) =>
      if ok then [Written(path, text), Send(NotePushed)] else [Send(NotePushError)]
  }

  /** What `pushNote` of a note in state `d` adds to the event log. */
  function PushEvents(d: NoteData, notesPath: string, env: Env, epoch: string): (r: seq<Event>)
    ensures !DirReady(env) ==> r == [Send(NoSdCard)]
    ensures forall k :: 0 <= k < |r| && r[k].Written? ==> DirReady(env) && r[k].path == PushPath(notesPath, d.guid)
  {
    OutcomeEvents(PushPlan(d, notesPath, env, epoch))
  }

  /** The pushed note afterwards: its last change date is filled in once
      the directory is there. */
  function PushedNote(d: NoteData, env: Env, epoch: string): (r: NoteData)
    ensures r == d || r == d.(lastChangeDate := Some(PushedChangeDate(d, epoch)))
  {
    if DirReady(env) then d.(lastChangeDate := Some(PushedChangeDate(d, epoch))) else d
  }

  /** Messages among the events. */
  function Sends(evs: seq<Event>): seq<Message>
  {
    if evs == [] then []
    else Sends(evs[..|evs| - 1]) + (if evs[|evs| - 1].Send? then [evs[|evs| - 1].msg] else [])
  }

  lemma SendsOfOne(a: Event)
    ensures Sends([a]) == if a.Send? then [a.msg] else []
  {
    assert [a][..0] == [];
  }

  lemma SendsOfTwo(a: Event, b: Event)
    ensures Sends([a, b]) == Sends([a]) + Sends([b])
  {
    assert [a, b][..1] == [a];
    SendsOfOne(b);
  }

  /** A push sends exactly one message, as its last event; before it there
      is at most the write; and `NOTE_PUSHED` is sent exactly when the
      write succeeded. */
  lemma OutcomeSendsOneMessage(o: PushOutcome)
    requires o.Stopped? ==> o.msg != NotePushed
    ensures var e := OutcomeEvents(o);
      1 <= |e| <= 2 && e[|e| - 1].Send? && |Sends(e)| == 1 && (|e| == 2 ==> e[0].Written?)
    ensures var e := OutcomeEvents(o);
      Send(NotePushed) in e <==> o.Attempt? && o.ok
    ensures var e := OutcomeEvents(o);
      forall k :: 0 <= k < |e| && e[k].Written? ==> o.Attempt? && o.ok && e[k] == Written(o.path, o.text)
  {
    var e := OutcomeEvents(o);
    if |e| == 1 {
      SendsOfOne(e[0]);
    } else {
      assert e == [e[0], e[1]];
      SendsOfTwo(e[0], e[1]);
      SendsOfOne(e[0]);
      SendsOfOne(e[1]);
    }
  }

  /** `pushNote` sends one message, and `NOTE_PUSHED` only after writing the
      note's own file. */
  lemma PushedOnlyAfterWrite(d: NoteData, notesPath: string, env: Env, epoch: string)
    ensures |Sends(PushEvents(d, notesPath, env, epoch))| == 1
    ensures var e := PushEvents(d, notesPath, env, epoch);
      Send(NotePushed) in e ==> e[0] == Written(PushPath(notesPath, d.guid), PushPlan(d, notesPath, env, epoch).text)
  {
    OutcomeSendsOneMessage(PushPlan(d, notesPath, env, epoch));
  }

  /** A stored file that cannot be read or parsed stops the push with
      `PARSING_FAILED` before anything is written. */
  lemma PushStopsOnUnreadableFile(d: NoteData, notesPath: string, env: Env, epoch: string)
    requires DirReady(env) && env.stamp(PushedChangeDate(d, epoch)).Some?
    requires env.fileExists(PushPath(notesPath, d.guid))
    requires env.read(PushPath(notesPath, d.guid)).None? ||
      env.parse(env.read(PushPath(notesPath, d.guid)).value).None?
    ensures PushPlan(d, notesPath, env, epoch) == Stopped(ParsingFailed)
  {
  }

  /** Without a stored file the text gets the defaults: creation date = the
      note's last change date, cursor 0, size 0 by 0, window at (-1, -1),
      no tags. */
  lemma PushNewNoteDefaults(d: NoteData, notesPath: string, env: Env, epoch: string, stamp: string)
    requires DirReady(env) && env.stamp(PushedChangeDate(d, epoch)) == Some(stamp)
    requires !env.fileExists(PushPath(notesPath, d.guid))
    ensures PushPlan(d, notesPath, env, epoch) ==
      Attempt(PushPath(notesPath, d.guid),
        PushFile(JavaStr(d.title), JavaStr(d.xmlContent), stamp, PushFields(stamp, 0, 0, 0, -1, -1, "")),
        env.writeOk(PushPath(notesPath, d.guid)))
  {
  }

  /** With a stored, parseable file the creation date, cursor, size,
      window position and tags come from the stored note; title, text and
      change dates still come from the pushed one. */
  lemma PushKeepsStoredLayout(d: NoteData, notesPath: string, env: Env, epoch: string, stamp: string, p: Parsed)
    requires DirReady(env) && env.stamp(PushedChangeDate(d, epoch)) == Some(stamp)
    requires env.fileExists(PushPath(notesPath, d.guid))
    requires env.read(PushPath(notesPath, d.guid)).Some?
    requires env.parse(env.read(PushPath(notesPath, d.guid)).value) == Some(p)
    requires p.createDate.Some?
    ensures PushPlan(d, notesPath, env, epoch) ==
      Attempt(PushPath(notesPath, d.guid),
        PushFile(JavaStr(d.title), JavaStr(d.xmlContent), stamp,
          PushFields(p.createDate.value, p.cursorPos.GetOr(0), p.width.GetOr(0), p.height.GetOr(0),
            p.x.GetOr(-1), p.y.GetOr(-1), TagFragment(p.tags.GetOr("")))),
        env.writeOk(PushPath(notesPath, d.guid)))
  {
  }

  /** A stored note without a creation date makes line 330 throw: the push
      ends with `NOTE_PUSH_ERROR` and writes nothing. */
  lemma PushFailsWithoutStoredCreateDate(d: NoteData, notesPath: string, env: Env, epoch: string, p: Parsed)
    requires DirReady(env) && env.stamp(PushedChangeDate(d, epoch)).Some?
    requires env.fileExists(PushPath(notesPath, d.guid))
    requires env.read(PushPath(notesPath, d.guid)).Some?
    requires env.parse(env.read(PushPath(notesPath, d.guid)).value) == Some(p)
    requires p.createDate.None?
    ensures PushPlan(d, notesPath, env, epoch) == Stopped(NotePushError)
  {
  }

  /** Every text a push writes opens with the header and the pushed note's
      title and ends with `</note>`. */
  lemma PushedTextShape(d: NoteData, notesPath: string, env: Env, epoch: string)
    requires PushPlan(d, notesPath, env, epoch).Attempt?
    ensures var t := PushPlan(d, notesPath, env, epoch).text;
      XmlHeader + Element("title", JavaStr(d.title)) <= t && EndsWith(t, NoteClose)
  {
    var stamp := env.stamp(PushedChangeDate(d, epoch)).value;
    var f := MergeFrom(env, PushPath(notesPath, d.guid), stamp).fields;
    PushFileOpening(JavaStr(d.title), JavaStr(d.xmlContent), stamp, f);
    PushFileClosing(JavaStr(d.title), JavaStr(d.xmlContent), stamp, f);
  }

  /** What `deleteNote` adds to the event log (lines 367-381): the result of
      `delete()` is ignored, only an exception turns the message into
      `NOTE_DELETE_ERROR`. */
  function DeleteEvents(notesPath: string, guid: Option<string>, env: Env): (r: seq<Event>)
    ensures |Sends(r)| == 1
  {
    var path := PushPath(notesPath, guid);
    if env.deleteThrows(path) then
      SendsOfOne(Send(NoteDeleteError));
      [Send(NoteDeleteError)]
    else
      SendsOfTwo(DeleteCalled(path), Send(NoteDeleted));
      SendsOfOne(DeleteCalled(path));
      SendsOfOne(Send(NoteDeleted));
      [DeleteCalled(path), Send(NoteDeleted)]
  }
}
