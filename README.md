# Tomdroid notes and SD-card sync, modelled in Dafny

This project models two pieces of Tomdroid, the Android reader for Tomboy
notes, and proves properties of the model.

**The `Note` entity (`Note.java`).** The model covers:

- its mutable fields and their defaults;
- the comma-separated tag string that `addTag`, `removeTag` and the tag loop
  of `fromJSON` rewrite;
- the regular expression that cuts Tomboy's seven sub-second digits to three
  in the three string date setters;
- the colon `toTomboyFormat` inserts into the zone offset;
- the `.note` text `getXmlFileString` builds, with its `&amp;` escaping and
  `<tags>` fragment.

**The SD-card sync service (`SdCardSyncService.java`).** The model covers:

- `sync`, with its directory checks and a dispatch loop that gives one worker
  to each `.note` file and flags the last;
- the `.note` name filter and how a worker derives a note's guid;
- `Worker.run` and `onWorkDone`;
- the case-insensitive, DOTALL `note-content` pattern;
- the merge `pushNote` does with a stored file, and the text it writes;
- `pullNote` and `deleteNote`.

Everything the service does that is visible from outside goes into a log of
events: progress reports, `sendMessage` calls, the hand-over to `syncNotes`,
file writes and deletions.

## Layout

- `wrappers.dfy`: `Option`.
- `java_strings.dfy`: the Java string operations the code relies on:
  - `split(",", -1)`, `TextUtils.split`, `String.split(",")` (trailing empty
    strings dropped);
  - `replace`, `endsWith`;
  - `Integer.toString`, and string concatenation of `null`.
- `date_cleaner.dfy`, `date_examples.dfy`: the date cleaner, with Java's
  `find()` semantics written out, and the colon insertion.
- `tag_list.dfy`, `tag_examples.dfy`: the tag string functions and the
  `<tags>` fragment loop.
- `note_record.dfy`: a note's fields as a value.
- `note_xml.dfy`: the two `.note` texts.
- `notes.dfy`: `class Note`, with the source's fields, setters and getters.
- `note_content.dfy`: the `note-content` pattern.
- `sync_model.dfy`: files, workers, the environment and the push plan, as
  values.
- `sd_card_sync.dfy`: `class SdCardSyncService`, holding the event log, the
  loaded notes and the queue of dispatched workers.

## Modelling decisions

- **Null strings.** A Java `String` that may be `null` is an
  `Option<string>`. Concatenating `null` into a string gives `"null"`
  (`JavaStr`).
- **The environment.** The file system, the SAX parse through `NoteHandler`,
  and Android's `Time.parse3339`/`format3339` are the fields of an `Env`
  value:
  - does the directory exist, and does `mkdir` create it;
  - the listed names;
  - whether a file exists, reading a file, parsing contents;
  - rendering a stored date;
  - whether a write succeeds, and whether a delete throws.

  Each is a function, so asking twice gives the same answer.
- **Reading `Time`.** `getXmlFileString`'s date rendering is a `Renderer`
  parameter. `new Time().format3339(false)`, which the date getters store in
  a null field, is the `epoch` parameter.
- **Threads.** `syncInThread` appends the worker to `pending`. `RunPending`
  then runs the queue in dispatch order, in place of the executor.
- **`syncableNotes`.** Line 57 declares the list and nothing ever assigns
  it, so it is `null`. Line 227, `syncableNotes.add(note)`, is outside every
  `try` block: a worker whose note loads throws a `NullPointerException` out
  of `run()` and never reaches `onWorkDone`. The class is evidently meant to
  start with an empty list, so the service model starts it empty and never
  clears it. The claims that a run of `RunCounted` or `RunPending` calls
  `syncNotes` once hold for that list. The code as written is a finding
  below.
- **Line 330.** `pushNote` reads `rnote.createDate`, a `String` in `Note`,
  and calls `format3339` on it. The model takes the stored note's creation
  date as it is. When the field is null, the dereference throws and the
  catch at lines 359-362 sends `NOTE_PUSH_ERROR`.
- **The pushed text.** Tomboy's `.note` format has `selection-bound-position`
  and `pinned` elements. The text `pushNote` writes at line 349 has neither,
  has `<text>` without a `note-content` element, and always writes
  `open-on-startup` as `False`. The model follows the code.

## Model

S = `src/org/tomdroid/sync/sd/SdCardSyncService.java`, N = `src/org/tomdroid/Note.java`; the source column writes them out.

| member | source | states |
|---|---|---|
| Notes.Note.constructor | src/org/tomdroid/Note.java:80-95 | a new note has tags `""`, cursor and selection 0, size 0 by 0, window at -1,-1, `pinned` and `openOnStartup` false, and every other String null |
| Notes.Note.Tags | src/org/tomdroid/Note.java:156-158 | `getTags` returns the stored tag string |
| Notes.Note.SetTags | src/org/tomdroid/Note.java:160-162 | `setTags` replaces the tag string and changes no other field |
| TagList.WithTag | src/org/tomdroid/Note.java:164-169 | the old tags are a prefix of the result and the tag ends it; a comma is added between them only when there were tags |
| Notes.Note.AddTag | src/org/tomdroid/Note.java:164-169 | the tags become `tag` when they were empty, otherwise the old tags, a comma and `tag`; nothing else changes |
| TagList.AddedTagIsLastPiece | src/org/tomdroid/Note.java:164-169 | adding a comma-free tag keeps every existing piece in order and adds the tag as the last piece |
| TagList.AddTagKeepsDuplicates | src/org/tomdroid/Note.java:164-169 | adding `work` to `work` gives the two pieces `work`, `work`: nothing is deduplicated |
| TagList.Removed | src/org/tomdroid/Note.java:171-180 | the tags `removeTag` leaves never hold a comma |
| Notes.Note.RemoveTag | src/org/tomdroid/Note.java:171-180 | the loop leaves the concatenation, in order and with no separator, of the pieces that differ from `tag`; nothing else changes |
| TagList.RemovedSnoc | src/org/tomdroid/Note.java:175-178 | one more piece is appended to the result exactly when it differs from `tag` |
| TagList.RemoveOnlyTag | src/org/tomdroid/Note.java:171-180 | removing the only tag leaves `""` |
| TagList.RemoveAbsentTagDropsCommas | src/org/tomdroid/Note.java:171-180 | removing a tag that is not present deletes every comma from the tag string |
| TagList.RemoveAbsentFromTwo | src/org/tomdroid/Note.java:171-180 | removing an absent tag from `a,b` leaves `ab` |
| TagExamples.RemoveAbsentTagExample | src/org/tomdroid/Note.java:177 | removing `x` from `work,home` leaves `workhome` |
| TagList.RemoveIntendedAbsentIsNoOp | src/org/tomdroid/Note.java:177 | with the separator kept, removing an absent tag leaves the tags unchanged |
| TagList.RemoveIntendedAbsentFromTwo | src/org/tomdroid/Note.java:177 | with the separator kept, removing an absent tag from `a,b` leaves `a,b` |
| TagList.RemoveIntendedPieces | src/org/tomdroid/Note.java:177 | with the separator kept, the pieces of the result are exactly the old pieces other than `tag`, in order, and none of them is `tag` |
| TagExamples.RemoveAbsentTagIntendedExample | src/org/tomdroid/Note.java:177 | with the separator kept, removing `x` from `work,home` leaves `work,home` |
| Notes.Note.FromJsonTags | src/org/tomdroid/Note.java:136-144 | the tags become each JSON tag followed by a comma, in order, or `""` without a `tags` array; nothing else changes |
| TagList.Terminated | src/org/tomdroid/Note.java:136-144 | the loop builds `""` exactly for no JSON tags; otherwise its string ends with a comma and is at least one character per tag |
| TagList.TerminatedIsJoinWithComma | src/org/tomdroid/Note.java:138-144 | the string the JSON loop builds from a non-empty list is the comma-join of the tags plus one trailing comma |
| TagList.TerminatedPieces | src/org/tomdroid/Note.java:138-144 | splitting that string at every comma gives the JSON tags followed by one empty piece |
| TagList.JsonTagsSplitBack | src/org/tomdroid/Note.java:358 | `split(",")` of that string gives the JSON tags back exactly |
| JavaStrings.JoinPieces | src/org/tomdroid/Note.java:173 | re-joining the comma-separated pieces of a string with commas gives the string back |
| JavaStrings.PiecesOfJoin | src/org/tomdroid/Note.java:173 | splitting the comma-join of comma-free pieces gives the pieces back |
| JavaStrings.JavaSplitKeepsAllPieces | src/org/tomdroid/Note.java:358 | `split(",")` of a non-empty string that does not end in a comma keeps every piece, empty ones included |
| TagList.TagFragment | src/org/tomdroid/Note.java:355-364 | the `<tags>` fragment is empty exactly when the tag string is empty |
| TagList.BuildTagFragment | src/org/tomdroid/Note.java:355-364 | the loop builds a `<tags>` element holding one `<tag>` per piece of `split(",")`, in order, and builds nothing for empty tags |
| TagList.TagFragmentHasEveryPiece | src/org/tomdroid/Note.java:357-363 | for tags that do not end in a comma, the fragment holds one `<tag>` per comma-separated piece, in order |
| TagList.JsonTagsFragment | src/org/tomdroid/Note.java:355-364 | tags loaded by the JSON loop come out as one `<tag>` element per JSON tag |
| DateCleaner.FirstTerminator | src/org/tomdroid/Note.java:108 | finds the first line terminator, the first character `.` does not match |
| DateCleaner.LastOffset | src/org/tomdroid/Note.java:109 | finds the last position in a range where a `[-+]dd:dd` offset starts, or shows there is none |
| DateCleaner.OffsetAfter | src/org/tomdroid/Note.java:106-109 | with group 1 at `i`, the greedy `.+` leaves group 2 at the last matching offset before the first line terminator, or no match starts at `i` |
| DateCleaner.FindFrom | src/org/tomdroid/Note.java:106-109 | `find()` chooses the leftmost start, and for that start the greedy end, or reports that nothing matches |
| DateCleaner.Clean | src/org/tomdroid/Note.java:250-257 | without a match the text is stored as it is; with the `find()` match it is group 1 followed by group 2 |
| DateCleaner.CleanedShape | src/org/tomdroid/Note.java:253 | a cleaned date is 29 characters: the 23-character date and time to the millisecond, then the 6-character offset |
| DateCleaner.ShortTextUnchanged | src/org/tomdroid/Note.java:108 | a match needs at least 30 characters, because `.+` needs one, so shorter text is stored unchanged |
| DateCleaner.CleanIdempotent | src/org/tomdroid/Note.java:250-257 | cleaning a cleaned date changes nothing |
| DateCleaner.TomboyDateCleaned | src/org/tomdroid/Note.java:247-253 | a Tomboy date with seven sub-second digits loses the last four |
| DateExamples.TomboyExampleCleaned | src/org/tomdroid/Note.java:249-253 | `2010-01-23T12:07:38.7743020-05:00` is stored as `2010-01-23T12:07:38.774-05:00` |
| DateExamples.CanonicalExampleUnchanged | src/org/tomdroid/Note.java:248-257 | `2008-10-13T16:00:00.000-07:00` is stored unchanged |
| Notes.Note.SetLastChangeDate | src/org/tomdroid/Note.java:245-258 | stores the cleaned date in the last change date and changes no other field |
| Notes.Note.SetLastMetadataChangeDate | src/org/tomdroid/Note.java:272-285 | stores the cleaned date in the metadata change date and changes no other field |
| Notes.Note.SetCreateDate | src/org/tomdroid/Note.java:299-312 | stores the cleaned date in the creation date and changes no other field |
| DateCleaner.InsertOffsetColon | src/org/tomdroid/Note.java:118 | the result is one character longer, has `:` before the last two characters of the input, and deleting that colon gives the input back |
| DateCleaner.ColonedShape | src/org/tomdroid/Note.java:118 | a rendered Tomboy time with its colon inserted has the date-and-time at 0 and a `[-+]dd:dd` offset at 27 |
| DateCleaner.FormattedTimeCleans | src/org/tomdroid/Note.java:114-120 | a time `toTomboyFormat` renders, once its colon is in, cleans to three sub-second digits and the coloned offset |
| Notes.Note.SetFileName | src/org/tomdroid/Note.java:194-196 | sets the file name only |
| Notes.Note.SetTitle | src/org/tomdroid/Note.java:202-204 | sets the title only |
| Notes.Note.SetGuid | src/org/tomdroid/Note.java:326-328 | sets the guid only |
| Notes.Note.SetXmlContent | src/org/tomdroid/Note.java:342-344 | sets the XML content only |
| Notes.Note.GetLastChangeDate | src/org/tomdroid/Note.java:206-213 | a null last change date is first set to `epoch`; the stored text is returned and nothing else changes |
| Notes.Note.GetLastMetadataChangeDate | src/org/tomdroid/Note.java:215-222 | the same for the metadata change date |
| Notes.Note.GetCreateDate | src/org/tomdroid/Note.java:224-231 | the same for the creation date |
| Notes.XmlFileOf | src/org/tomdroid/Note.java:353-383 | the serialisation yields dates exactly when the title is set and all three dates, null ones read as `epoch`, render; then all three date fields are set |
| Notes.XmlFileText | src/org/tomdroid/Note.java:353-383 | there is a text exactly when the title is set and all three dates render, and it opens with the header |
| Notes.Note.GetXmlFileString | src/org/tomdroid/Note.java:353-383 | the new state and the returned text are those of the serialisation function, and an exception is `None` |
| Notes.XmlFileNeedsTitle | src/org/tomdroid/Note.java:366-367 | a null title throws before any date field is filled |
| Notes.XmlFileSucceeds | src/org/tomdroid/Note.java:370-372 | when every date renders, the three null dates become `epoch` and the file gets the three coloned renderings |
| Notes.XmlFileFailsOnBadDate | src/org/tomdroid/Note.java:206-213 | a last change date that does not parse throws, and leaves that field filled |
| Notes.XmlFileKeepsOtherFields | src/org/tomdroid/Note.java:353-383 | serialising changes no field other than the three dates |
| Notes.XmlFileTextIsNoteFile | src/org/tomdroid/Note.java:366-381 | the returned text is the `.note` file of the new state, and the content is left as it was |
| Notes.XmlFileTextOpening | src/org/tomdroid/Note.java:366-369 | the text opens with the fixed header and the escaped title, then the escaped title again, a blank line and the stored content |
| Notes.XmlFileTextClosing | src/org/tomdroid/Note.java:379-381 | the text ends with `</note>` and a newline |
| Notes.XmlFileStable | src/org/tomdroid/Note.java:206-231 | serialising a second time changes nothing and gives the same text |
| Notes.XmlFileIgnoresEpochWhenDated | src/org/tomdroid/Note.java:206-231 | once all three dates are set, `epoch` plays no part |
| NoteXml.EscapeAmp | src/org/tomdroid/Note.java:367 | escaping never shortens the title |
| NoteXml.NoteFile | src/org/tomdroid/Note.java:366-381 | the `.note` text opens with the header and ends with `</note>` and a newline |
| NoteXml.EscapeAmpRoundTrip | src/org/tomdroid/Note.java:367 | replacing `&amp;` by `&` undoes the title's escaping, for every title |
| NoteXml.EscapeAmpPlainTitle | src/org/tomdroid/Note.java:367 | a title without `&` is written as it is |
| NoteXml.FileHeadOpening | src/org/tomdroid/Note.java:366-369 | the head of the file opens with the header and the escaped title |
| NoteXml.NoteFileOpening | src/org/tomdroid/Note.java:366-369 | the whole file opens with the header and escaped title, then the second title copy and the content |
| NoteXml.FileTailCloses | src/org/tomdroid/Note.java:379-381 | the tail ends with `</note>` and a newline |
| NoteXml.NoteFileClosing | src/org/tomdroid/Note.java:379-381 | the file ends with the note's own tag fragment, its `pinned` and `open-on-startup` elements and `</note>` |
| NoteXml.PushFile | src/org/tomdroid/sync/sd/SdCardSyncService.java:349 | builds the pushed text in the order line 349 writes it; it has no contract of its own, its shape is stated by `PushFileOpening` and `PushFileClosing` |
| NoteXml.PushHeadOpening | src/org/tomdroid/sync/sd/SdCardSyncService.java:349 | the pushed text begins with the header and the unescaped title |
| NoteXml.PushFileOpening | src/org/tomdroid/sync/sd/SdCardSyncService.java:349 | the whole pushed text opens with the header, the title and `<text>` holding the content |
| NoteXml.PushTailCloses | src/org/tomdroid/sync/sd/SdCardSyncService.java:349 | the pushed tail ends with `</note>` and a newline |
| NoteXml.PushFileClosing | src/org/tomdroid/sync/sd/SdCardSyncService.java:349 | the pushed text ends with the merged tag fragment, `open-on-startup` as the literal `False`, and `</note>` |
| JavaStrings.IntToStringRoundTrip | src/org/tomdroid/Note.java:373-378 | every integer written into the file reads back as itself |
| JavaStrings.JavaStr | src/org/tomdroid/Note.java:369 | a non-null string is concatenated as it is |
| SyncModel.Accept | src/org/tomdroid/sync/sd/SdCardSyncService.java:143-147 | `NotesFilter.accept` holds exactly for a stem followed by `.note` |
| SyncModel.AcceptsNoteName | src/org/tomdroid/sync/sd/SdCardSyncService.java:143-147 | the filter accepts every name ending in `.note` |
| SyncModel.NoteFiles | src/org/tomdroid/sync/sd/SdCardSyncService.java:114 | a name is in the listing exactly when it is listed and accepted; the listing keeps the order of `listFiles`, as a subsequence of the names |
| SyncModel.ListedPaths | src/org/tomdroid/sync/sd/SdCardSyncService.java:114 | one path per listed name, in order, each the directory, `/` and the name |
| SyncModel.BaseName | src/org/tomdroid/sync/sd/SdCardSyncService.java:172 | `getName` holds no `/` and is no longer than the path |
| SyncModel.BaseNameIsLastComponent | src/org/tomdroid/sync/sd/SdCardSyncService.java:172 | the path is what precedes the name plus the name, and a `/` precedes the name unless the name is the whole path |
| SyncModel.GuidOf | src/org/tomdroid/sync/sd/SdCardSyncService.java:172 | the guid a worker derives holds no `/` and is no longer than the path |
| SyncModel.BaseNameOfListed | src/org/tomdroid/sync/sd/SdCardSyncService.java:172 | the name of a listed path is the listed name |
| SyncModel.DropNoteSuffix | src/org/tomdroid/sync/sd/SdCardSyncService.java:172 | `replace(".note", "")` of `stem.note` is `stem` when the stem holds no `.note` |
| SyncModel.GuidOfListedNote | src/org/tomdroid/sync/sd/SdCardSyncService.java:170-172 | the worker for `stem.note` names its note `stem` |
| SyncModel.PushPath | src/org/tomdroid/sync/sd/SdCardSyncService.java:277 | the file `pushNote` and `deleteNote` use is the one `sync` lists for the name `guid.note`, and the filter accepts it |
| SyncModel.PushedFileReadBack | src/org/tomdroid/sync/sd/SdCardSyncService.java:170-172 | for a guid without `/` or `.note`, the pushed file's name is `guid.note` and the worker reading it back derives the same guid |
| SyncModel.PullPath | src/org/tomdroid/sync/sd/SdCardSyncService.java:402 | `pullNote`'s path starts with the directory and ends in `.note` |
| SyncModel.PullPathDiffers | src/org/tomdroid/sync/sd/SdCardSyncService.java:402 | the two path strings differ by the `/` that `pullNote` leaves out after the directory |
| SyncModel.Dispatch | src/org/tomdroid/sync/sd/SdCardSyncService.java:128-136 | one worker per path |
| SyncModel.DispatchShape | src/org/tomdroid/sync/sd/SdCardSyncService.java:128-136 | the workers follow the paths in order, carry the caller's `push`, and exactly one, the one for the last path, is flagged last |
| SyncModel.DispatchStep | src/org/tomdroid/sync/sd/SdCardSyncService.java:128-136 | each loop turn adds the worker for the next path |
| SdCardSync.SdCardSyncService.constructor | src/org/tomdroid/sync/sd/SdCardSyncService.java:53-57 | no files counted, no loaded notes, no workers and no events yet |
| SdCardSync.SdCardSyncService.Sync | src/org/tomdroid/sync/sd/SdCardSyncService.java:91-137 | progress 0; without the directory, `NO_SD_CARD` and progress 100; without note files, `PARSING_NO_NOTES` and progress 100, no workers; otherwise the count is set and the dispatched workers are queued |
| SdCardSync.SdCardSyncService.Enqueue | src/org/tomdroid/sync/sd/SdCardSyncService.java:128-136 | the two loop parts queue exactly the dispatched workers |
| SyncModel.Fill | src/org/tomdroid/sync/sd/SdCardSyncService.java:197-205 | filling a note from a parse leaves its file name, guid and content alone |
| SdCardSync.ApplyParsed | src/org/tomdroid/sync/sd/SdCardSyncService.java:197-205 | the handler leaves the note in the filled state |
| SyncModel.Load | src/org/tomdroid/sync/sd/SdCardSyncService.java:168-228 | a note is loaded exactly when reading, parsing and the `note-content` match all succeed; it is named after the file and its content is the match |
| SyncModel.LoadWrappedNote | src/org/tomdroid/sync/sd/SdCardSyncService.java:217-228 | for a usual `.note` file the loaded content is the text between the tags |
| SdCardSync.SdCardSyncService.RunWorker | src/org/tomdroid/sync/sd/SdCardSyncService.java:168-229 | on failure, `PARSING_FAILED` and no note; on success, one new note equal to the loaded one is appended; both end with `onWorkDone`'s events |
| SdCardSync.SdCardSyncService.OnWorkDone | src/org/tomdroid/sync/sd/SdCardSyncService.java:231-235 | the last worker hands the loaded notes to `syncNotes`; others do nothing |
| SyncModel.WorkDoneSyncsOnceIfLast | src/org/tomdroid/sync/sd/SdCardSyncService.java:231-235 | `onWorkDone` calls `syncNotes` once for the last worker and never otherwise |
| SyncModel.NullListLastWorkerNeverSyncs | src/org/tomdroid/sync/sd/SdCardSyncService.java:227 | as written, with the list `null`, the last worker whose note loads never calls `syncNotes` |
| SyncModel.ListLastWorkerSyncsOnce | src/org/tomdroid/sync/sd/SdCardSyncService.java:227-235 | with a list there, the last worker whose note loads calls `syncNotes` once |
| SdCardSync.SdCardSyncService.RunCounted | src/org/tomdroid/sync/sd/SdCardSyncService.java:168-235 | a worker run, whichever path it takes, calls `syncNotes` once if it is last and never otherwise, and adds at most one note |
| SdCardSync.SdCardSyncService.RunPending | src/org/tomdroid/sync/sd/SdCardSyncService.java:132-136 | running the queue calls `syncNotes` once per flagged worker, so once per `sync`, keeps the notes loaded so far, and adds at most one note per worker |
| SyncModel.MergeFrom | src/org/tomdroid/sync/sd/SdCardSyncService.java:279-345 | a merge fails only with `PARSING_FAILED` or `NOTE_PUSH_ERROR` |
| SdCardSync.SdCardSyncService.MergeStored | src/org/tomdroid/sync/sd/SdCardSyncService.java:279-345 | computes the merge by filling a fresh note and running the tag loop |
| SyncModel.PushPlan | src/org/tomdroid/sync/sd/SdCardSyncService.java:257-364 | a push that writes does so to `NOTES_PATH/guid.note` with the directory there; otherwise it stops with `NO_SD_CARD`, `PARSING_FAILED` or `NOTE_PUSH_ERROR` |
| SyncModel.RenderedPlan | src/org/tomdroid/sync/sd/SdCardSyncService.java:279-359 | once the date is rendered, the push writes to its path or stops with `PARSING_FAILED` or `NOTE_PUSH_ERROR` |
| SyncModel.PushedNote | src/org/tomdroid/sync/sd/SdCardSyncService.java:279 | the pushed note changes at most by getting its last change date filled |
| SdCardSync.SdCardSyncService.PushNote | src/org/tomdroid/sync/sd/SdCardSyncService.java:257-364 | the note ends in the pushed state, and the log gets the push plan's events |
| SdCardSync.SdCardSyncService.PushRendered | src/org/tomdroid/sync/sd/SdCardSyncService.java:279-364 | once the date is rendered, the log gets the rendered plan's events and the note is left alone |
| SyncModel.OutcomeEvents | src/org/tomdroid/sync/sd/SdCardSyncService.java:347-364 | one or two events, the last a message; two exactly for a successful write, which are the write and then `NOTE_PUSHED` |
| SyncModel.PushEvents | src/org/tomdroid/sync/sd/SdCardSyncService.java:256-364 | without the directory the only event is `NO_SD_CARD`; any write is to the note's own file, with the directory there |
| SyncModel.OutcomeSendsOneMessage | src/org/tomdroid/sync/sd/SdCardSyncService.java:349-364 | every push outcome sends one message, as its last event; `NOTE_PUSHED` is sent only right after the file is written |
| SyncModel.PushedOnlyAfterWrite | src/org/tomdroid/sync/sd/SdCardSyncService.java:280-364 | a push sends exactly one message, and `NOTE_PUSHED` comes only right after a write |
| SyncModel.PushStopsOnUnreadableFile | src/org/tomdroid/sync/sd/SdCardSyncService.java:287-328 | a stored file that cannot be read or parsed stops the push with `PARSING_FAILED` before any write |
| SyncModel.PushNewNoteDefaults | src/org/tomdroid/sync/sd/SdCardSyncService.java:279-286 | without a stored file the text gets creation date = the last change date, cursor 0, size 0 by 0, window -1,-1 and no tags |
| SyncModel.PushKeepsStoredLayout | src/org/tomdroid/sync/sd/SdCardSyncService.java:330-345 | with a stored, parseable file the creation date, cursor, size, window and tags come from the stored note |
| SyncModel.PushFailsWithoutStoredCreateDate | src/org/tomdroid/sync/sd/SdCardSyncService.java:330 | a stored note without a creation date makes the push fail with `NOTE_PUSH_ERROR` |
| SyncModel.PushedTextShape | src/org/tomdroid/sync/sd/SdCardSyncService.java:349 | every pushed text opens with the header and the note's unescaped title, and ends with `</note>` |
| SyncModel.DeleteEvents | src/org/tomdroid/sync/sd/SdCardSyncService.java:367-381 | a delete sends exactly one message |
| SdCardSync.SdCardSyncService.DeleteNote | src/org/tomdroid/sync/sd/SdCardSyncService.java:367-381 | calls `delete` on `NOTES_PATH/guid.note` and sends `NOTE_DELETED`, ignoring its result; `NOTE_DELETE_ERROR` when it throws |
| SdCardSync.SdCardSyncService.PullNote | src/org/tomdroid/sync/sd/SdCardSyncService.java:383-406 | without the directory, `NO_SD_CARD` and no worker; otherwise one worker, flagged last and not pushing, for the path without a `/` |
| NoteContent.LowerAscii | src/org/tomdroid/sync/sd/SdCardSyncService.java:54 | CASE_INSENSITIVE folds ASCII letters only |
| NoteContent.FirstGt | src/org/tomdroid/sync/sd/SdCardSyncService.java:54 | `[^>]+` runs to the first `>` |
| NoteContent.GtDetermined | src/org/tomdroid/sync/sd/SdCardSyncService.java:54 | the `>` that ends the opening tag is fixed by where the tag starts |
| NoteContent.LastClose | src/org/tomdroid/sync/sd/SdCardSyncService.java:54 | finds the last closing tag in a range, or shows there is none |
| NoteContent.CloseAfter | src/org/tomdroid/sync/sd/SdCardSyncService.java:54 | for an opening tag, the greedy `(.*)` ends at the last closing tag after its `>`, or no match starts there |
| NoteContent.FindFrom | src/org/tomdroid/sync/sd/SdCardSyncService.java:217-218 | `find()` takes the leftmost opening tag that starts a match |
| NoteContent.Extract | src/org/tomdroid/sync/sd/SdCardSyncService.java:217-225 | no content exactly when the pattern matches nowhere |
| NoteContent.FirstMatchUnique | src/org/tomdroid/sync/sd/SdCardSyncService.java:217-218 | `find()` reports one match only |
| NoteContent.ExtractIsFirstMatch | src/org/tomdroid/sync/sd/SdCardSyncService.java:217-219 | group 1 is the text between the leftmost opening tag's `>` and the last closing tag |
| NoteContent.ExtractBetweenPlainText | src/org/tomdroid/sync/sd/SdCardSyncService.java:217-219 | with nothing tag-like outside, group 1 is what lies between the tags |
| NoteContent.ExtractWrapped | src/org/tomdroid/sync/sd/SdCardSyncService.java:217-219 | for the usual shape of a `.note` file the content is exactly the text between the tags, newlines included |
| NoteContent.BareOpenTagNotMatched | src/org/tomdroid/sync/sd/SdCardSyncService.java:54 | `<note-content>` with nothing before its `>` does not match |
| NoteContent.UpperCaseTagsMatch | src/org/tomdroid/sync/sd/SdCardSyncService.java:54 | upper- and mixed-case tags match |

## Left out

- File I/O is left out and modelled as oracles:
  - `readFile`'s buffer loop, `exists`, `mkdir`, `listFiles`, `createNewFile`, the writer and `File.delete` are fields of `Env`;
  - a write is one atomic event, or a failure.
- `listFiles` returning `null`: the source would throw at line 115, before its own null check at line 118. The model's listing is always a sequence.
- Paths are plain string concatenation, as the source writes them. `java.io.File`'s normalisation is not modelled. `NOTES_PATH` is taken as given.
- Threads: `syncInThread`, the executor and the unsynchronised `ArrayList` are replaced by running the queued workers one after another, in dispatch order. Nothing is claimed about interleavings.
- The SAX parse through `NoteHandler` is not part of this model. It is the `parse` oracle, which returns, for each element, the value it stores or nothing.
- Android `Time`:
  - `parse3339` and `format3339` are the `stamp` and `render` oracles;
  - `SimpleDateFormat` is the `render` oracle, apart from the colon step;
  - "now" (`setToNow`) and the `Time` overloads of the setters are left out.
- `pushNote` formats the last change date three times (lines 279 and 349). The model uses one rendering for all three, as the oracle is deterministic.
- `fromJSON` is modelled only in its tag loop. The `optString`, `optInt` and `optBoolean` calls are foreign.
- The `ErrorList` payload sent with `PARSING_FAILED` is left out. The event records the message only.
- `setSyncProgress`, `sendMessage` and `syncNotes` are entries in the event log. The superclass, the `Handler` and the UI are not modelled.
- Also not modelled:
  - `getNoteContent`, `toString`, the display constants, `getUrl`/`setUrl`, `getDbId`/`setDbId`;
  - the constant methods `getName`, `needs*` and `getDescriptionAsId`.
- `null` arguments to the setters and to `addTag`/`removeTag` are not modelled. Only the note's own fields may be null.
- The 32-bit width of the `int` fields is carried by the `Int32` type. No arithmetic is done on them.
- SyncModel.PullPathDiffers: shows only that the two path strings differ. Whether they name different files depends on `NOTES_PATH` and on `java.io.File` normalisation, neither of which is modelled: when `NOTES_PATH` ends in `/`, the two paths name the same file.
- SdCardSync.SdCardSyncService.RunPending: states counts and a prefix of the loaded notes rather than the whole list, which `RunWorker` states for each worker.

## Findings

| source | as written | input that shows it | evidently intended | confidence | as-written member | corrected member |
|---|---|---|---|---|---|---|
| src/org/tomdroid/sync/sd/SdCardSyncService.java:227 | `syncableNotes` is declared at line 57 and never assigned, so `add` at line 227 throws a `NullPointerException` out of `run` and `onWorkDone` is not reached | a `sync` whose last dispatched file is a readable `.note` file: the last worker throws and `syncNotes` is never called | the list initialised empty, so the last worker hands the loaded notes to `syncNotes` | not executed | SyncModel.NullListLastWorkerNeverSyncs | SyncModel.ListLastWorkerSyncsOnce |
| src/org/tomdroid/Note.java:177 | `removeTag` appends each remaining piece with no separator, so the remaining tags run together | tags `work,home`, remove `x`: the tags become `workhome` | the remaining pieces re-joined with commas, leaving `work,home` | not executed | TagExamples.RemoveAbsentTagExample | TagList.RemoveIntendedAbsentIsNoOp |
