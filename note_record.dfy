/** The state of a Tomdroid note (Note.java lines 74-102) as a value. The
    rendered note text (`noteContent`) and the display constants are not
    part of it. */
module NoteRecord {

  import opened Wrappers

  /** A Java `int`. */
  type Int32 = x: int | -0x8000_0000 <= x < 0x8000_0000

  /** Every modelled field of a `Note`; a `null` String is `None`. */
  datatype NoteData = NoteData(
    xmlContent: Option<string>,
    url: Option<string>,
    fileName: Option<string>,
    title: Option<string>,
    tags: string,
    lastChangeDate: Option<string>,
    createDate: Option<string>,
    lastMetadataChangeDate: Option<string>,
    dbId: Int32,
    cursorPos: Int32,
    selectionBoundPos: Int32,
    height: Int32,
    width: Int32,
    x: Int32,
    y: Int32,
    openOnStartup: bool,
    pinned: bool,
    guid: Option<string>,
    lastSync: bool)

  /** The state of `new Note()`: every String null except `tags`, which is
      empty; the window position at -1; every other number 0; every flag
      false (Note.java lines 80-102 and 122-124). */
  const Fresh: NoteData := NoteData(
    None, None, None, None, "", None, None, None,
    0, 0, 0, 0, 0, -1, -1, false, false, None, false)
}
