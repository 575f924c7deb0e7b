/** The two `.note` texts the core writes: the one `getXmlFileString`
    returns (Note.java lines 353-383) and the one `pushNote` writes to the
    card (SdCardSyncService.java line 349). Both are plain concatenations;
    the dates arrive already rendered. */
module NoteXml {

  import opened Wrappers
  import opened JavaStrings
  import opened TagList
  import opened NoteRecord

  /** The XML declaration and the opening `<note>` tag both texts start with. */
  const XmlHeader: string :=
    "<?xml version=\"1.0\" encoding=\"utf-8\"?>\n<note version=\"0.3\" xmlns:link=\"http://beatniksoftware.com/tomboy/link\" xmlns:size=\"http://beatniksoftware.com/tomboy/size\" xmlns=\"http://beatniksoftware.com/tomboy\">"

  // ---------------------------------------------------------------------
  // Escaping the title
  // ---------------------------------------------------------------------

  /** `title.replace("&", "&amp;")`. */
  function EscapeAmp(t: string): (r: string)
    ensures |r| >= |t|
  {
    Replace(t, "&", "&amp;")
  }

  /** The inverse rewrite, `replace("&amp;", "&")`. */
  function UnescapeAmp(t: string): string
  {
    Replace(t, "&amp;", "&")
  }

  lemma {:induction false} NoAmpUnchanged(t: string, target: string, repl: string)
    requires |target| > 0 && target[0] == '&' && '&' !in t
    ensures Replace(t, target, repl) == t
    decreases |t|
  {
    if |t| >= |target| {
      assert t[..|target|][0] == t[0];
      NoAmpUnchanged(t[1..], target, repl);
      assert [t[0]] + t[1..] == t;
    }
  }

  lemma EscapeStep(t: string)
    requires t != []
    ensures EscapeAmp(t) == (if t[0] == '&' then "&amp;" else [t[0]]) + EscapeAmp(t[1..])
  {
    assert t[..1] == [t[0]];
  }

  lemma UnescapeAmpFirst(rest: string)
    ensures UnescapeAmp("&amp;" + rest) == "&" + UnescapeAmp(rest)
  {
    var s := "&amp;" + rest;
    assert s[..5] == "&amp;";
    assert s[5..] == rest;
  }

  lemma UnescapePlainFirst(c: char, rest: string)
    requires c != '&'
    ensures UnescapeAmp([c] + rest) == [c] + UnescapeAmp(rest)
  {
    var s := [c] + rest;
    assert s[1..] == rest;
    if |s| >= 5 {
      assert s[..5][0] == c;
    }
  }

  /** Unescaping the escaped title gives the title back, whatever it holds
      (`&amp;` included), so the escaping loses nothing. */
  lemma {:induction false} EscapeAmpRoundTrip(t: string)
    ensures UnescapeAmp(EscapeAmp(t)) == t
  {
    if t != [] {
      EscapeStep(t);
      EscapeAmpRoundTrip(t[1..]);
      if t[0] == '&' {
        UnescapeAmpFirst(EscapeAmp(t[1..]));
      } else {
        UnescapePlainFirst(t[0], EscapeAmp(t[1..]));
      }
      assert [t[0]] + t[1..] == t;
    }
  }

  /** A title without `&` is written as it is. */
  lemma EscapeAmpPlainTitle(t: string)
    requires '&' !in t
    ensures EscapeAmp(t) == t
  {
    NoAmpUnchanged(t, "&", "&amp;");
  }

  // ---------------------------------------------------------------------
  // getXmlFileString
  // ---------------------------------------------------------------------

  /** One element on its own line, one tab in: `\n\t<name>value</name>`. */
  function Element(name: string, value: string): string
  {
    "\n\t<" + name + ">" + value + "</" + name + ">"
  }

  /** The rendered dates `getXmlFileString` puts in the file. */
  datatype NoteDates = NoteDates(lastChange: string, lastMetadataChange: string, create: string)

  /** From the header to the end of `<text>` (Note.java lines 366-369):
      the escaped title, then the escaped title again followed by two
      newlines as the start of `note-content`, then the stored content. */
  function FileHead(title: string, content: string): string
  {
    XmlHeader + Element("title", EscapeAmp(title))
    + "\n\t<text xml:space=\"preserve\">" + "<note-content version=\"0.1\">"
    + EscapeAmp(title) + "\n\n" + content + "</note-content>" + "</text>"
  }

  /** The three dates and the window geometry (Note.java lines 369-378). */
  function FileBody(dates: NoteDates, d: NoteData): string
  {
    Element("last-change-date", dates.lastChange)
    + Element("last-metadata-change-date", dates.lastMetadataChange)
    + Element("create-date", dates.create)
    + Element("cursor-position", IntToString(d.cursorPos))
    + Element("selection-bound-position", IntToString(d.selectionBoundPos))
    + Element("width", IntToString(d.width))
    + Element("height", IntToString(d.height))
    + Element("x", IntToString(d.x))
    + Element("y", IntToString(d.y))
  }

  /** The tags, the two flags and the closing tag (Note.java lines 379-381). */
  function FileTail(tagString: string, d: NoteData): string
  {
    tagString
    + Element("pinned", BoolToString(d.pinned))
    + Element("open-on-startup", BoolToString(d.openOnStartup))
    + NoteClose
  }

  /** The closing tag and the final newline. */
  const NoteClose: string := "\n</note>\n"

  /** The text `getXmlFileString` returns for a note whose title is `title`
      (the source dereferences the title, so it must not be null). */
  function NoteFile(title: string, dates: NoteDates, d: NoteData): (r: string)
    ensures XmlHeader <= r && EndsWith(r, NoteClose)
  {
    var head := FileHead(title, JavaStr(d.xmlContent));
    var body := FileBody(dates, d);
    var tail := FileTail(TagFragment(d.tags), d);
    FileHeadOpening(title, JavaStr(d.xmlContent));
    OpensAndCloses(head, body, tail, Element("title", EscapeAmp(title)));
    FileTailCloses(TagFragment(d.tags), d);
    head + body + tail
  }

  /** `a + b + c` opens with whatever `a` opens with and closes with
      whatever `c` closes with. */
  lemma OpensAndCloses(a: string, b: string, c: string, t: string)
    requires XmlHeader + t <= a && EndsWith(c, NoteClose)
    ensures XmlHeader <= a + b + c && EndsWith(a + b + c, NoteClose)
  {
    PrefixOfThree(a, b, c);
    assert (a + b + c)[..|XmlHeader|] == a[..|XmlHeader|] == (XmlHeader + t)[..|XmlHeader|];
    assert (a + b + c)[|a + b + c| - |NoteClose|..] == c[|c| - |NoteClose|..];
  }

  lemma PrefixOfThree(a: string, b: string, c: string)
    ensures a <= a + b + c
  {
    assert (a + b + c)[..|a|] == a;
  }

  lemma PrefixTransitive(a: string, b: string, c: string)
    requires a <= b && b <= c
    ensures a <= c
  {
    assert c[..|a|] == c[..|b|][..|a|];
  }

  lemma SuffixOfConcat(a: string, b: string)
    ensures EndsWith(a + b, b)
  {
    assert (a + b)[|a|..] == b;
  }

  lemma SuffixTransitive(a: string, b: string, c: string)
    requires EndsWith(a, b) && EndsWith(b, c)
    ensures EndsWith(a, c)
  {
    assert a[|a| - |c|..] == b[|b| - |c|..];
  }

  lemma FileHeadOpening(title: string, content: string)
    ensures XmlHeader + Element("title", EscapeAmp(title)) <= FileHead(title, content)
  {
  }

  /** The file opens with the header and the escaped title, and the same
      escaped title comes again at the start of `note-content`, followed by
      two newlines and the stored content. */
  lemma NoteFileOpening(title: string, dates: NoteDates, d: NoteData)
    ensures XmlHeader + Element("title", EscapeAmp(title)) <= NoteFile(title, dates, d)
    ensures FileHead(title, JavaStr(d.xmlContent)) <= NoteFile(title, dates, d)
  {
    var head := FileHead(title, JavaStr(d.xmlContent));
    FileHeadOpening(title, JavaStr(d.xmlContent));
    PrefixOfThree(head, FileBody(dates, d), FileTail(TagFragment(d.tags), d));
    PrefixTransitive(XmlHeader + Element("title", EscapeAmp(title)), head, NoteFile(title, dates, d));
  }

  lemma FileTailCloses(tagString: string, d: NoteData)
    ensures EndsWith(FileTail(tagString, d), NoteClose)
  {
    SuffixOfConcat(tagString + Element("pinned", BoolToString(d.pinned))
      + Element("open-on-startup", BoolToString(d.openOnStartup)), NoteClose);
  }

  /** The file ends with the tag fragment, the `pinned` and
      `open-on-startup` elements, and `</note>` with a final newline. */
  lemma NoteFileClosing(title: string, dates: NoteDates, d: NoteData)
    ensures EndsWith(NoteFile(title, dates, d), FileTail(TagFragment(d.tags), d))
    ensures EndsWith(NoteFile(title, dates, d), NoteClose)
  {
    var tail := FileTail(TagFragment(d.tags), d);
    SuffixOfConcat(FileHead(title, JavaStr(d.xmlContent)) + FileBody(dates, d), tail);
    FileTailCloses(TagFragment(d.tags), d);
    SuffixTransitive(NoteFile(title, dates, d), tail, NoteClose);
  }

  // ---------------------------------------------------------------------
  // pushNote's output
  // ---------------------------------------------------------------------

  /** The values `pushNote` merges into the text it writes. */
  datatype PushFields = PushFields(
    createDate: string,
    cursorPos: Int32,
    width: Int32,
    height: Int32,
    x: Int32,
    y: Int32,
    tagString: string)

  /** `pushNote`'s text (SdCardSyncService.java line 349): the title as it
      is, the content directly inside `<text>`, the note's last change date
      in BOTH change-date elements, no `pinned` and no
      `selection-bound-position`, and `open-on-startup` always `False`. */
  function PushFile(title: string, content: string, lastChange: string, f: PushFields): string
  {
    PushHead(title, content) + PushBody(lastChange, f) + PushTail(f.tagString)
  }

  /** The dates and the window geometry, in the order line 349 writes them. */
  function PushBody(lastChange: string, f: PushFields): string
  {
    Element("last-change-date", lastChange)
    + Element("last-metadata-change-date", lastChange)
    + Element("create-date", f.createDate)
    + Element("cursor-position", IntToString(f.cursorPos))
    + Element("width", IntToString(f.width))
    + Element("height", IntToString(f.height))
    + Element("x", IntToString(f.x))
    + Element("y", IntToString(f.y))
  }

  /** The header, the title unescaped, and `<text>` with the content. */
  function PushHead(title: string, content: string): string
  {
    XmlHeader + Element("title", title) + "\n\t<text xml:space=\"preserve\">" + content + "</text>"
  }

  /** The tag fragment, `open-on-startup` with the literal `False`, and the
      closing tag. */
  function PushTail(tagString: string): string
  {
    tagString + Element("open-on-startup", "False") + NoteClose
  }

  lemma PushHeadOpening(title: string, content: string)
    ensures XmlHeader + Element("title", title) <= PushHead(title, content)
  {
  }

  /** The pushed text opens with the header and the unescaped title, then
      the content directly inside `<text>`. */
  lemma PushFileOpening(title: string, content: string, lastChange: string, f: PushFields)
    ensures XmlHeader + Element("title", title) <= PushFile(title, content, lastChange, f)
    ensures PushHead(title, content) <= PushFile(title, content, lastChange, f)
  {
    var head := PushHead(title, content);
    PushHeadOpening(title, content);
    PrefixOfThree(head, PushBody(lastChange, f), PushTail(f.tagString));
    PrefixTransitive(XmlHeader + Element("title", title), head, PushFile(title, content, lastChange, f));
  }

  lemma PushTailCloses(tagString: string)
    ensures EndsWith(PushTail(tagString), NoteClose)
  {
    SuffixOfConcat(tagString + Element("open-on-startup", "False"), NoteClose);
  }

  /** The pushed text ends with the tag fragment, the `open-on-startup`
      element holding the literal `False`, and `</note>` with a final
      newline. */
  lemma PushFileClosing(title: string, content: string, lastChange: string, f: PushFields)
    ensures EndsWith(PushFile(title, content, lastChange, f), PushTail(f.tagString))
    ensures EndsWith(PushFile(title, content, lastChange, f), NoteClose)
  {
    SuffixOfConcat(PushHead(title, content) + PushBody(lastChange, f), PushTail(f.tagString));
    PushTailCloses(f.tagString);
    SuffixTransitive(PushFile(title, content, lastChange, f), PushTail(f.tagString), NoteClose);
  }
}
