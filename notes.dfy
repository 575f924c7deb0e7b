/** The `Note` entity (Note.java): its fields, the tag and date setters,
    the tag loop of `fromJSON`, and `getXmlFileString` together with the
    date getters it calls. */
module Notes {

  import opened Wrappers
  import opened JavaStrings
  import opened DateCleaner
  import opened TagList
  import opened NoteRecord
  import opened NoteXml

  /** A `Time` rendering supplied by the caller: `parse3339` of a stored
      date followed by the `SimpleDateFormat` output of `toTomboyFormat`
      (before the colon step), or `None` when `parse3339` throws
      `TimeFormatException`. */
  type Renderer = string -> Option<FormattedTime>

  /** What `getXmlFileString` does to a note in state `d`: the new state,
      and the three rendered dates when no exception is thrown (`None`
      otherwise). The title is dereferenced first, so a null title throws
      before anything is written. Each date getter then stores `epoch` (the
      RFC 3339 text of a `new Time()`) in a null date field BEFORE parsing
      it, so a parse failure leaves the fields filled so far behind. */
  function XmlFileOf(d: NoteData, epoch: string, render: Renderer): (r: (NoteData, Option<NoteDates>))
    ensures r.1.Some? ==> d.title.Some?
    ensures r.1.Some? ==>
      r.0.lastChangeDate.Some? && r.0.lastMetadataChangeDate.Some? && r.0.createDate.Some?
    ensures r.1.Some? <==> (d.title.Some? && render(d.lastChangeDate.GetOr(epoch)).Some? &&
      render(d.lastMetadataChangeDate.GetOr(epoch)).Some? && render(d.createDate.GetOr(epoch)).Some?)
  {
    if d.title.None? then (d, None)
    else
      var lc := d.lastChangeDate.GetOr(epoch);
      var d1 := d.(lastChangeDate := Some(lc));
      match render(lc)
      case None => (d1, None)
      case Some(t1) =>
        var mc := d.lastMetadataChangeDate.GetOr(epoch);
        var d2 := d1.(lastMetadataChangeDate := Some(mc));
        match render(mc)
        case None => (d2, None)
        case Some(t2) =>
          var cc := d.createDate.GetOr(epoch);
          var d3 := d2.(createDate := Some(cc));
          match render(cc)
          case None => (d3, None)
          case Some(t3) =>
            (d3, Some(NoteDates(InsertOffsetColon(t1), InsertOffsetColon(t2), InsertOffsetColon(t3))))
  }

  /** The text `getXmlFileString` returns from state `d` (`None`: it throws). */
  function XmlFileText(d: NoteData, epoch: string, render: Renderer): (r: Option<string>)
    ensures r.Some? <==> (d.title.Some? && render(d.lastChangeDate.GetOr(epoch)).Some? &&
      render(d.lastMetadataChangeDate.GetOr(epoch)).Some? && render(d.createDate.GetOr(epoch)).Some?)
    ensures r.Some? ==> XmlHeader <= r.value
  {
    var st := XmlFileOf(d, epoch, render);
    if st.1.Some? then Some(NoteFile(d.title.value, st.1.value, st.0)) else None
  }

  /** A mutable note. Every String field may be null (`None`). */
  class Note {
    var xmlContent: Option<string>
    var url: Option<string>
    var fileName: Option<string>
    var title: Option<string>
    var tags: string
    var lastChangeDate: Option<string>
    var createDate: Option<string>
    var lastMetadataChangeDate: Option<string>
    var dbId: Int32
    var cursorPos: Int32
    var selectionBoundPos: Int32
    var height: Int32
    var width: Int32
    var x: Int32
    var y: Int32
    var openOnStartup: bool
    var pinned: bool
    var guid: Option<string>
    var lastSync: bool

    /** The note's fields as a value. */
    function Snapshot(): NoteData
      reads this
    {
      NoteData(xmlContent, url, fileName, title, tags, lastChangeDate, createDate,
        lastMetadataChangeDate, dbId, cursorPos, selectionBoundPos, height, width,
        x, y, openOnStartup, pinned, guid, lastSync)
    }

    /** `new Note()`: tags empty, cursor and selection 0, size 0 by 0, window
        at (-1, -1), not pinned, not opened on startup. */
    constructor ()
      ensures Snapshot() == Fresh
      ensures tags == "" && cursorPos == 0 && selectionBoundPos == 0 && width == 0 && height == 0
      ensures x == -1 && y == -1 && !pinned && !openOnStartup
    {
      xmlContent, url, fileName, title := None, None, None, None;
      lastChangeDate, createDate, lastMetadataChangeDate := None, None, None;
      dbId, cursorPos, selectionBoundPos, height, width := 0, 0, 0, 0, 0;
      x, y := -1, -1;
      openOnStartup, pinned, lastSync := false, false, false;
      guid := None;
      tags := "";
    }

    /** `getTags`. */
    function Tags(): (r: string)
      reads this
      ensures r == Snapshot().tags
    {
      tags
    }

    /** `setTags`. */
    method SetTags(newTags: string)
      modifies this
      ensures Snapshot() == old(Snapshot()).(tags := newTags)
    {
      tags := newTags;
    }

    /** `addTag`: the tag is appended after a comma, or becomes the whole
        tag string when there were none; nothing is removed or merged. */
    method AddTag(tag: string)
      modifies this
      ensures Snapshot() == old(Snapshot()).(tags := WithTag(old(tags), tag))
      ensures old(tags) == "" ==> tags == tag
      ensures old(tags) != "" ==> tags == old(tags) + "," + tag
    {
      if |tags| > 0 {
        tags := tags + "," + tag;
      } else {
        tags := tag;
      }
    }

    /** `removeTag`: the pieces other than `tag`, glued together in order
        with no separator. */
    method RemoveTag(tag: string)
      modifies this
      ensures Snapshot() == old(Snapshot()).(tags := Removed(old(tags), tag))
    {
      var taga := TextSplit(tags);
      var newTags := "";
      for i := 0 to |taga|
        invariant Snapshot() == old(Snapshot())
        invariant newTags == Concat(Without(taga[..i], tag))
      {
        assert taga[..i + 1] == taga[..i] + [taga[i]];
        RemovedSnoc(taga[..i], taga[i], tag);
        if taga[i] != tag {
          newTags := newTags + taga[i];
        }
      }
      assert taga[..|taga|] == taga;
      tags := newTags;
    }

    /** `setLastChangeDate(String)`: stores the cleaned date; no other
        field changes. */
    method SetLastChangeDate(text: string)
      modifies this
      ensures Snapshot() == old(Snapshot()).(lastChangeDate := Some(Clean(text)))
    {
      lastChangeDate := Some(Clean(text));
    }

    /** `setLastMetadataChangeDate(String)`: the same cleaning, into its own
        field only. */
    method SetLastMetadataChangeDate(text: string)
      modifies this
      ensures Snapshot() == old(Snapshot()).(lastMetadataChangeDate := Some(Clean(text)))
    {
      lastMetadataChangeDate := Some(Clean(text));
    }

    /** `setCreateDate(String)`: the same cleaning, into its own field only. */
    method SetCreateDate(text: string)
      modifies this
      ensures Snapshot() == old(Snapshot()).(createDate := Some(Clean(text)))
    {
      createDate := Some(Clean(text));
    }

    method SetFileName(name: string)
      modifies this
      ensures Snapshot() == old(Snapshot()).(fileName := Some(name))
    {
      fileName := Some(name);
    }

    method SetGuid(id: string)
      modifies this
      ensures Snapshot() == old(Snapshot()).(guid := Some(id))
    {
      guid := Some(id);
    }

    method SetTitle(text: string)
      modifies this
      ensures Snapshot() == old(Snapshot()).(title := Some(text))
    {
      title := Some(text);
    }

    method SetXmlContent(text: string)
      modifies this
      ensures Snapshot() == old(Snapshot()).(xmlContent := Some(text))
    {
      xmlContent := Some(text);
    }

    /** The tag loop of `fromJSON`: the tags are reset, then each JSON tag is
        appended followed by a comma; a missing `tags` array leaves them
        empty. */
    method FromJsonTags(jtags: Option<seq<string>>)
      modifies this
      ensures Snapshot() == old(Snapshot()).(tags := Terminated(jtags.GetOr([])))
    {
      tags := "";
      if jtags.Some? {
        var ts := jtags.value;
        for i := 0 to |ts|
          invariant Snapshot() == old(Snapshot()).(tags := Terminated(ts[..i]))
        {
          assert ts[..i + 1][..i] == ts[..i];
          tags := tags + ts[i] + ",";
        }
        assert ts[..|ts|] == ts;
      }
    }

    /** `getLastChangeDate`: a null field is first set to `epoch`; the
        stored text is what gets parsed. */
    method GetLastChangeDate(epoch: string) returns (stamp: string)
      modifies this
      ensures stamp == old(lastChangeDate).GetOr(epoch)
      ensures Snapshot() == old(Snapshot()).(lastChangeDate := Some(stamp))
    {
      if lastChangeDate.None? {
        lastChangeDate := Some(epoch);
      }
      stamp := lastChangeDate.value;
    }

    /** `getLastMetadataChangeDate`, likewise. */
    method GetLastMetadataChangeDate(epoch: string) returns (stamp: string)
      modifies this
      ensures stamp == old(lastMetadataChangeDate).GetOr(epoch)
      ensures Snapshot() == old(Snapshot()).(lastMetadataChangeDate := Some(stamp))
    {
      if lastMetadataChangeDate.None? {
        lastMetadataChangeDate := Some(epoch);
      }
      stamp := lastMetadataChangeDate.value;
    }

    /** `getCreateDate`, likewise. */
    method GetCreateDate(epoch: string) returns (stamp: string)
      modifies this
      ensures stamp == old(createDate).GetOr(epoch)
      ensures Snapshot() == old(Snapshot()).(createDate := Some(stamp))
    {
      if createDate.None? {
        createDate := Some(epoch);
      }
      stamp := createDate.value;
    }

    /** `getXmlFileString`. `None` is an exception: a null title, or a date
        `parse3339` rejects. */
    method GetXmlFileString(epoch: string, render: Renderer) returns (r: Option<string>)
      modifies this
      ensures Snapshot() == XmlFileOf(old(Snapshot()), epoch, render).0
      ensures r == XmlFileText(old(Snapshot()), epoch, render)
    {
      var tagString := BuildTagFragment(tags);
      if title.None? {
        return None;
      }
      var name := title.value;
      var lc := GetLastChangeDate(epoch);
      var t1 := render(lc);
      if t1.None? {
        return None;
      }
      var mc := GetLastMetadataChangeDate(epoch);
      var t2 := render(mc);
      if t2.None? {
        return None;
      }
      var cc := GetCreateDate(epoch);
      var t3 := render(cc);
      if t3.None? {
        return None;
      }
      var dates := NoteDates(InsertOffsetColon(t1.value), InsertOffsetColon(t2.value), InsertOffsetColon(t3.value));
      r := Some(FileHead(name, JavaStr(xmlContent)) + FileBody(dates, Snapshot()) + FileTail(tagString, Snapshot()));
    }
  }

  // ---------------------------------------------------------------------
  // Properties of getXmlFileString
  // ---------------------------------------------------------------------

  /** A note without a title cannot be serialised, and nothing is written
      to it. */
  lemma XmlFileNeedsTitle(d: NoteData, epoch: string, render: Renderer)
    requires d.title.None?
    ensures XmlFileOf(d, epoch, render) == (d, None)
  {
  }

  /** When every date renders, the null dates have become `epoch`, no other
      field changed, and the rendered dates are the renderer's output for
      the stored dates with the colon put into each offset. */
  lemma XmlFileSucceeds(d: NoteData, epoch: string, render: Renderer)
    requires d.title.Some?
    requires render(d.lastChangeDate.GetOr(epoch)).Some?
    requires render(d.lastMetadataChangeDate.GetOr(epoch)).Some?
    requires render(d.createDate.GetOr(epoch)).Some?
    ensures XmlFileOf(d, epoch, render).0 ==
      d.(lastChangeDate := Some(d.lastChangeDate.GetOr(epoch)),
         lastMetadataChangeDate := Some(d.lastMetadataChangeDate.GetOr(epoch)),
         createDate := Some(d.createDate.GetOr(epoch)))
    ensures XmlFileOf(d, epoch, render).1 == Some(NoteDates(
      InsertOffsetColon(render(d.lastChangeDate.GetOr(epoch)).value),
      InsertOffsetColon(render(d.lastMetadataChangeDate.GetOr(epoch)).value),
      InsertOffsetColon(render(d.createDate.GetOr(epoch)).value)))
  {
  }

  /** When a date fails to parse, nothing is returned; a date getter that
      ran still filled its field. */
  lemma XmlFileFailsOnBadDate(d: NoteData, epoch: string, render: Renderer)
    requires d.title.Some?
    requires render(d.lastChangeDate.GetOr(epoch)).None?
    ensures XmlFileText(d, epoch, render).None?
    ensures XmlFileOf(d, epoch, render).0 == d.(lastChangeDate := Some(d.lastChangeDate.GetOr(epoch)))
  {
  }

  /** `getXmlFileString` writes only date fields. */
  lemma XmlFileKeepsOtherFields(d: NoteData, epoch: string, render: Renderer)
    ensures XmlFileOf(d, epoch, render).0 == d.(
      lastChangeDate := XmlFileOf(d, epoch, render).0.lastChangeDate,
      lastMetadataChangeDate := XmlFileOf(d, epoch, render).0.lastMetadataChangeDate,
      createDate := XmlFileOf(d, epoch, render).0.createDate)
  {
    var st := XmlFileOf(d, epoch, render).0;
    if d.title.Some? {
      var lc := d.lastChangeDate.GetOr(epoch);
      var mc := d.lastMetadataChangeDate.GetOr(epoch);
      if render(lc).None? {
        assert st == d.(lastChangeDate := Some(lc));
      } else if render(mc).None? {
        assert st == d.(lastChangeDate := Some(lc), lastMetadataChangeDate := Some(mc));
      } else {
        assert st == d.(lastChangeDate := Some(lc), lastMetadataChangeDate := Some(mc),
          createDate := Some(d.createDate.GetOr(epoch)));
      }
    }
  }

  /** The returned text is the `.note` file of the new state. */
  lemma XmlFileTextIsNoteFile(d: NoteData, epoch: string, render: Renderer)
    requires XmlFileText(d, epoch, render).Some?
    ensures d.title.Some? && XmlFileOf(d, epoch, render).1.Some?
    ensures XmlFileText(d, epoch, render).value
      == NoteFile(d.title.value, XmlFileOf(d, epoch, render).1.value, XmlFileOf(d, epoch, render).0)
    ensures XmlFileOf(d, epoch, render).0.xmlContent == d.xmlContent
  {
    XmlFileKeepsOtherFields(d, epoch, render);
  }

  /** The returned text opens with the header and the escaped title, and
      holds the stored content after the title's second copy. */
  lemma XmlFileTextOpening(d: NoteData, epoch: string, render: Renderer)
    requires XmlFileText(d, epoch, render).Some?
    ensures d.title.Some?
    ensures XmlHeader + Element("title", EscapeAmp(d.title.value)) <= XmlFileText(d, epoch, render).value
    ensures FileHead(d.title.value, JavaStr(d.xmlContent)) <= XmlFileText(d, epoch, render).value
  {
    XmlFileTextIsNoteFile(d, epoch, render);
    var st := XmlFileOf(d, epoch, render);
    NoteFileOpening(d.title.value, st.1.value, st.0);
  }

  /** The returned text ends with `</note>` and a newline. */
  lemma XmlFileTextClosing(d: NoteData, epoch: string, render: Renderer)
    requires XmlFileText(d, epoch, render).Some?
    ensures EndsWith(XmlFileText(d, epoch, render).value, NoteClose)
  {
    XmlFileTextIsNoteFile(d, epoch, render);
    var st := XmlFileOf(d, epoch, render);
    NoteFileClosing(d.title.value, st.1.value, st.0);
  }

  /** Serialising twice gives the same text the second time and changes
      nothing more: the getters only fill a date that is null. */
  lemma XmlFileStable(d: NoteData, epoch: string, render: Renderer)
    requires XmlFileOf(d, epoch, render).1.Some?
    ensures XmlFileOf(XmlFileOf(d, epoch, render).0, epoch, render) == XmlFileOf(d, epoch, render)
  {
    var d' := XmlFileOf(d, epoch, render).0;
    assert d'.lastChangeDate == Some(d.lastChangeDate.GetOr(epoch));
    assert d'.lastMetadataChangeDate == Some(d.lastMetadataChangeDate.GetOr(epoch));
    assert d'.createDate == Some(d.createDate.GetOr(epoch));
  }

  /** Once all three dates are set, the `epoch` argument plays no part. */
  lemma XmlFileIgnoresEpochWhenDated(d: NoteData, e1: string, e2: string, render: Renderer)
    requires d.lastChangeDate.Some? && d.lastMetadataChangeDate.Some? && d.createDate.Some?
    ensures XmlFileOf(d, e1, render) == XmlFileOf(d, e2, render)
  {
  }
}
