/** The note's tags as the source keeps them: one comma-separated string
    (Note.java line 80). These are the string functions behind `addTag`,
    `removeTag`, the tag loop of `fromJSON` and the `<tags>` fragment that
    `getXmlFileString` and `pushNote` both build. */
module TagList {

  import opened JavaStrings

  // ---------------------------------------------------------------------
  // addTag
  // ---------------------------------------------------------------------

  /** What `addTag` leaves in the field (Note.java lines 164-169). */
  function WithTag(tags: string, tag: string): (r: string)
    ensures tags <= r && EndsWith(r, tag)
    ensures |r| == |tags| + |tag| + (if tags == "" then 0 else 1)
  {
    if |tags| > 0 then tags + "," + tag else tag
  }

  /** Adding a comma-free tag keeps every existing piece, in order, and
      puts the new tag last, whether or not it is already there. */
  lemma {:induction false} AddedTagIsLastPiece(tags: string, tag: string)
    requires ',' !in tag && (tags != "" || tag != "")
    ensures TextSplit(WithTag(tags, tag)) == TextSplit(tags) + [tag]
  {
    PiecesOfPlainWord(tag);
    if |tags| > 0 {
      PiecesAroundComma(tags, tag);
    }
  }

  /** `addTag` does not deduplicate: adding a tag that is present adds a
      second copy of it. */
  lemma AddTagKeepsDuplicates(tags: string, tag: string)
    requires tags == "work" && tag == "work"
    ensures TextSplit(WithTag(tags, tag)) == ["work", "work"]
  {
    AddedTagIsLastPiece(tags, tag);
    PiecesOfPlainWord(tags);
  }

  // ---------------------------------------------------------------------
  // removeTag
  // ---------------------------------------------------------------------

  /** The pieces that differ from `tag`, in their original order. */
  function Without(ps: seq<string>, tag: string): (r: seq<string>)
    ensures forall k :: 0 <= k < |r| ==> r[k] != tag && r[k] in ps
  {
    if ps == [] then []
    else
      var keep := if ps[|ps| - 1] != tag then [ps[|ps| - 1]] else [];
      Without(ps[..|ps| - 1], tag) + keep
  }

  /** What `removeTag` leaves in the field (Note.java lines 171-180): the
      pieces that differ from `tag`, concatenated WITHOUT a separator. */
  function Removed(tags: string, tag: string): (r: string)
    ensures ',' !in r
  {
    var kept := Without(TextSplit(tags), tag);
    ConcatCommaFree(kept);
    Concat(kept)
  }

  /** Concatenating comma-free pieces gives a comma-free string. */
  lemma {:induction false} ConcatCommaFree(ps: seq<string>)
    requires forall k :: 0 <= k < |ps| ==> ',' !in ps[k]
    ensures ',' !in Concat(ps)
  {
    if ps != [] {
      ConcatCommaFree(ps[..|ps| - 1]);
    }
  }

  lemma {:induction false} ConcatAppend(a: seq<string>, b: seq<string>)
    ensures Concat(a + b) == Concat(a) + Concat(b)
  {
    if b != [] {
      ConcatAppend(a, b[..|b| - 1]);
      assert (a + b)[..|a + b| - 1] == a + b[..|b| - 1];
    } else {
      assert a + b == a;
    }
  }

  /** One more piece: it is kept exactly when it differs from `tag`. */
  lemma RemovedSnoc(ps: seq<string>, p: string, tag: string)
    ensures Concat(Without(ps + [p], tag)) == Concat(Without(ps, tag)) + (if p != tag then p else "")
  {
    var all := ps + [p];
    assert all[..|all| - 1] == ps;
    var keep := if p != tag then [p] else [];
    ConcatAppend(Without(ps, tag), keep);
    assert Concat(keep) == (if p != tag then p else "") by {
      if p != tag {
        assert keep[..0] == [];
      }
    }
  }

  lemma {:induction false} WithoutAbsent(ps: seq<string>, tag: string)
    requires forall k :: 0 <= k < |ps| ==> ps[k] != tag
    ensures Without(ps, tag) == ps
  {
    if ps != [] {
      WithoutAbsent(ps[..|ps| - 1], tag);
    }
  }

  lemma DeleteCommaStep(s: string)
    requires s != []
    ensures Replace(s, ",", "") == (if s[0] == ',' then "" else [s[0]]) + Replace(s[1..], ",", "")
  {
    assert s[..1] == [s[0]];
  }

  lemma ConcatCons(p: string, ps: seq<string>)
    ensures Concat([p] + ps) == p + Concat(ps)
  {
    ConcatAppend([p], ps);
    assert Concat([p]) == p;
  }

  /** Concatenating the pieces of a string deletes its commas. */
  lemma {:induction false} ConcatPieces(s: string)
    ensures Concat(Pieces(s)) == Replace(s, ",", "")
  {
    if s != [] {
      ConcatPieces(s[1..]);
      DeleteCommaStep(s);
      var rest := Pieces(s[1..]);
      if s[0] == ',' {
        ConcatCons("", rest);
      } else {
        ConcatCons([s[0]] + rest[0], rest[1..]);
        ConcatCons(rest[0], rest[1..]);
        assert [rest[0]] + rest[1..] == rest;
      }
    }
  }

  /** Removing the only tag leaves the empty string. */
  lemma RemoveOnlyTag(tag: string)
    requires ',' !in tag
    ensures Removed(tag, tag) == ""
  {
    if tag != "" {
      PiecesOfPlainWord(tag);
    }
  }

  /** Removing a tag that is not there is NOT a no-op: every comma goes,
      because the remaining pieces are re-joined with no separator. */
  lemma RemoveAbsentTagDropsCommas(tags: string, tag: string)
    requires forall k :: 0 <= k < |TextSplit(tags)| ==> TextSplit(tags)[k] != tag
    ensures Removed(tags, tag) == Replace(tags, ",", "")
  {
    WithoutAbsent(TextSplit(tags), tag);
    if tags != "" {
      ConcatPieces(tags);
    }
  }

  /** Removing an absent tag from two tags glues the two together. */
  lemma {:induction false} RemoveAbsentFromTwo(a: string, b: string, tag: string)
    requires ',' !in a && ',' !in b && a != tag && b != tag
    ensures Removed(a + "," + b, tag) == a + b
  {
    PiecesAroundComma(a, b);
    PiecesOfPlainWord(a);
    PiecesOfPlainWord(b);
    var ps := TextSplit(a + "," + b);
    assert ps == [a, b];
    WithoutAbsent(ps, tag);
    assert Concat([a]) == a;
  }

  /** `removeTag` as evidently intended: the remaining pieces re-joined with
      the comma they were split on. */
  function RemovedIntended(tags: string, tag: string): string
  {
    Join(Without(TextSplit(tags), tag))
  }

  /** With the separator kept, removing an absent tag changes nothing. */
  lemma RemoveIntendedAbsentIsNoOp(tags: string, tag: string)
    requires forall k :: 0 <= k < |TextSplit(tags)| ==> TextSplit(tags)[k] != tag
    ensures RemovedIntended(tags, tag) == tags
  {
    WithoutAbsent(TextSplit(tags), tag);
    if tags != "" {
      JoinPieces(tags);
    }
  }

  lemma {:induction false} RemoveIntendedAbsentFromTwo(a: string, b: string, tag: string)
    requires ',' !in a && ',' !in b && a != tag && b != tag
    ensures RemovedIntended(a + "," + b, tag) == a + "," + b
  {
    PiecesAroundComma(a, b);
    PiecesOfPlainWord(a);
    PiecesOfPlainWord(b);
    var ps := TextSplit(a + "," + b);
    assert ps == [a, b];
    RemoveIntendedAbsentIsNoOp(a + "," + b, tag);
  }

  /** With the separator kept, the pieces after the removal are exactly the
      old pieces other than `tag`, in order; so `tag` is gone. */
  lemma RemoveIntendedPieces(tags: string, tag: string)
    requires Without(TextSplit(tags), tag) != []
    ensures Pieces(RemovedIntended(tags, tag)) == Without(TextSplit(tags), tag)
    ensures forall k :: 0 <= k < |Pieces(RemovedIntended(tags, tag))| ==>
      Pieces(RemovedIntended(tags, tag))[k] != tag
  {
    var kept := Without(TextSplit(tags), tag);
    assert forall k :: 0 <= k < |kept| ==> ',' !in kept[k];
    PiecesOfJoin(kept);
  }

  // ---------------------------------------------------------------------
  // fromJSON's tag loop
  // ---------------------------------------------------------------------

  /** What the tag loop of `fromJSON` builds (Note.java lines 138-144):
      every tag followed by a comma. */
  function Terminated(ts: seq<string>): (r: string)
    ensures r == "" <==> ts == []
    ensures ts != [] ==> EndsWith(r, ",")
    ensures |r| >= |ts|
  {
    if ts == [] then "" else Terminated(ts[..|ts| - 1]) + ts[|ts| - 1] + ","
  }

  lemma {:induction false} TerminatedIsJoinWithComma(ts: seq<string>)
    requires ts != []
    ensures Terminated(ts) == Join(ts) + ","
  {
    if |ts| > 1 {
      var init := ts[..|ts| - 1];
      TerminatedIsJoinWithComma(init);
      JoinSnoc(init, ts[|ts| - 1]);
      assert init + [ts[|ts| - 1]] == ts;
    }
  }

  /** `split(",")` of the string the JSON loop builds gives back the JSON
      tags: the trailing comma produces no extra piece. */
  lemma {:induction false} TerminatedPieces(ts: seq<string>)
    requires ts != []
    requires forall k :: 0 <= k < |ts| ==> ',' !in ts[k]
    ensures Pieces(Terminated(ts)) == ts + [""]
  {
    TerminatedIsJoinWithComma(ts);
    var joined := Join(ts);
    PiecesAroundComma(joined, "");
    PiecesOfJoin(ts);
    assert joined + "," + "" == Terminated(ts);
    PiecesOfPlainWord("");
  }

  lemma DropOneTrailingEmpty(ts: seq<string>)
    requires ts != [] && ts[|ts| - 1] != ""
    ensures DropTrailingEmpty(ts + [""]) == ts
  {
    var all := ts + [""];
    assert all[..|all| - 1] == ts;
  }

  lemma JsonTagsSplitBack(ts: seq<string>)
    requires ts != [] && ts[|ts| - 1] != ""
    requires forall k :: 0 <= k < |ts| ==> ',' !in ts[k]
    ensures JavaSplit(Terminated(ts)) == ts
  {
    TerminatedPieces(ts);
    DropOneTrailingEmpty(ts);
    var t := Terminated(ts);
    assert t[|t| - 1] == ',';
  }

  // ---------------------------------------------------------------------
  // The <tags> fragment of a .note file
  // ---------------------------------------------------------------------

  /** One `<tag>` element per string, in order. */
  function TagElements(ts: seq<string>): string
  {
    if ts == [] then ""
    else TagElements(ts[..|ts| - 1]) + "\n\t\t<tag>" + ts[|ts| - 1] + "</tag>"
  }

  /** The `<tags>` fragment that `getXmlFileString` (Note.java lines
      355-364) and `pushNote` (SdCardSyncService.java lines 337-345) build:
      nothing for an empty tag string, otherwise a `<tags>` element holding
      one `<tag>` per piece of `split(",")`. */
  function TagFragment(tags: string): (r: string)
    ensures r == "" <==> tags == ""
  {
    if |tags| > 0 then "\n\t<tags>" + TagElements(JavaSplit(tags)) + "\n\t</tags>" else ""
  }

  /** The tag loop itself. */
  method BuildTagFragment(tags: string) returns (fragment: string)
    ensures fragment == TagFragment(tags)
  {
    fragment := "";
    if |tags| > 0 {
      var tagsA := JavaSplit(tags);
      fragment := "\n\t<tags>";
      for i := 0 to |tagsA|
        invariant fragment == "\n\t<tags>" + TagElements(tagsA[..i])
      {
        assert tagsA[..i + 1][..i] == tagsA[..i];
        fragment := fragment + "\n\t\t<tag>" + tagsA[i] + "</tag>";
      }
      assert tagsA[..|tagsA|] == tagsA;
      fragment := fragment + "\n\t</tags>";
    }
  }

  /** When the tag string does not end with a comma, the fragment holds one
      `<tag>` element per comma-separated piece, in order. */
  lemma TagFragmentHasEveryPiece(tags: string)
    requires tags != "" && tags[|tags| - 1] != ','
    ensures TagFragment(tags) == "\n\t<tags>" + TagElements(Pieces(tags)) + "\n\t</tags>"
  {
    JavaSplitKeepsAllPieces(tags);
  }

  /** Tags loaded from JSON come out as one `<tag>` element per JSON tag. */
  lemma JsonTagsFragment(ts: seq<string>)
    requires ts != [] && ts[|ts| - 1] != ""
    requires forall k :: 0 <= k < |ts| ==> ',' !in ts[k]
    ensures TagFragment(Terminated(ts)) == "\n\t<tags>" + TagElements(ts) + "\n\t</tags>"
  {
    JsonTagsSplitBack(ts);
  }
}
