/** Concrete instances of the tag-string lemmas. */
module TagExamples {

  import opened TagList

  /** Removing `x`, which is not a tag, from `work,home` leaves `workhome`:
      the comma between the two remaining tags is lost. */
  lemma RemoveAbsentTagExample(tags: string, tag: string, result: string)
    requires tags == "work,home" && tag == "x" && result == "workhome"
    ensures Removed(tags, tag) == result
  {
    assert tags == "work" + "," + "home";
    assert result == "work" + "home";
    RemoveAbsentFromTwo("work", "home", tag);
  }

  /** The intended version leaves `work,home` as it was. */
  lemma RemoveAbsentTagIntendedExample(tags: string, tag: string)
    requires tags == "work,home" && tag == "x"
    ensures RemovedIntended(tags, tag) == tags
  {
    assert tags == "work" + "," + "home";
    RemoveIntendedAbsentFromTwo("work", "home", tag);
  }
}
