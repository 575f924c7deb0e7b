/** The two date strings quoted in the comments of Note.java (lines 248-249),
    run through the date cleaner. */
module DateExamples {

  import opened DateCleaner

  lemma ExampleShape(text: string, cleaned: string)
    requires text == "2010-01-23T12:07:38.7743020-05:00"
    requires cleaned == "2010-01-23T12:07:38.774-05:00"
    ensures |text| == 33 && StampAt(text, 0) && OffsetAt(text, 27)
    ensures DigitAt(text, 23) && DigitAt(text, 24) && DigitAt(text, 25) && DigitAt(text, 26)
    ensures text[..23] + text[27..] == cleaned
  {
    ExampleStamp(text);
    ExampleOffset(text);
    ExampleCut(text, cleaned);
  }

  lemma ExampleStamp(text: string)
    requires text == "2010-01-23T12:07:38.7743020-05:00"
    ensures StampAt(text, 0)
  {
    ExampleDate(text);
    ExampleClock(text);
  }

  lemma ExampleDate(text: string)
    requires text == "2010-01-23T12:07:38.7743020-05:00"
    ensures DateAt(text, 0) && text[10] == 'T'
  {
  }

  lemma ExampleClock(text: string)
    requires text == "2010-01-23T12:07:38.7743020-05:00"
    ensures ClockAt(text, 11)
  {
  }

  lemma ExampleOffset(text: string)
    requires text == "2010-01-23T12:07:38.7743020-05:00"
    ensures OffsetAt(text, 27)
    ensures DigitAt(text, 23) && DigitAt(text, 24) && DigitAt(text, 25) && DigitAt(text, 26)
  {
  }

  lemma ExampleCut(text: string, cleaned: string)
    requires text == "2010-01-23T12:07:38.7743020-05:00"
    requires cleaned == "2010-01-23T12:07:38.774-05:00"
    ensures text[..23] + text[27..] == cleaned
  {
  }

  /** Tomboy's seven-digit example loses its last four sub-second digits. */
  lemma TomboyExampleCleaned(text: string, cleaned: string)
    requires text == "2010-01-23T12:07:38.7743020-05:00"
    requires cleaned == "2010-01-23T12:07:38.774-05:00"
    ensures Clean(text) == cleaned
  {
    ExampleShape(text, cleaned);
    TomboyDateCleaned(text);
  }

  /** The canonical RFC 3339 example is stored unchanged. */
  lemma CanonicalExampleUnchanged(text: string)
    requires text == "2008-10-13T16:00:00.000-07:00"
    ensures Clean(text) == text
  {
    ShortTextUnchanged(text);
  }
}
