/** The note's date handling that is string logic: the "date cleaner" regular
    expression that cuts Tomboy's seven sub-second digits down to three
    (Note.java lines 104-109, used by the three string date setters), and the
    colon that `toTomboyFormat` inserts into the time-zone offset (line 118).

    The pattern is
        (\d{4}-\d{2}-\d{2}T\d{2}:\d{2}:\d{2}\.\d{3}) .+ ([-+]\d{2}:\d{2})
    applied with `Matcher.find()`: the match starts at the leftmost index
    where the whole pattern can match; from there the greedy `.+` (which
    does not cross a line terminator) makes the offset group the LAST one
    that can follow at least one further character. */
module DateCleaner {

  import opened Wrappers
  import opened JavaStrings

  /** `s[k]` exists and is an ASCII digit (`\d` without UNICODE_CHARACTER_CLASS). */
  predicate DigitAt(s: string, k: int)
  {
    0 <= k < |s| && IsDigit(s[k])
  }

  /** `\d{4}-\d{2}-\d{2}`: the calendar date, 10 characters from index `i`. */
  predicate DateAt(s: string, i: nat)
  {
    i + 10 <= |s| &&
    DigitAt(s, i) && DigitAt(s, i + 1) && DigitAt(s, i + 2) && DigitAt(s, i + 3) &&
    s[i + 4] == '-' && DigitAt(s, i + 5) && DigitAt(s, i + 6) &&
    s[i + 7] == '-' && DigitAt(s, i + 8) && DigitAt(s, i + 9)
  }

  /** `\d{2}:\d{2}:\d{2}\.\d{3}`: the time of day to the millisecond,
      12 characters from index `i`. */
  predicate ClockAt(s: string, i: nat)
  {
    i + 12 <= |s| &&
    DigitAt(s, i) && DigitAt(s, i + 1) && s[i + 2] == ':' &&
    DigitAt(s, i + 3) && DigitAt(s, i + 4) && s[i + 5] == ':' &&
    DigitAt(s, i + 6) && DigitAt(s, i + 7) && s[i + 8] == '.' &&
    DigitAt(s, i + 9) && DigitAt(s, i + 10) && DigitAt(s, i + 11)
  }

  /** Group 1 of the pattern, date `T` time, matches the 23 characters of `s`
      from index `i`. */
  predicate StampAt(s: string, i: nat)
  {
    i + 23 <= |s| && DateAt(s, i) && s[i + 10] == 'T' && ClockAt(s, i + 11)
  }

  /** Group 2 of the pattern, `[-+]\d{2}:\d{2}`, matches the 6 characters of
      `s` from index `p`. */
  predicate OffsetAt(s: string, p: nat)
  {
    p + 6 <= |s| &&
    (s[p] == '-' || s[p] == '+') &&
    DigitAt(s, p + 1) && DigitAt(s, p + 2) && s[p + 3] == ':' &&
    DigitAt(s, p + 4) && DigitAt(s, p + 5)
  }

  /** The characters Java's `.` does not match (no DOTALL, no UNIX_LINES). */
  predicate IsLineTerminator(c: char)
  {
    c == '\n' || c == '\r' || c == '\U{85}' || c == '\U{2028}' || c == '\U{2029}'
  }

  /** The whole pattern matches with group 1 at `i` and group 2 at `p`: the
      `.+` between them covers `s[i + 23..p]`, at least one character and no
      line terminator. */
  ghost predicate IsMatch(s: string, i: nat, p: nat)
  {
    StampAt(s, i) && i + 24 <= p && OffsetAt(s, p) &&
    forall k :: i + 23 <= k < p ==> !IsLineTerminator(s[k])
  }

  ghost predicate NoMatch(s: string)
  {
    forall i: nat, p: nat :: !IsMatch(s, i, p)
  }

  /** The match `find()` reports: the leftmost start, and for it the last
      offset the greedy `.+` can reach. */
  ghost predicate FirstMatch(s: string, i: nat, p: nat)
  {
    IsMatch(s, i, p) &&
    (forall i': nat, p': nat :: IsMatch(s, i', p') ==> i <= i') &&
    (forall p': nat :: IsMatch(s, i, p') ==> p' <= p)
  }

  /** The first line terminator at or after `from`, or `|s|`. */
  function FirstTerminator(s: string, from: nat): (e: nat)
    requires from <= |s|
    ensures from <= e <= |s|
    ensures forall k :: from <= k < e ==> !IsLineTerminator(s[k])
    ensures e < |s| ==> IsLineTerminator(s[e])
    decreases |s| - from
  {
    if from == |s| || IsLineTerminator(s[from]) then from else FirstTerminator(s, from + 1)
  }

  /** The largest `q` in `lo..hi` at which an offset starts. */
  function LastOffset(s: string, lo: nat, hi: int): (r: Option<nat>)
    ensures r.Some? ==> lo <= r.value <= hi && OffsetAt(s, r.value)
    ensures r.Some? ==> forall q: nat :: r.value < q <= hi ==> !OffsetAt(s, q)
    ensures r.None? ==> forall q: nat :: lo <= q <= hi ==> !OffsetAt(s, q)
    decreases hi - lo
  {
    if hi < lo then None
    else if OffsetAt(s, hi) then Some(hi)
    else LastOffset(s, lo, hi - 1)
  }

  /** With group 1 at `i`, where the greedy `.+` leaves group 2. */
  function OffsetAfter(s: string, i: nat): (r: Option<nat>)
    requires StampAt(s, i)
    ensures r.Some? ==> IsMatch(s, i, r.value) && forall p: nat :: IsMatch(s, i, p) ==> p <= r.value
    ensures r.None? ==> forall p: nat :: !IsMatch(s, i, p)
  {
    var e := FirstTerminator(s, i + 23);
    var hi := if e < |s| - 6 then e else |s| - 6;
    var r := LastOffset(s, i + 24, hi);
    assert forall p: nat :: IsMatch(s, i, p) ==> p <= hi;
    r
  }

  /** The leftmost start at or after `from` at which the pattern matches. */
  function FindFrom(s: string, from: nat): (r: Option<(nat, nat)>)
    ensures r.None? ==> forall i: nat, p: nat :: from <= i ==> !IsMatch(s, i, p)
    ensures r.Some? ==> from <= r.value.0 && IsMatch(s, r.value.0, r.value.1)
    ensures r.Some? ==> forall i: nat, p: nat :: from <= i < r.value.0 ==> !IsMatch(s, i, p)
    ensures r.Some? ==> forall p: nat :: IsMatch(s, r.value.0, p) ==> p <= r.value.1
    decreases |s| - from
  {
    if |s| < from + 30 then None
    else if StampAt(s, from) && OffsetAfter(s, from).Some? then Some((from, OffsetAfter(s, from).value))
    else FindFrom(s, from + 1)
  }

  /** What each string date setter stores for `text`: group 1 followed by
      group 2 of the match `find()` reports, or `text` unchanged when the
      pattern does not match anywhere. Whatever precedes the match, the
      dropped sub-second digits and whatever follows the offset are lost. */
  function Clean(text: string): (r: string)
    ensures NoMatch(text) ==> r == text
    ensures !NoMatch(text) ==>
      exists i: nat, p: nat :: FirstMatch(text, i, p) && r == text[i..i + 23] + text[p..p + 6]
    ensures forall i: nat, p: nat :: FirstMatch(text, i, p) ==> r == text[i..i + 23] + text[p..p + 6]
  {
    match FindFrom(text, 0)
    case None => text
    case Some((i, p)) =>
      assert FirstMatch(text, i, p);
      assert forall i': nat, p': nat :: FirstMatch(text, i', p') ==> i' == i && p' == p;
      text[i..i + 23] + text[p..p + 6]
  }

  /** A cleaned date has the canonical shape: 23 characters of date, time
      and milliseconds, then the 6-character offset. */
  lemma CleanedShape(text: string)
    requires !NoMatch(text)
    ensures |Clean(text)| == 29 && StampAt(Clean(text), 0) && OffsetAt(Clean(text), 23)
  {
    var r := Clean(text);
    var i: nat, p: nat :| FirstMatch(text, i, p) && r == text[i..i + 23] + text[p..p + 6];
    assert forall k :: 0 <= k < 23 ==> r[k] == text[i + k];
    assert forall k :: 23 <= k < 29 ==> r[k] == text[p + k - 23];
  }

  /** A match needs at least 30 characters, so anything shorter (every
      canonical 29-character date among them) is stored unchanged. */
  lemma ShortTextUnchanged(text: string)
    requires |text| < 30
    ensures Clean(text) == text
  {
    assert NoMatch(text);
  }

  /** Cleaning is idempotent. */
  lemma CleanIdempotent(text: string)
    ensures Clean(Clean(text)) == Clean(text)
  {
    if !NoMatch(text) {
      CleanedShape(text);
      ShortTextUnchanged(Clean(text));
    }
  }

  /** A date in Tomboy's form, seven sub-second digits then the offset, is
      cut to its first three sub-second digits. */
  lemma TomboyDateCleaned(text: string)
    requires |text| == 33 && StampAt(text, 0)
    requires DigitAt(text, 23) && DigitAt(text, 24) && DigitAt(text, 25) && DigitAt(text, 26)
    requires OffsetAt(text, 27)
    ensures Clean(text) == text[..23] + text[27..]
  {
    assert IsMatch(text, 0, 27);
    assert FirstMatch(text, 0, 27);
  }

  // ---------------------------------------------------------------------
  // toTomboyFormat
  // ---------------------------------------------------------------------

  /** The text `SimpleDateFormat` produces for the pattern
      `yyyy-MM-dd'T'HH:mm:ss.SSSSSSSZ`; its time-zone field is never
      shorter than two characters. Producing it is Android's and Java's
      business and not part of this model. */
  type FormattedTime = s: string | |s| >= 2 witness "00"

  /** The step of `toTomboyFormat` that turns the `+hhmm` offset into
      `+hh:mm`: a colon before the last two characters. */
  function InsertOffsetColon(t: FormattedTime): (r: string)
    ensures |r| == |t| + 1
    ensures r[|t| - 2] == ':'
    ensures r[..|t| - 2] + r[|t| - 1..] == t
  {
    var r := t[..|t| - 2] + ":" + t[|t| - 2..];
    assert r[..|t| - 2] == t[..|t| - 2];
    assert r[|t| - 1..] == t[|t| - 2..];
    r
  }

  /** Formatting then cleaning: a rendered Tomboy time (seven sub-second
      digits, `+hhmm`), once the colon is inserted, cleans to the
      millisecond form with a `+hh:mm` offset. */
  lemma FormattedTimeCleans(t: FormattedTime)
    requires |t| == 32 && StampAt(t, 0)
    requires DigitAt(t, 23) && DigitAt(t, 24) && DigitAt(t, 25) && DigitAt(t, 26)
    requires t[27] == '-' || t[27] == '+'
    requires DigitAt(t, 28) && DigitAt(t, 29) && DigitAt(t, 30) && DigitAt(t, 31)
    ensures Clean(InsertOffsetColon(t)) == t[..23] + t[27..30] + ":" + t[30..]
  {
    var r := InsertOffsetColon(t);
    ColonedShape(t);
    TomboyDateCleaned(r);
  }

  lemma ColonedShape(t: FormattedTime)
    requires |t| == 32 && StampAt(t, 0)
    requires DigitAt(t, 23) && DigitAt(t, 24) && DigitAt(t, 25) && DigitAt(t, 26)
    requires t[27] == '-' || t[27] == '+'
    requires DigitAt(t, 28) && DigitAt(t, 29) && DigitAt(t, 30) && DigitAt(t, 31)
    ensures var r := InsertOffsetColon(t);
      |r| == 33 && StampAt(r, 0) && OffsetAt(r, 27) &&
      DigitAt(r, 23) && DigitAt(r, 24) && DigitAt(r, 25) && DigitAt(r, 26) &&
      r[..23] + r[27..] == t[..23] + t[27..30] + ":" + t[30..]
  {
    var r := InsertOffsetColon(t);
    assert r == t[..30] + ":" + t[30..];
    assert forall k :: 0 <= k < 30 ==> r[k] == t[k];
    assert r[..23] == t[..23];
    assert r[27..] == t[27..30] + ":" + t[30..];
  }
}
