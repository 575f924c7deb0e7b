/** The Java string operations that the note code relies on, with the exact
    semantics of the Java (and Android) library calls involved. */
module JavaStrings {

  import opened Wrappers

  // ---------------------------------------------------------------------
  // Splitting on commas
  // ---------------------------------------------------------------------

  /** The comma-separated pieces of `s`, empty ones included, in order:
      Java's `s.split(",", -1)`. A string without a comma is one piece. */
  function Pieces(s: string): (r: seq<string>)
    ensures |r| >= 1
    ensures forall k :: 0 <= k < |r| ==> ',' !in r[k]
  {
    if s == [] then [""]
    else
      var rest := Pieces(s[1..]);
      if s[0] == ',' then [""] + rest
      else [[s[0]] + rest[0]] + rest[1..]
  }

  /** The pieces joined with a comma between neighbours. */
  function Join(ps: seq<string>): string
  {
    if ps == [] then ""
    else if |ps| == 1 then ps[0]
    else ps[0] + "," + Join(ps[1..])
  }

  /** The pieces concatenated with no separator. */
  function Concat(ps: seq<string>): string
  {
    if ps == [] then "" else Concat(ps[..|ps| - 1]) + ps[|ps| - 1]
  }

  /** Android's `TextUtils.split(s, ",")`: no pieces at all for the empty
      string, otherwise every piece, trailing empty ones included. */
  function TextSplit(s: string): seq<string>
  {
    if s == "" then [] else Pieces(s)
  }

  /** Trailing empty strings removed. */
  function DropTrailingEmpty(ps: seq<string>): (r: seq<string>)
    ensures |r| <= |ps|
    ensures r == [] || r[|r| - 1] != ""
  {
    if ps != [] && ps[|ps| - 1] == "" then DropTrailingEmpty(ps[..|ps| - 1]) else ps
  }

  /** Java's `s.split(",")`: the string itself when it holds no comma,
      otherwise its pieces with the trailing empty ones removed. */
  function JavaSplit(s: string): seq<string>
  {
    if ',' !in s then [s] else DropTrailingEmpty(Pieces(s))
  }

  lemma {:induction false} PiecesOfPlainWord(w: string)
    requires ',' !in w
    ensures Pieces(w) == [w]
  {
    if w != [] {
      PiecesOfPlainWord(w[1..]);
      assert [w[0]] + w[1..] == w;
    }
  }

  /** Splitting distributes over a comma: the pieces of `a,b` are the pieces
      of `a` followed by the pieces of `b`. */
  lemma {:induction false} PiecesAroundComma(a: string, b: string)
    ensures Pieces(a + "," + b) == Pieces(a) + Pieces(b)
  {
    if a == [] {
      assert a + "," + b == [','] + b;
      assert ([','] + b)[1..] == b;
    } else {
      assert (a + "," + b)[1..] == a[1..] + "," + b;
      assert (a + "," + b)[0] == a[0];
      PiecesAroundComma(a[1..], b);
    }
  }

  /** Joining the pieces of a string gives the string back. */
  lemma {:induction false} JoinPieces(s: string)
    ensures Join(Pieces(s)) == s
  {
    if s != [] {
      JoinPieces(s[1..]);
      var rest := Pieces(s[1..]);
      if s[0] == ',' {
        assert Pieces(s) == [""] + rest;
        assert (["" ] + rest)[1..] == rest;
      } else if |rest| == 1 {
        assert Pieces(s) == [[s[0]] + rest[0]];
      } else {
        assert Pieces(s)[1..] == rest[1..];
      }
    }
  }

  /** Splitting a join of comma-free pieces gives the pieces back. */
  lemma {:induction false} PiecesOfJoin(ps: seq<string>)
    requires |ps| >= 1
    requires forall k :: 0 <= k < |ps| ==> ',' !in ps[k]
    ensures Pieces(Join(ps)) == ps
  {
    PiecesOfPlainWord(ps[0]);
    if |ps| > 1 {
      PiecesOfJoin(ps[1..]);
      PiecesAroundComma(ps[0], Join(ps[1..]));
      assert [ps[0]] + ps[1..] == ps;
    }
  }

  lemma {:induction false} JoinSnoc(ps: seq<string>, t: string)
    requires |ps| >= 1
    ensures Join(ps + [t]) == Join(ps) + "," + t
  {
    if |ps| > 1 {
      JoinSnoc(ps[1..], t);
      assert (ps + [t])[1..] == ps[1..] + [t];
    }
  }

  /** A string that does not end with a comma has a non-empty last piece. */
  lemma {:induction false} LastPieceNonEmpty(s: string)
    requires s != "" && s[|s| - 1] != ','
    ensures Pieces(s)[|Pieces(s)| - 1] != ""
  {
    if |s| > 1 {
      LastPieceNonEmpty(s[1..]);
    }
  }

  /** `split(",")` keeps every piece when the string does not end with a comma. */
  lemma DropTrailingEmptyKeeps(ps: seq<string>)
    requires ps != [] && ps[|ps| - 1] != ""
    ensures DropTrailingEmpty(ps) == ps
  {
  }

  lemma JavaSplitKeepsAllPieces(s: string)
    requires s != "" && s[|s| - 1] != ','
    ensures JavaSplit(s) == Pieces(s)
  {
    if ',' in s {
      SplitWithCommaKeepsPieces(s);
    } else {
      SplitOfPlainWord(s);
    }
  }

  lemma SplitWithCommaKeepsPieces(s: string)
    requires s != "" && s[|s| - 1] != ','
    requires ',' in s
    ensures JavaSplit(s) == Pieces(s)
  {
    LastPieceNonEmpty(s);
    KeepsWhenLastNonEmpty(s, Pieces(s));
  }

  /** Splitting with a comma keeps the pieces once the last one is non-empty. */
  lemma KeepsWhenLastNonEmpty(s: string, ps: seq<string>)
    requires ',' in s && ps == Pieces(s)
    requires ps[|ps| - 1] != ""
    ensures JavaSplit(s) == ps
  {
    DropTrailingEmptyKeeps(ps);
  }

  /** A word without a comma splits to itself. */
  lemma SplitOfPlainWord(w: string)
    requires ',' !in w
    ensures JavaSplit(w) == Pieces(w)
  {
    PiecesOfPlainWord(w);
  }

  // ---------------------------------------------------------------------
  // String.replace, String.endsWith
  // ---------------------------------------------------------------------

  /** `target` occurs in `s` at index `i`. */
  predicate OccursAt(s: string, target: string, i: nat)
  {
    i + |target| <= |s| && s[i..i + |target|] == target
  }

  ghost predicate Contains(s: string, target: string)
  {
    exists i: nat :: OccursAt(s, target, i)
  }

  /** Java's `s.replace(target, repl)`: every occurrence of `target`, found
      left to right without overlap, replaced by `repl`. */
  function Replace(s: string, target: string, repl: string): (r: string)
    requires |target| > 0
    ensures |repl| <= |target| ==> |r| <= |s|
    ensures |repl| >= |target| ==> |r| >= |s|
    decreases |s|
  {
    if |s| < |target| then s
    else if s[..|target|] == target then repl + Replace(s[|target|..], target, repl)
    else [s[0]] + Replace(s[1..], target, repl)
  }

  /** A character in neither `s` nor `repl` is not in the result. */
  lemma {:induction false} ReplaceKeepsOut(s: string, target: string, repl: string, c: char)
    requires |target| > 0 && c !in s && c !in repl
    ensures c !in Replace(s, target, repl)
    decreases |s|
  {
    if |s| >= |target| {
      if s[..|target|] == target {
        ReplaceKeepsOut(s[|target|..], target, repl, c);
      } else {
        ReplaceKeepsOut(s[1..], target, repl, c);
      }
    }
  }

  /** Java's `s.endsWith(suffix)`. */
  predicate EndsWith(s: string, suffix: string)
  {
    |suffix| <= |s| && s[|s| - |suffix|..] == suffix
  }

  // ---------------------------------------------------------------------
  // Decimal rendering of integers
  // ---------------------------------------------------------------------

  predicate IsDigit(c: char)
  {
    '0' <= c <= '9'
  }

  function DigitChar(d: nat): (c: char)
    requires d < 10
    ensures IsDigit(c) && c as int - '0' as int == d
  {
    ('0' as int + d) as char
  }

  function NatToString(n: nat): (r: string)
    ensures |r| >= 1
    ensures forall k :: 0 <= k < |r| ==> IsDigit(r[k])
  {
    if n < 10 then [DigitChar(n)] else NatToString(n / 10) + [DigitChar(n % 10)]
  }

  /** The decimal text Java writes for an `int` in a string concatenation
      (`Integer.toString`): a minus sign for negatives, no leading zeros. */
  function IntToString(n: int): string
  {
    if n < 0 then "-" + NatToString(-n) else NatToString(n)
  }

  function ParseDigits(s: string): nat
    requires |s| >= 1
    requires forall k :: 0 <= k < |s| ==> IsDigit(s[k])
  {
    assert IsDigit(s[|s| - 1]);
    var last: nat := s[|s| - 1] as int - '0' as int;
    if |s| == 1 then last else ParseDigits(s[..|s| - 1]) * 10 + last
  }

  /** Decimal integer text read back, as `Integer.parseInt` reads an optional
      minus sign followed by digits; `None` for anything else. */
  function ParseInt(s: string): Option<int>
  {
    if |s| >= 2 && s[0] == '-' && forall k :: 1 <= k < |s| ==> IsDigit(s[k]) then
      var magnitude: int := ParseDigits(s[1..]);
      Some(-magnitude)
    else if |s| >= 1 && forall k :: 0 <= k < |s| ==> IsDigit(s[k]) then
      Some(ParseDigits(s))
    else
      None
  }

  lemma {:induction false} ParseNatToString(n: nat)
    ensures ParseDigits(NatToString(n)) == n
  {
    if n >= 10 {
      ParseNatToString(n / 10);
      var r := NatToString(n);
      assert r[..|r| - 1] == NatToString(n / 10);
    }
  }

  /** Every rendered integer reads back as itself. */
  lemma IntToStringRoundTrip(n: int)
    ensures ParseInt(IntToString(n)) == Some(n)
  {
    if n < 0 {
      NegativeRoundTrip(n);
    } else {
      NaturalRoundTrip(n);
    }
  }

  lemma NaturalRoundTrip(n: nat)
    ensures ParseInt(IntToString(n)) == Some(n)
  {
    ParseNatToString(n);
    var r := NatToString(n);
    assert IntToString(n) == r;
    assert IsDigit(r[0]);
  }

  lemma NegativeRoundTrip(n: int)
    requires n < 0
    ensures ParseInt(IntToString(n)) == Some(n)
  {
    NegativeTextRoundTrip(-n, IntToString(n));
  }

  /** A minus sign followed by the digits of `m` reads back as `-m`. */
  lemma NegativeTextRoundTrip(m: nat, r: string)
    requires r == "-" + NatToString(m)
    ensures ParseInt(r) == Some(-(m as int))
  {
    var digits := NatToString(m);
    ParseNatToString(m);
    assert r[1..] == digits;
    forall k | 1 <= k < |r| ensures IsDigit(r[k]) {
      assert r[k] == digits[k - 1];
    }
  }

  // ---------------------------------------------------------------------
  // String conversion in concatenation
  // ---------------------------------------------------------------------

  /** What `"" + s` produces for a possibly-null `String s`. */
  function JavaStr(s: Option<string>): (r: string)
    ensures s.Some? ==> r == s.value
  {
    match s
    case None => "null"
    case Some(v) => v
  }

  /** `Boolean.toString`, which is also what `"" + b` produces. */
  function BoolToString(b: bool): string
  {
    if b then "true" else "false"
  }
}
