/** The two scrapers that read a Darktable sidecar (.xmp) as plain text: the
    rating, from the first match of /xmp:Rating="([-0-9]+)"/, and the number
    of history entries, from the global matches of /<rdf:li/. The file's
    contents are an input; reading the file is not part of this module. */
module Sidecar {
  import opened Text

  // ---------------------------------------------------------------------
  // Rating

  const RatingOpen: string := "xmp:Rating=\""

  /** The rating pattern matches at position i of s with capture c. */
  ghost predicate RatingMatchAt(s: string, i: nat, c: string)
  {
    && IsRatingCapture(c)
    && i + |RatingOpen| + |c| + 1 <= |s|
    && s[i..i + |RatingOpen| + |c| + 1] == RatingOpen + c + "\""
  }

  /** End of the longest run of [-0-9] characters that starts at k. */
  function RunEnd(s: string, k: nat): (e: nat)
    requires k <= |s|
    ensures k <= e <= |s|
    ensures forall j :: k <= j < e ==> IsRatingChar(s[j])
    ensures e == |s| || !IsRatingChar(s[e])
    decreases |s| - k
  {
    if k < |s| && IsRatingChar(s[k]) then RunEnd(s, k + 1) else k
  }

  /** The capture when the pattern matches at position i: the greedy class
      takes the whole run of [-0-9], which must then be followed by '"'. */
  function CaptureAt(s: string, i: nat): (r: Option<string>)
    ensures r.Some? ==> IsRatingCapture(r.value)
  {
    var k := i + |RatingOpen|;
    if k <= |s| && s[i..k] == RatingOpen then
      var e := RunEnd(s, k);
      if k < e < |s| && s[e] == '"' then Some(s[k..e]) else None
    else None
  }

  /** CaptureAt finds exactly the matches of the pattern at i. */
  lemma CaptureAtIsMatch(s: string, i: nat, c: string)
    ensures CaptureAt(s, i) == Some(c) <==> RatingMatchAt(s, i, c)
  {
    if CaptureAt(s, i) == Some(c) {
      CaptureAtSound(s, i);
    }
    if RatingMatchAt(s, i, c) {
      CaptureAtComplete(s, i, c);
    }
  }

  lemma CaptureAtSound(s: string, i: nat)
    requires CaptureAt(s, i).Some?
    ensures RatingMatchAt(s, i, CaptureAt(s, i).value)
  {
    var k := i + |RatingOpen|;
    var e := RunEnd(s, k);
    assert s[i..e + 1] == s[i..k] + s[k..e] + [s[e]];
  }

  /** The greedy run ends exactly where a match's capture ends. */
  lemma CaptureAtComplete(s: string, i: nat, c: string)
    requires RatingMatchAt(s, i, c)
    ensures CaptureAt(s, i) == Some(c)
  {
    var k := i + |RatingOpen|;
    var w := s[i..k + |c| + 1];
    assert s[i..k] == w[..|RatingOpen|];
    assert forall j :: k <= j < k + |c| ==> s[j] == w[j - i] == c[j - k];
    assert w == RatingOpen + c + "\"";
    assert w[|RatingOpen| + |c|] == '"';
    assert s[k + |c|] == w[|RatingOpen| + |c|];
    var e := RunEnd(s, k);
    assert e == k + |c|;
    assert s[k..e] == c;
  }

  /** Leftmost match at or after position i. */
  function FirstCapture(s: string, i: nat): (r: Option<string>)
    ensures r.Some? ==> IsRatingCapture(r.value)
    decreases |s| - i
  {
    if i >= |s| then None
    else if CaptureAt(s, i).Some? then CaptureAt(s, i)
    else FirstCapture(s, i + 1)
  }

  /** getRatingFromDarktableFile once the text is read: the Number() of the
      first match's capture, 0 when the pattern does not occur. */
  function SidecarRating(text: string): Num
  {
    match FirstCapture(text, 0)
    case None => Int(0)
    case Some(c) => ToNumber(c)
  }

  lemma {:induction false} FirstCaptureFinds(s: string, from: nat, i: nat, c: string)
    requires from <= i
    requires RatingMatchAt(s, i, c)
    requires forall j: nat, c' :: from <= j < i ==> !RatingMatchAt(s, j, c')
    ensures FirstCapture(s, from) == Some(c)
    decreases i - from
  {
    CaptureAtIsMatch(s, i, c);
    if from < i {
      if CaptureAt(s, from).Some? {
        CaptureAtIsMatch(s, from, CaptureAt(s, from).value);
      }
      FirstCaptureFinds(s, from + 1, i, c);
    }
  }

  lemma {:induction false} FirstCaptureNone(s: string, from: nat)
    requires forall j: nat, c :: from <= j ==> !RatingMatchAt(s, j, c)
    ensures FirstCapture(s, from) == None
    decreases |s| - from
  {
    if from < |s| {
      if CaptureAt(s, from).Some? {
        CaptureAtIsMatch(s, from, CaptureAt(s, from).value);
      }
      FirstCaptureNone(s, from + 1);
    }
  }

  /** The rating is read from the leftmost match, whatever follows it. */
  lemma RatingIsFirstMatch(text: string, i: nat, c: string)
    requires RatingMatchAt(text, i, c)
    requires forall j: nat, c' :: j < i ==> !RatingMatchAt(text, j, c')
    ensures SidecarRating(text) == ToNumber(c)
  {
    FirstCaptureFinds(text, 0, i, c);
  }

  /** Without any match the rating is 0. */
  lemma NoRatingIsZero(text: string)
    requires forall i, c :: !RatingMatchAt(text, i, c)
    ensures SidecarRating(text) == Int(0)
  {
    FirstCaptureNone(text, 0);
  }

  /** A match cannot start before an attribute and run into it: its capture
      would have to cover the '"' that ends RatingOpen. */
  lemma NoMatchAcross(before: string, c: string, after: string, j: nat, c': string)
    requires j < |before|
    requires forall k, d :: !RatingMatchAt(before + RatingOpen, k, d)
    ensures !RatingMatchAt(before + RatingOpen + c + "\"" + after, j, c')
  {
    var pre := before + RatingOpen;
    var text := pre + c + "\"" + after;
    var n := j + |RatingOpen| + |c'| + 1;
    if n <= |pre| {
      assert text[j..n] == pre[j..n];
      assert !RatingMatchAt(pre, j, c');
    } else if n <= |text| {
      var q := |pre| - 1;
      assert text[q] == '"';
      assert text[j..n][q - j] == text[q];
      assert q - j - |RatingOpen| < |c'|;
      assert (RatingOpen + c' + "\"")[q - j] == c'[q - j - |RatingOpen|];
    }
  }

  /** A well-formed attribute, negative values included, is read back exactly
      when it is the first one in the text. */
  lemma RatingReadBack(before: string, n: int, after: string)
    requires forall j, c :: !RatingMatchAt(before + RatingOpen, j, c)
    ensures SidecarRating(before + RatingOpen + NumToString(Int(n)) + "\"" + after) == Int(n)
  {
    var c := NumToString(Int(n));
    var text := before + RatingOpen + c + "\"" + after;
    var i := |before|;
    NumberRoundTrip(n);
    assert text[i..i + |RatingOpen| + |c| + 1] == RatingOpen + c + "\"";
    forall j: nat, c' | j < i
      ensures !RatingMatchAt(text, j, c')
    {
      NoMatchAcross(before, c, after, j, c');
    }
    RatingIsFirstMatch(text, i, c);
  }

  // ---------------------------------------------------------------------
  // Modification count

  const HistoryMarker: string := "<rdf:li"

  predicate MarkerAt(s: string, i: nat)
  {
    i + |HistoryMarker| <= |s| && s[i..i + |HistoryMarker|] == HistoryMarker
  }

  /** The global match of /<rdf:li/ from position i: after a match the
      search resumes right after it, otherwise one character further. */
  function CountFrom(s: string, i: nat): nat
    decreases |s| - i
  {
    if i + |HistoryMarker| > |s| then 0
    else if MarkerAt(s, i) then 1 + CountFrom(s, i + |HistoryMarker|)
    else CountFrom(s, i + 1)
  }

  /** getNumberOfModifications once the text is read (`match.length`, or 0
      when nothing matches). */
  function ModificationCount(text: string): nat
  {
    CountFrom(text, 0)
  }

  /** Every position at or after `from` where the marker starts. */
  ghost function Occurrences(s: string, from: nat): set<nat>
  {
    set i: nat | from <= i < |s| && MarkerAt(s, i)
  }

  /** The marker cannot overlap itself: its first character, '<', occurs
      nowhere else in it. */
  lemma NoOverlap(s: string, i: nat, j: nat)
    requires MarkerAt(s, i) && i < j < i + |HistoryMarker|
    ensures !MarkerAt(s, j)
  {
    assert s[j] == s[i..i + |HistoryMarker|][j - i] != '<';
    if j + |HistoryMarker| <= |s| {
      assert s[j..j + |HistoryMarker|][0] == s[j];
    }
  }

  /** Counting the non-overlapping matches from left to right finds every
      occurrence of the marker. */
  lemma {:induction false} CountIsOccurrences(s: string, from: nat)
    ensures CountFrom(s, from) == |Occurrences(s, from)|
    decreases |s| - from
  {
    if from + |HistoryMarker| > |s| {
      assert Occurrences(s, from) == {};
    } else if MarkerAt(s, from) {
      var next := from + |HistoryMarker|;
      CountIsOccurrences(s, next);
      forall j | from < j < next
        ensures !MarkerAt(s, j)
      {
        NoOverlap(s, from, j);
      }
      assert Occurrences(s, from) == {from} + Occurrences(s, next);
      assert from !in Occurrences(s, next);
    } else {
      CountIsOccurrences(s, from + 1);
      assert Occurrences(s, from) == Occurrences(s, from + 1);
    }
  }

  /** The modification count is the number of history markers in the text. */
  lemma ModificationCountIsMarkerCount(text: string)
    ensures ModificationCount(text) == |Occurrences(text, 0)|
  {
    CountIsOccurrences(text, 0);
  }
}
