/** The decimal-tail scraper of bot.py: the first price-like number in a page,
    `(?:\d{1,3}(?:,\d{3})+|\d+)\.(\d{2})` searched leftmost-first, and the two
    digits right after its decimal point. */
module TailScan {
  import opened Wrappers
  import opened Numerals

  /** `\d+`: one or more digits. */
  predicate DigitRun(t: string) {
    |t| >= 1 && AllDigits(t)
  }

  /** `(?:,\d{3})+`: one or more groups of a comma and three digits. */
  predicate CommaGroups(t: string)
    decreases |t|
  {
    |t| >= 4 && t[0] == ',' && AllDigits(t[1..4]) && (|t| == 4 || CommaGroups(t[4..]))
  }

  /** `\d{1,3}(?:,\d{3})+`: one to three digits followed by comma groups. */
  predicate GroupedRun(t: string) {
    exists k :: 1 <= k <= 3 && k < |t| && AllDigits(t[..k]) && CommaGroups(t[k..])
  }

  /** The integer part of the pattern: either alternative. */
  predicate IntegerPart(t: string) {
    GroupedRun(t) || DigitRun(t)
  }

  /** The whole pattern matches s from position i with its decimal point at p:
      s[i..p] is an integer part, s[p] is '.', and two digits follow. */
  predicate MatchAtDot(s: string, i: int, p: int) {
    0 <= i < p && p + 3 <= |s| && s[p] == '.' && IsDigit(s[p + 1]) && IsDigit(s[p + 2]) &&
    IntegerPart(s[i..p])
  }

  ghost predicate MatchAt(s: string, i: int) {
    exists p :: MatchAtDot(s, i, p)
  }

  predicate DigitOrComma(c: char) {
    IsDigit(c) || c == ','
  }

  lemma {:induction false} CommaGroupsChars(t: string)
    requires CommaGroups(t)
    ensures forall k :: 0 <= k < |t| ==> DigitOrComma(t[k])
    ensures IsDigit(t[|t| - 1])
  {
    if |t| > 4 {
      CommaGroupsChars(t[4..]);
      assert forall k :: 4 <= k < |t| ==> t[k] == t[4..][k - 4];
    }
  }

  /** An integer part is made of digits and commas only, and ends with a digit. */
  lemma IntegerPartChars(t: string)
    requires IntegerPart(t)
    ensures forall k :: 0 <= k < |t| ==> DigitOrComma(t[k])
    ensures IsDigit(t[|t| - 1])
  {
    if !DigitRun(t) {
      var k :| 1 <= k <= 3 && k < |t| && AllDigits(t[..k]) && CommaGroups(t[k..]);
      CommaGroupsChars(t[k..]);
      assert forall j :: k <= j < |t| ==> t[j] == t[k..][j - k];
      assert forall j :: 0 <= j < k ==> t[j] == t[..k][j];
    }
  }

  /** For a given start there is at most one decimal point the pattern can use,
      so the captured digits are determined by the start alone. */
  lemma DotUnique(s: string, i: int, p: int, q: int)
    requires MatchAtDot(s, i, p) && MatchAtDot(s, i, q)
    ensures p == q
  {
    if p < q {
      assert s[i..q][p - i] == s[p];
      IntegerPartChars(s[i..q]);
      assert false;
    } else if q < p {
      assert s[i..p][q - i] == s[q];
      IntegerPartChars(s[i..p]);
      assert false;
    }
  }

  /** The end of the run of digits and commas that starts at i. */
  function RunEnd(s: string, i: nat): (e: nat)
    requires i <= |s|
    ensures i <= e <= |s|
    ensures forall k :: i <= k < e ==> DigitOrComma(s[k])
    ensures e < |s| ==> !DigitOrComma(s[e])
    decreases |s| - i
  {
    if i == |s| || !DigitOrComma(s[i]) then i else RunEnd(s, i + 1)
  }

  /** The match attempt at start i: the position of the decimal point it uses, if it matches. */
  function DotAt(s: string, i: nat): (r: Option<nat>)
    requires i <= |s|
    ensures r.Some? ==> MatchAtDot(s, i, r.value)
    ensures r.None? <==> !MatchAt(s, i)
  {
    var e := RunEnd(s, i);
    if MatchAtDot(s, i, e) then Some(e)
    else
      assert forall q :: !MatchAtDot(s, i, q) by {
        forall q ensures !MatchAtDot(s, i, q) {
          if MatchAtDot(s, i, q) {
            if e < q {
              assert s[i..q][e - i] == s[e];
              IntegerPartChars(s[i..q]);
            }
            assert false;
          }
        }
      }
      None
  }

  /** The leftmost start at or after i where the pattern matches. */
  function FirstMatch(s: string, i: nat): (r: Option<nat>)
    requires i <= |s|
    ensures r.Some? ==> i <= r.value < |s| && MatchAt(s, r.value)
    ensures r.Some? ==> forall j :: i <= j < r.value ==> !MatchAt(s, j)
    ensures r.None? ==> forall j :: i <= j ==> !MatchAt(s, j)
    decreases |s| - i
  {
    if i == |s| then None
    else if DotAt(s, i).Some? then Some(i)
    else FirstMatch(s, i + 1)
  }

  /** The two digits of the leftmost match that the pattern captures after the point. */
  function PickTwoDecimals(html: string): (r: Option<string>)
    ensures r.Some? ==> |r.value| == 2 && AllDigits(r.value)
  {
    match FirstMatch(html, 0)
    case None => None
    case Some(i) =>
      var p := DotAt(html, i).value;
      Some(html[p + 1..p + 3])
  }

  /** The search finds nothing exactly when no position starts a match; otherwise its
      digits are the two after the point of a match with no match before it. */
  lemma PickTwoDecimalsLeftmost(html: string)
    ensures PickTwoDecimals(html).None? <==> forall i :: !MatchAt(html, i)
    ensures PickTwoDecimals(html).Some? ==>
      exists i, p :: MatchAtDot(html, i, p) && PickTwoDecimals(html).value == html[p + 1..p + 3] &&
                     forall j :: 0 <= j < i ==> !MatchAt(html, j)
  {
    var r := FirstMatch(html, 0);
    if r.Some? {
      var i := r.value;
      var p := DotAt(html, i).value;
      assert MatchAtDot(html, i, p) && PickTwoDecimals(html).value == html[p + 1..p + 3];
    }
  }

  /** A result is the two characters right after a '.' that follows a digit. */
  lemma ResultFollowsDigitAndPoint(html: string)
    requires PickTwoDecimals(html).Some?
    ensures exists p :: 1 <= p && p + 3 <= |html| && html[p] == '.' && IsDigit(html[p - 1]) &&
                        PickTwoDecimals(html).value == html[p + 1..p + 3]
  {
    var i := FirstMatch(html, 0).value;
    var p := DotAt(html, i).value;
    var t := html[i..p];
    IntegerPartChars(t);
    assert t[|t| - 1] == html[p - 1];
    assert 1 <= p && p + 3 <= |html| && html[p] == '.' && IsDigit(html[p - 1]);
    assert PickTwoDecimals(html).value == html[p + 1..p + 3];
  }

  /** When the pattern matches at i with its point at p and nowhere before i,
      the result is the two digits after p. */
  lemma LeftmostDetermines(html: string, i: int, p: int)
    requires MatchAtDot(html, i, p)
    requires forall j :: 0 <= j < i ==> !MatchAt(html, j)
    ensures PickTwoDecimals(html) == Some(html[p + 1..p + 3])
  {
    assert MatchAt(html, i);
    PickAtFirstMatch(html, i, p);
  }

  /** The result is read off the match that the leftmost search finds. */
  lemma PickAtFirstMatch(html: string, i: int, p: int)
    requires FirstMatch(html, 0) == Some(i) && MatchAtDot(html, i, p)
    ensures PickTwoDecimals(html) == Some(html[p + 1..p + 3])
  {
    DotUnique(html, i, p, DotAt(html, i).value);
  }

  /** Truncation, not rounding: a digit run, a point and two digits give those two digits,
      whatever follows them (further fractional digits included). */
  lemma Truncates(whole: string, a: char, b: char, rest: string)
    requires DigitRun(whole) && IsDigit(a) && IsDigit(b)
    ensures PickTwoDecimals(whole + ['.', a, b] + rest) == Some([a, b])
  {
    var s := whole + ['.', a, b] + rest;
    assert s[0..|whole|] == whole;
    assert MatchAtDot(s, 0, |whole|);
    LeftmostDetermines(s, 0, |whole|);
    assert s[|whole| + 1..|whole| + 3] == [a, b];
  }

  /** A match in s + t that starts before a match of s (at i, point at p) lies within s. */
  lemma EarlierMatchInPrefix(s: string, t: string, i: int, p: int, j: int, q: int)
    requires MatchAtDot(s, i, p) && 0 <= j < i && MatchAtDot(s + t, j, q)
    ensures MatchAtDot(s, j, q)
  {
    var st := s + t;
    if q + 3 > |s| {
      assert st[j..q][p - j] == s[p];
      IntegerPartChars(st[j..q]);
    } else {
      assert st[j..q] == s[j..q];
    }
  }

  /** Appending cannot create a match that starts before an existing match at i with its
      point at p: such a match would have to run across the '.' at p. */
  lemma NoEarlierMatchAfterAppend(s: string, t: string, i: int, p: int, j: int)
    requires MatchAtDot(s, i, p) && 0 <= j < i && !MatchAt(s, j)
    ensures !MatchAt(s + t, j)
  {
    if q :| MatchAtDot(s + t, j, q) {
      EarlierMatchInPrefix(s, t, i, p, j, q);
      assert false;
    }
  }

  /** The search stops at the first match: text appended after an input that already
      has a result never changes that result. */
  lemma AppendKeepsResult(s: string, t: string)
    requires PickTwoDecimals(s).Some?
    ensures PickTwoDecimals(s + t) == PickTwoDecimals(s)
  {
    PickTwoDecimalsLeftmost(s);
    var i, p :| MatchAtDot(s, i, p) && PickTwoDecimals(s).value == s[p + 1..p + 3] &&
                forall j :: 0 <= j < i ==> !MatchAt(s, j);
    var st := s + t;
    assert st[i..p] == s[i..p];
    assert MatchAtDot(st, i, p);
    forall j | 0 <= j < i
      ensures !MatchAt(st, j)
    {
      NoEarlierMatchAfterAppend(s, t, i, p, j);
    }
    LeftmostDetermines(st, i, p);
    assert st[p + 1..p + 3] == s[p + 1..p + 3];
  }

  /** Leftmost wins: of two prices the first one gives the digits. */
  lemma ExampleLeftmost()
    ensures PickTwoDecimals("10.25 and 20.50") == Some("25")
  {
    var s := "10.25 and 20.50";
    assert s == "10" + ['.', '2', '5'] + " and 20.50";
    Truncates("10", '2', '5', " and 20.50");
  }

  /** Truncation: a third fractional digit is ignored, not rounded in. */
  lemma ExampleTruncation()
    ensures PickTwoDecimals("12.345") == Some("34")
  {
    var s := "12.345";
    assert s == "12" + ['.', '3', '4'] + "5";
    Truncates("12", '3', '4', "5");
  }

  /** One to three digits, a comma and three digits form an integer part. */
  lemma OneGroup(head: string, group: string)
    requires 1 <= |head| <= 3 && AllDigits(head) && |group| == 3 && AllDigits(group)
    ensures IntegerPart(head + [','] + group)
  {
    var t := head + [','] + group;
    assert t[..|head|] == head;
    assert t[|head|..] == [','] + group;
    assert ([','] + group)[1..4] == group;
  }

  /** No match starts at j when the digit-and-comma run from j ends at e and the pattern
      does not match with its point at e. */
  lemma NoMatchAt(s: string, j: int, e: int)
    requires 0 <= j <= e < |s|
    requires forall k :: j <= k < e ==> DigitOrComma(s[k])
    requires !DigitOrComma(s[e]) && !MatchAtDot(s, j, e)
    ensures !MatchAt(s, j)
  {
    forall q ensures !MatchAtDot(s, j, q) {
      if MatchAtDot(s, j, q) {
        if e < q {
          assert s[j..q][e - j] == s[e];
          IntegerPartChars(s[j..q]);
        }
        assert false;
      }
    }
  }

  /** Thousands separators are part of the integer part. */
  lemma ExampleGrouped()
    ensures PickTwoDecimals("25,176.85") == Some("85")
  {
    GroupedPieces();
    OneGroup("25", "176");
    assert MatchAtDot("25,176.85", 0, 6);
    assert DotAt("25,176.85", 0).Some?;
    PickAtFirstMatch("25,176.85", 0, 6);
  }

  lemma GroupedPieces()
    ensures "25,176.85"[0..6] == "25" + [','] + "176"
    ensures "25,176.85"[7..9] == "85"
  { }

  /** "1.5 then 25,176.85" matches at 9, with its point at 15. */
  lemma GroupedPriceMatches()
    ensures MatchAtDot("1.5 then 25,176.85", 9, 15)
  {
    var h := "1.5 then 25,176.85";
    assert h[9..15] == "25" + [','] + "176";
    OneGroup("25", "176");
  }

  /** No position before 9 of "1.5 then 25,176.85" starts a match: "1.5" has a single
      fractional digit and nothing else there is a number. */
  lemma NoMatchBeforeNine()
    ensures var h := "1.5 then 25,176.85";
      !MatchAt(h, 0) && !MatchAt(h, 1) && !MatchAt(h, 2) && !MatchAt(h, 3) && !MatchAt(h, 4) &&
      !MatchAt(h, 5) && !MatchAt(h, 6) && !MatchAt(h, 7) && !MatchAt(h, 8)
  {
    var h := "1.5 then 25,176.85";
    NoMatchAt(h, 0, 1);
    NoMatchAt(h, 1, 1);
    NoMatchAt(h, 2, 3);
    NoMatchAt(h, 3, 3);
    NoMatchAt(h, 4, 4);
    NoMatchAt(h, 5, 5);
    NoMatchAt(h, 6, 6);
    NoMatchAt(h, 7, 7);
    NoMatchAt(h, 8, 8);
  }

  lemma FirstMatchSkipsShortFraction()
    ensures FirstMatch("1.5 then 25,176.85", 0) == Some(9)
  {
    var h := "1.5 then 25,176.85";
    GroupedPriceMatches();
    NoMatchBeforeNine();
    assert FirstMatch(h, 0) == FirstMatch(h, 1) == FirstMatch(h, 2) == FirstMatch(h, 3);
    assert FirstMatch(h, 3) == FirstMatch(h, 4) == FirstMatch(h, 5) == FirstMatch(h, 6);
    assert FirstMatch(h, 6) == FirstMatch(h, 7) == FirstMatch(h, 8) == FirstMatch(h, 9);
  }

  /** A number with a single fractional digit is no match; the search moves on to the
      next number. */
  lemma ExampleOneFractionalDigit()
    ensures PickTwoDecimals("1.5 then 25,176.85") == Some("85")
  {
    FirstMatchSkipsShortFraction();
    GroupedPriceMatches();
    PickAtFirstMatch("1.5 then 25,176.85", 9, 15);
    ShortFractionDigits();
  }

  lemma ShortFractionDigits()
    ensures "1.5 then 25,176.85"[16..18] == "85"
  {
  }
}
