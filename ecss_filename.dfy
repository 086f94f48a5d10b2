/**
 * The ECSS filename pattern
 *
 *     ECSS-([A-Z])-([A-Z]{2})-(\d+[A-Z]?)(?:[_-]Rev\.?(\d+))?
 *
 * applied with Python's `re.match`: anchored at the start of the string and
 * not at its end.  `MatchEcss` is a greedy left-to-right parser for it; it
 * returns the four capture groups, the last one absent when the optional
 * revision group did not take part in the match.
 *
 * The greedy parser is what the backtracking regex engine computes here:
 * nothing follows the optional group, so once `\d+[A-Z]?` has matched the
 * engine never has to backtrack into it, and the optional group either
 * matches at that point or is skipped.  `GreedyMatch` states the same thing
 * declaratively and `MatchEcssIsGreedyMatch` proves the two agree.
 *
 * `\d` is taken to be the ASCII digits only (Python accepts every Unicode
 * decimal digit).
 */
module EcssFilename {
  import opened Common

  /** The capture groups of a successful match, as `match.groups()`. */
  datatype EcssMatch = EcssMatch(
    branch: string,
    discipline: string,
    documentNumber: string,
    revision: Option<string>)

  predicate IsDigit(c: char) { '0' <= c <= '9' }

  predicate IsUpper(c: char) { 'A' <= c <= 'Z' }

  predicate AllDigits(s: string) {
    forall i | 0 <= i < |s| :: IsDigit(s[i])
  }

  /** The number of digits at the start of `s`: what a greedy `\d*` consumes. */
  function LeadingDigits(s: string): (n: nat)
    ensures n <= |s|
    ensures AllDigits(s[..n])
    ensures n == |s| || !IsDigit(s[n])
  {
    if s != [] && IsDigit(s[0]) then
      var rest := LeadingDigits(s[1..]);
      assert forall i | 1 <= i < rest + 1 :: s[i] == s[1..][..rest][i - 1];
      1 + rest
    else
      0
  }

  /** A digit run is exactly as long as `LeadingDigits` says when it cannot be extended. */
  lemma {:induction false} LeadingDigitsExact(s: string, k: nat)
    requires k <= |s| && AllDigits(s[..k])
    requires k == |s| || !IsDigit(s[k])
    ensures LeadingDigits(s) == k
  {
    if k > 0 {
      assert IsDigit(s[..k][0]);
      assert forall i | 1 <= i < k :: s[1..][..k - 1][i - 1] == s[..k][i];
      LeadingDigitsExact(s[1..], k - 1);
    }
  }

  /** `m` is a word of `[_-]Rev\.?`. */
  predicate IsRevisionMarker(m: string) {
    && (|m| == 4 || (|m| == 5 && m[4] == '.'))
    && (m[0] == '_' || m[0] == '-')
    && m[1..4] == "Rev"
  }

  /** The optional group `(?:[_-]Rev\.?(\d+))?` tried at the start of `rest`. */
  function MatchRevision(rest: string): (r: Option<string>)
    ensures r.Some? ==> |rest| > 4 && (rest[0] == '_' || rest[0] == '-') && rest[1..4] == "Rev"
    ensures r.Some? ==> r.value != [] && AllDigits(r.value)
  {
    if |rest| >= 4 && (rest[0] == '_' || rest[0] == '-') && rest[1] == 'R' && rest[2] == 'e' && rest[3] == 'v' then
      DigitsAt(rest, if |rest| > 4 && rest[4] == '.' then 5 else 4)
    else
      None
  }

  /** `(\d+)` tried at position `k` of `rest`: the longest run of digits there, if any. */
  function DigitsAt(rest: string, k: nat): (r: Option<string>)
    requires k <= |rest|
    ensures r.None? <==> k == |rest| || !IsDigit(rest[k])
    ensures r.Some? ==>
      && k + |r.value| <= |rest| && rest[k..k + |r.value|] == r.value
      && r.value != [] && AllDigits(r.value)
      && (k + |r.value| == |rest| || !IsDigit(rest[k + |r.value|]))
  {
    var n := LeadingDigits(rest[k..]);
    assert k < |rest| ==> rest[k..][0] == rest[k];
    assert rest[k..k + n] == rest[k..][..n];
    assert k + n < |rest| ==> rest[k..][n] == rest[k + n];
    if n > 0 then Some(rest[k..k + n]) else None
  }

  /** A non-empty digit run at `k` that cannot be extended is what `DigitsAt` captures. */
  lemma DigitsAtExact(rest: string, k: nat, r: string)
    requires k + |r| <= |rest| && rest[k..k + |r|] == r && r != [] && AllDigits(r)
    requires k + |r| == |rest| || !IsDigit(rest[k + |r|])
    ensures DigitsAt(rest, k) == Some(r)
  {
    assert rest[k..][..|r|] == r;
    assert k + |r| < |rest| ==> rest[k..][|r|] == rest[k + |r|];
    LeadingDigitsExact(rest[k..], |r|);
  }

  /** A prefix `m + r` of `rest` puts `m` at its start and `r` right after it. */
  lemma SplitPrefix(rest: string, m: string, r: string)
    requires m + r <= rest
    ensures m <= rest && rest[|m|..|m| + |r|] == r
  {
    assert rest[..|m| + |r|] == m + r;
    assert rest[..|m|] == (m + r)[..|m|] == m;
    assert rest[|m|..|m| + |r|] == (m + r)[|m|..] == r;
  }

  /** `rest` begins with a revision marker followed by a digit: the optional group can match. */
  ghost predicate RevisionFollows(rest: string) {
    exists m :: IsRevisionMarker(m) && m <= rest && |m| < |rest| && IsDigit(rest[|m|])
  }

  /** What the optional revision group captures at the start of `rest`, stated declaratively. */
  ghost predicate RevisionSpec(rest: string, revision: Option<string>) {
    match revision
    case None => !RevisionFollows(rest)
    case Some(r) =>
      && r != []
      && AllDigits(r)
      && exists m :: IsRevisionMarker(m) && m + r <= rest && (|m + r| == |rest| || !IsDigit(rest[|m + r|]))
  }

  /** A marker that prefixes `rest`, followed by a digit, is the one `MatchRevision` skips. */
  lemma MarkerIsDetermined(rest: string, m: string)
    requires IsRevisionMarker(m) && m <= rest && |m| < |rest| && IsDigit(rest[|m|])
    ensures |rest| >= 4 && (rest[0] == '_' || rest[0] == '-') && rest[1] == 'R' && rest[2] == 'e' && rest[3] == 'v'
    ensures |m| == (if |rest| > 4 && rest[4] == '.' then 5 else 4)
  {
    assert rest[..|m|] == m;
    assert rest[1..4] == m[1..4] == "Rev";
    assert rest[0] == m[0];
    if |m| == 4 {
      assert rest[4] == rest[|m|];
    } else {
      assert rest[4] == m[4];
    }
  }

  lemma MatchRevisionMeetsSpec(rest: string)
    ensures RevisionSpec(rest, MatchRevision(rest))
  {
    if |rest| >= 4 && (rest[0] == '_' || rest[0] == '-') && rest[1] == 'R' && rest[2] == 'e' && rest[3] == 'v' {
      var k := if |rest| > 4 && rest[4] == '.' then 5 else 4;
      var n := LeadingDigits(rest[k..]);
      var m := rest[..k];
      assert m[1..4] == rest[1..4] == "Rev";
      assert IsRevisionMarker(m);
      if n > 0 {
        var r := rest[k..k + n];
        assert r == rest[k..][..n];
        assert m + r == rest[..k + n];
        assert k + n == |rest| || rest[k + n] == rest[k..][n];
      } else {
        forall m' | IsRevisionMarker(m') && m' <= rest && |m'| < |rest|
          ensures !IsDigit(rest[|m'|])
        {
          if IsDigit(rest[|m'|]) {
            MarkerIsDetermined(rest, m');
          }
        }
      }
    } else {
      forall m' | IsRevisionMarker(m') && m' <= rest && |m'| < |rest|
        ensures !IsDigit(rest[|m'|])
      {
        if IsDigit(rest[|m'|]) {
          MarkerIsDetermined(rest, m');
        }
      }
    }
  }

  lemma NoRevisionDeterminesMatch(rest: string)
    requires !RevisionFollows(rest)
    ensures MatchRevision(rest).None?
  {
    MatchRevisionMeetsSpec(rest);
  }

  lemma RevisionDeterminesMatch(rest: string, r: string)
    requires RevisionSpec(rest, Some(r))
    ensures MatchRevision(rest) == Some(r)
  {
    var m :| IsRevisionMarker(m) && m + r <= rest && (|m + r| == |rest| || !IsDigit(rest[|m + r|]));
    SplitPrefix(rest, m, r);
    assert rest[|m|] == rest[|m|..|m| + |r|][0];
    MarkerIsDetermined(rest, m);
    DigitsAtExact(rest, |m|, r);
  }

  lemma RevisionSpecDeterminesMatch(rest: string, revision: Option<string>)
    requires RevisionSpec(rest, revision)
    ensures revision == MatchRevision(rest)
  {
    match revision
    case None => NoRevisionDeterminesMatch(rest);
    case Some(r) => RevisionDeterminesMatch(rest, r);
  }

  /** The revision group captures something exactly when a marker followed by a digit starts `rest`. */
  lemma RevisionPresentExactly(rest: string, revision: Option<string>)
    requires RevisionSpec(rest, revision)
    ensures revision.Some? <==> RevisionFollows(rest)
  {
    if revision.Some? {
      var r := revision.value;
      var m :| IsRevisionMarker(m) && m + r <= rest && (|m + r| == |rest| || !IsDigit(rest[|m + r|]));
      assert (m + r)[..|m|] == m && (m + r)[|m|] == r[0];
      assert IsRevisionMarker(m) && m <= rest && |m| < |rest| && IsDigit(rest[|m|]);
    }
  }

  /** The revision the parser captures is exactly the one the declarative statement allows. */
  lemma RevisionSpecExactly(rest: string, revision: Option<string>)
    ensures RevisionSpec(rest, revision) <==> revision == MatchRevision(rest)
  {
    MatchRevisionMeetsSpec(rest);
    if RevisionSpec(rest, revision) {
      RevisionSpecDeterminesMatch(rest, revision);
    }
  }

  /** `ECSS-` + uppercase letter + `-` + two uppercase letters + `-` + a digit starts `s`. */
  predicate HasEcssHead(s: string) {
    && |s| >= 11
    && s[0] == 'E' && s[1] == 'C' && s[2] == 'S' && s[3] == 'S' && s[4] == '-'
    && IsUpper(s[5]) && s[6] == '-'
    && IsUpper(s[7]) && IsUpper(s[8]) && s[9] == '-'
    && IsDigit(s[10])
  }

  /**
   * A name of the form `ECSS-X-YY-ddL[_-]Rev.d` followed by a non-digit:
   * the number is the two digits and the letter, and the revision the one
   * digit after the marker.
   */
  lemma RevisedNumberShape(s: string)
    requires |s| >= 20 && HasEcssHead(s) && IsDigit(s[11]) && IsUpper(s[12])
    requires (s[13] == '_' || s[13] == '-') && s[14] == 'R' && s[15] == 'e' && s[16] == 'v' && s[17] == '.'
    requires IsDigit(s[18]) && !IsDigit(s[19])
    ensures MatchEcss(s) == Some(EcssMatch(s[5..6], s[7..9], s[10..13], Some(s[18..19])))
  {
    assert forall i | 0 <= i < 2 :: s[10..][..2][i] == s[10 + i];
    assert s[10..][2] == s[12];
    LeadingDigitsExact(s[10..], 2);
    var rest := s[13..];
    assert rest[0] == s[13] && rest[1] == 'R' && rest[2] == 'e' && rest[3] == 'v' && rest[4] == '.';
    assert rest[5..6] == s[18..19] && rest[5..6][0] == s[18] && rest[6] == s[19];
    DigitsAtExact(rest, 5, s[18..19]);
  }

  /** `re.match(pattern, s)`: the capture groups, or `None` when there is no match. */
  function MatchEcss(s: string): (r: Option<EcssMatch>)
    ensures r.Some? <==> HasEcssHead(s)
    ensures !("ECSS-" <= s) ==> r.None?
  {
    if !HasEcssHead(s) then
      None
    else
      var e := NumberEnd(s);
      Some(EcssMatch(s[5..6], s[7..9], s[10..e], MatchRevision(s[e..])))
  }

  /**
   * Where the greedy `\d+[A-Z]?` starting at position 10 of `s` stops: the
   * text it takes has the number's shape, and when it ends in a digit the
   * next character can extend neither the digits nor the optional letter.
   */
  function NumberEnd(s: string): (e: nat)
    requires HasEcssHead(s)
    ensures 11 <= e <= |s|
    ensures IsDocumentNumber(s[10..e])
    ensures IsDigit(s[e - 1]) ==> e == |s| || (!IsDigit(s[e]) && !IsUpper(s[e]))
  {
    var n := LeadingDigits(s[10..]);
    NumberShape(s, n);
    var d := 10 + n;
    if d < |s| && IsUpper(s[d]) then d + 1 else d
  }

  /** `\d+[A-Z]?`: digits, then at most one uppercase letter. */
  predicate IsDocumentNumber(num: string) {
    && |num| >= 1
    && IsDigit(num[0])
    && AllDigits(num[..|num| - 1])
    && (IsDigit(num[|num| - 1]) || IsUpper(num[|num| - 1]))
  }

  /** The text the first three groups and their literal separators cover. */
  function Head(g: EcssMatch): string {
    "ECSS-" + g.branch + "-" + g.discipline + "-" + g.documentNumber
  }

  /**
   * The groups `g` are what the pattern captures on `s`: each group has the
   * shape its sub-pattern allows, the literal text is a prefix of `s`, the
   * greedy `\d+[A-Z]?` could not have consumed more, and the optional
   * revision group is present exactly when it can match after the number.
   */
  ghost predicate GreedyMatch(s: string, g: EcssMatch) {
    && |g.branch| == 1 && IsUpper(g.branch[0])
    && |g.discipline| == 2 && IsUpper(g.discipline[0]) && IsUpper(g.discipline[1])
    && IsDocumentNumber(g.documentNumber)
    && Head(g) <= s
    && var rest := s[|Head(g)|..];
       && (IsDigit(g.documentNumber[|g.documentNumber| - 1]) ==>
             rest == [] || (!IsDigit(rest[0]) && !IsUpper(rest[0])))
       && RevisionSpec(rest, g.revision)
  }

  /** The greedy digit run at position 10, followed by at most one uppercase letter, has the number's shape. */
  lemma NumberShape(s: string, n: nat)
    requires HasEcssHead(s) && n == LeadingDigits(s[10..])
    ensures var d := 10 + n;
      var e := if d < |s| && IsUpper(s[d]) then d + 1 else d;
      && 11 <= e <= |s|
      && IsDocumentNumber(s[10..e])
      && (IsDigit(s[e - 1]) ==> e == |s| || (!IsDigit(s[e]) && !IsUpper(s[e])))
  {
    var d := 10 + n;
    assert s[10..][0] == s[10];
    assert d < |s| ==> s[d] == s[10..][n];
    var e := if d < |s| && IsUpper(s[d]) then d + 1 else d;
    var num := s[10..e];
    forall i | 0 <= i < |num| - 1
      ensures IsDigit(num[i])
    {
      assert num[i] == s[10..][..n][i];
    }
    assert forall i | 0 <= i < |num| - 1 :: num[..|num| - 1][i] == num[i];
    assert num[0] == s[10];
    assert num[|num| - 1] == s[e - 1];
    if e == d {
      assert e - 1 - 10 < n;
      assert s[e - 1] == s[10..][..n][e - 1 - 10];
    }
  }

  /** The literal text and the first three groups are the first `NumberEnd(s)` characters of `s`. */
  lemma HeadOfMatch(s: string)
    requires HasEcssHead(s)
    ensures Head(MatchEcss(s).value) == s[..NumberEnd(s)]
  {
    var e := NumberEnd(s);
    assert s[..5] == "ECSS-";
    assert s[..e] == s[..5] + s[5..6] + [s[6]] + s[7..9] + [s[9]] + s[10..e];
  }

  lemma MatchEcssMeetsGreedyMatch(s: string)
    requires MatchEcss(s).Some?
    ensures GreedyMatch(s, MatchEcss(s).value)
  {
    var e := NumberEnd(s);
    assert s[10..e][e - 11] == s[e - 1];
    HeadOfMatch(s);
    assert s[5..6][0] == s[5];
    assert s[7..9][0] == s[7] && s[7..9][1] == s[8];
    MatchRevisionMeetsSpec(s[e..]);
  }

  /** A prefix of `s` shaped like the literal text and three groups fixes where those groups lie. */
  lemma HeadDeterminesGroups(s: string, g: EcssMatch)
    requires |g.branch| == 1 && IsUpper(g.branch[0])
    requires |g.discipline| == 2 && IsUpper(g.discipline[0]) && IsUpper(g.discipline[1])
    requires IsDocumentNumber(g.documentNumber)
    requires Head(g) <= s
    ensures HasEcssHead(s)
    ensures s[5..6] == g.branch && s[7..9] == g.discipline
    ensures s[10..10 + |g.documentNumber|] == g.documentNumber
    ensures |Head(g)| == 10 + |g.documentNumber|
  {
    var h := Head(g);
    var num := g.documentNumber;
    assert h == s[..|h|];
    assert s[..5] == h[..5] == "ECSS-";
    assert s[5] == h[5] == g.branch[0];
    assert s[6] == h[6] == '-';
    assert s[7] == h[7] == g.discipline[0];
    assert s[8] == h[8] == g.discipline[1];
    assert s[9] == h[9] == '-';
    assert s[10] == h[10] == num[0];
    assert s[10..|h|] == h[10..] == num;
  }

  /** A number of the right shape at position 10 that cannot be extended ends where the parser stops. */
  lemma NumberEndExact(s: string, num: string)
    requires HasEcssHead(s) && IsDocumentNumber(num)
    requires 10 + |num| <= |s| && s[10..10 + |num|] == num
    requires IsDigit(num[|num| - 1]) ==> 10 + |num| == |s| || (!IsDigit(s[10 + |num|]) && !IsUpper(s[10 + |num|]))
    ensures NumberEnd(s) == 10 + |num|
  {
    var digits := if IsDigit(num[|num| - 1]) then |num| else |num| - 1;
    assert s[10..][..digits] == num[..digits];
    assert AllDigits(num[..digits]) by {
      if digits == |num| {
        assert forall i | 0 <= i < |num| - 1 :: num[i] == num[..|num| - 1][i];
      }
    }
    assert 10 + digits < |s| ==> s[10..][digits] == s[10 + digits];
    assert digits < |num| ==> s[10 + digits] == num[digits];
    LeadingDigitsExact(s[10..], digits);
  }

  lemma GreedyMatchDeterminesMatch(s: string, g: EcssMatch)
    requires GreedyMatch(s, g)
    ensures MatchEcss(s) == Some(g)
  {
    var num := g.documentNumber;
    HeadDeterminesGroups(s, g);
    NumberEndExact(s, num);
    RevisionSpecDeterminesMatch(s[|Head(g)|..], g.revision);
  }

  /** The parser's groups are exactly the ones the declarative statement describes. */
  lemma MatchEcssIsGreedyMatch(s: string, g: EcssMatch)
    ensures MatchEcss(s) == Some(g) <==> GreedyMatch(s, g)
  {
    if MatchEcss(s) == Some(g) {
      MatchEcssMeetsGreedyMatch(s);
    }
    if GreedyMatch(s, g) {
      GreedyMatchDeterminesMatch(s, g);
    }
  }
}
