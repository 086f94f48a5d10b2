/**
 * The frontend's search route (frontend/src/app/api/search/route.ts): a
 * `GET` handler that filters a fixed list of mock results by a
 * case-insensitive substring test on title or content, then by the optional
 * `branch`, `discipline` and `revision` parameters.
 *
 * `toLowerCase` is modelled on ASCII letters only, and `trim` on the
 * ECMAScript whitespace and line-terminator code points.
 */
module SearchRoute {
  import opened Common

  datatype ResultMetadata = ResultMetadata(
    branch: Option<string>,
    branchName: Option<string>,
    discipline: Option<string>,
    disciplineName: Option<string>,
    documentNumber: Option<string>,
    revision: Option<string>,
    filename: Option<string>,
    documentType: Option<string>,
    source: Option<string>)

  datatype SearchResult = SearchResult(id: string, title: string, content: string, score: real, metadata: ResultMetadata)

  datatype RouteResponse = RouteResponse(results: seq<SearchResult>, total: int)

  function StandardMetadata(branch: string, branchName: string, number: string, revision: string, filename: string): ResultMetadata {
    ResultMetadata(
      Some(branch), Some(branchName), Some("ST"), Some("Space Systems"), Some(number), Some(revision),
      Some(filename), Some("ECSS_Standard"), Some("ECSS_Published_Standards"))
  }

  /** The mock data the route serves. */
  const MockResults: seq<SearchResult> := [
    SearchResult(
      "1",
      "ECSS-S-ST-00C Rev.1(15June2020)",
      "This document provides a comprehensive overview of ECSS standards and their application in space systems. It covers the fundamental principles, requirements, and guidelines for implementing ECSS standards across various space projects.",
      0.95,
      StandardMetadata("S", "Space Product Assurance", "00C", "1", "ECSS-S-ST-00C Rev.1(15June2020).pdf")),
    SearchResult(
      "2",
      "ECSS-Q-ST-70C-Rev.2(15October2019)",
      "Materials and processes standards for space applications. This document specifies requirements for materials selection, testing procedures, and quality assurance processes used in space systems.",
      0.87,
      StandardMetadata("Q", "Quality Assurance", "70C", "2", "ECSS-Q-ST-70C-Rev.2(15October2019).pdf")),
    SearchResult(
      "3",
      "ECSS-E-ST-50C-Rev.1(1March2021)",
      "Communication protocols and standards for space systems. This document defines the requirements for communication systems, data transmission protocols, and interface specifications.",
      0.82,
      StandardMetadata("E", "Engineering", "50C", "1", "ECSS-E-ST-50C-Rev.1(1March2021).pdf"))]

  /** A code point `String.prototype.trim` removes. */
  predicate IsJsSpace(c: char) {
    || c == '\t' || c == '\n' || c == '\U{000B}' || c == '\U{000C}' || c == '\r' || c == ' '
    || c == '\U{00A0}' || c == '\U{1680}' || ('\U{2000}' <= c <= '\U{200A}')
    || c == '\U{2028}' || c == '\U{2029}' || c == '\U{202F}' || c == '\U{205F}' || c == '\U{3000}'
    || c == '\U{FEFF}'
  }

  /** `!s.trim()`: nothing is left once the whitespace is trimmed. */
  predicate IsBlank(s: string) {
    Strip(s, IsJsSpace) == []
  }

  /** A query is blank exactly when it is empty or every code point is whitespace. */
  lemma BlankExactlyWhenAllWhitespace(s: string)
    ensures IsBlank(s) <==> forall i | 0 <= i < |s| :: IsJsSpace(s[i])
  {
    StripEmptyExactlyWhenAllSpace(s, IsJsSpace);
  }

  predicate IsAsciiUpper(c: char) { 'A' <= c <= 'Z' }

  /** `a` and `b` are the same character or the two cases of one ASCII letter. */
  predicate SameIgnoringCase(a: char, b: char) {
    || a == b
    || (IsAsciiUpper(a) && b as int == a as int + 32)
    || (IsAsciiUpper(b) && a as int == b as int + 32)
  }

  function LowerChar(c: char): char {
    if 'A' <= c <= 'Z' then (c as int + 32) as char else c
  }

  /**
   * `s.toLowerCase()`, on ASCII letters: each uppercase letter becomes its
   * lowercase form, every other character stays, and no uppercase letter is
   * left.
   */
  function ToLower(s: string): (r: string)
    ensures |r| == |s|
    ensures forall i | 0 <= i < |s| :: !IsAsciiUpper(r[i]) && SameIgnoringCase(s[i], r[i])
    ensures forall i | 0 <= i < |s| :: IsAsciiUpper(s[i]) ==> 'a' <= r[i] <= 'z'
    ensures forall i | 0 <= i < |s| :: !IsAsciiUpper(s[i]) ==> r[i] == s[i]
  {
    seq(|s|, i requires 0 <= i < |s| => LowerChar(s[i]))
  }

  /** Lowering what is already lowered changes nothing. */
  lemma ToLowerIdempotent(s: string)
    ensures ToLower(ToLower(s)) == ToLower(s)
  {
    var t := ToLower(s);
    assert forall i | 0 <= i < |t| :: ToLower(t)[i] == t[i];
  }

  /** Two strings lower to the same string exactly when they differ at most in the case of ASCII letters. */
  lemma ToLowerCaseInsensitive(s: string, t: string)
    ensures ToLower(s) == ToLower(t) <==> |s| == |t| && forall i | 0 <= i < |s| :: SameIgnoringCase(s[i], t[i])
  {
    if |s| == |t| {
      if ToLower(s) == ToLower(t) {
        forall i | 0 <= i < |s|
          ensures SameIgnoringCase(s[i], t[i])
        {
          assert ToLower(s)[i] == ToLower(t)[i];
        }
      }
      if forall i | 0 <= i < |s| :: SameIgnoringCase(s[i], t[i]) {
        forall i | 0 <= i < |s|
          ensures ToLower(s)[i] == ToLower(t)[i]
        {
          assert SameIgnoringCase(s[i], t[i]);
        }
      }
    }
  }

  /** `t` occurs in `s` starting at position `i`. */
  predicate OccursAt(s: string, t: string, i: nat) {
    i + |t| <= |s| && s[i..i + |t|] == t
  }

  /** `s.includes(t)`: `t` occurs in `s` at some position. */
  predicate Includes(s: string, t: string) {
    exists i: nat | i <= |s| :: OccursAt(s, t, i)
  }

  /** The text test of the first filter. */
  predicate MatchesQuery(r: SearchResult, query: string) {
    Includes(ToLower(r.title), ToLower(query)) || Includes(ToLower(r.content), ToLower(query))
  }

  /** The text test does not depend on the case of the query's ASCII letters. */
  lemma MatchesQueryCaseInsensitive(r: SearchResult, query: string, query': string)
    requires |query| == |query'| && forall i | 0 <= i < |query| :: SameIgnoringCase(query[i], query'[i])
    ensures MatchesQuery(r, query) <==> MatchesQuery(r, query')
  {
    ToLowerCaseInsensitive(query, query');
  }

  /** `xs.filter(keep)`: the elements that pass, in order, each as often as in `xs`. */
  function Filter(xs: seq<SearchResult>, keep: SearchResult -> bool): (ys: seq<SearchResult>)
    ensures IsSubsequence(ys, xs)
    ensures forall y | y in ys :: y in xs && keep(y)
    ensures forall x | x in xs && keep(x) :: x in ys
    ensures forall z :: multiset(ys)[z] == if keep(z) then multiset(xs)[z] else 0
  {
    if xs == [] then []
    else
      assert xs == [xs[0]] + xs[1..];
      if keep(xs[0]) then [xs[0]] + Filter(xs[1..], keep)
      else Filter(xs[1..], keep)
  }

  /** `ys` is `xs` with some elements left out and the rest in their order. */
  ghost predicate IsSubsequence(ys: seq<SearchResult>, xs: seq<SearchResult>)
    decreases |xs|
  {
    if ys == [] then true
    else if xs == [] then false
    else (ys[0] == xs[0] && IsSubsequence(ys[1..], xs[1..])) || IsSubsequence(ys, xs[1..])
  }

  lemma {:induction false} SubsequenceReflexive(xs: seq<SearchResult>)
    ensures IsSubsequence(xs, xs)
    decreases |xs|
  {
    if xs != [] {
      SubsequenceReflexive(xs[1..]);
    }
  }

  lemma {:induction false} SubsequenceTransitive(zs: seq<SearchResult>, ys: seq<SearchResult>, xs: seq<SearchResult>)
    requires IsSubsequence(zs, ys) && IsSubsequence(ys, xs)
    ensures IsSubsequence(zs, xs)
    decreases |xs|
  {
    if zs == [] {
    } else if ys[0] == xs[0] && IsSubsequence(ys[1..], xs[1..]) {
      if zs[0] == ys[0] && IsSubsequence(zs[1..], ys[1..]) {
        SubsequenceTransitive(zs[1..], ys[1..], xs[1..]);
      } else {
        SubsequenceTransitive(zs, ys[1..], xs[1..]);
      }
    } else {
      SubsequenceTransitive(zs, ys, xs[1..]);
    }
  }

  lemma {:induction false} SubsequenceLength(ys: seq<SearchResult>, xs: seq<SearchResult>)
    requires IsSubsequence(ys, xs)
    ensures |ys| <= |xs|
    decreases |xs|
  {
    if ys != [] {
      if ys[0] == xs[0] && IsSubsequence(ys[1..], xs[1..]) {
        SubsequenceLength(ys[1..], xs[1..]);
      } else {
        SubsequenceLength(ys, xs[1..]);
      }
    }
  }

  /** Filtering by `a` and then by `b` is filtering once by their conjunction. */
  lemma {:induction false} FilterFusion(xs: seq<SearchResult>, a: SearchResult -> bool, b: SearchResult -> bool, c: SearchResult -> bool)
    requires forall r :: c(r) == (a(r) && b(r))
    ensures Filter(Filter(xs, a), b) == Filter(xs, c)
  {
    if xs != [] {
      FilterFusion(xs[1..], a, b, c);
    }
  }

  /** Two filters that keep the same elements give the same result. */
  lemma {:induction false} FilterExtensional(xs: seq<SearchResult>, a: SearchResult -> bool, b: SearchResult -> bool)
    requires forall r :: a(r) == b(r)
    ensures Filter(xs, a) == Filter(xs, b)
  {
    if xs != [] {
      FilterExtensional(xs[1..], a, b);
    }
  }

  /** Filtering twice by the same test changes nothing the second time. */
  lemma FilterIdempotent(xs: seq<SearchResult>, keep: SearchResult -> bool)
    ensures Filter(Filter(xs, keep), keep) == Filter(xs, keep)
  {
    FilterFusion(xs, keep, keep, keep);
  }

  /** The optional equality filter on one metadata field: skipped when `wanted` is empty. */
  function FilterField(xs: seq<SearchResult>, field: SearchResult -> Option<string>, wanted: string): (ys: seq<SearchResult>)
    ensures wanted == "" ==> ys == xs
    ensures forall z :: multiset(ys)[z] == if wanted == "" || field(z) == Some(wanted) then multiset(xs)[z] else 0
    ensures IsSubsequence(ys, xs)
    ensures forall y | y in ys :: y in xs && (wanted != "" ==> field(y) == Some(wanted))
    ensures forall x | x in xs && (wanted != "" ==> field(x) == Some(wanted)) :: x in ys
  {
    if wanted != "" then Filter(xs, r => field(r) == Some(wanted))
    else SubsequenceReflexive(xs); xs
  }

  /** What the route's four filters together ask of one result. */
  predicate Keep(r: SearchResult, query: string, branch: string, discipline: string, revision: string) {
    && MatchesQuery(r, query)
    && (branch != "" ==> r.metadata.branch == Some(branch))
    && (discipline != "" ==> r.metadata.discipline == Some(discipline))
    && (revision != "" ==> r.metadata.revision == Some(revision))
  }

  /** The filter pipeline of the route over `items`, after the blank-query test. */
  function FilterResults(items: seq<SearchResult>, query: string, branch: string, discipline: string, revision: string)
    : (results: seq<SearchResult>)
    ensures IsSubsequence(results, items)
    ensures forall r | r in results ::
      && r in items
      && MatchesQuery(r, query)
      && (branch != "" ==> r.metadata.branch == Some(branch))
      && (discipline != "" ==> r.metadata.discipline == Some(discipline))
      && (revision != "" ==> r.metadata.revision == Some(revision))
    ensures forall r | r in items ::
      (&& MatchesQuery(r, query)
       && (branch != "" ==> r.metadata.branch == Some(branch))
       && (discipline != "" ==> r.metadata.discipline == Some(discipline))
       && (revision != "" ==> r.metadata.revision == Some(revision)))
      ==> r in results
    ensures forall z :: multiset(results)[z] == if Keep(z, query, branch, discipline, revision) then multiset(items)[z] else 0
  {
    var filtered := Filter(items, r => MatchesQuery(r, query));
    var byBranch := FilterField(filtered, (r: SearchResult) => r.metadata.branch, branch);
    var byDiscipline := FilterField(byBranch, (r: SearchResult) => r.metadata.discipline, discipline);
    var byRevision := FilterField(byDiscipline, (r: SearchResult) => r.metadata.revision, revision);
    SubsequenceTransitive(byBranch, filtered, items);
    SubsequenceTransitive(byDiscipline, byBranch, items);
    SubsequenceTransitive(byRevision, byDiscipline, items);
    byRevision
  }

  /** One more field filter after `Filter(xs, k)` is one filter by `k` and the field test. */
  lemma FieldStep(xs: seq<SearchResult>, k: SearchResult -> bool, field: SearchResult -> Option<string>, wanted: string,
                  k2: SearchResult -> bool)
    requires forall r :: k2(r) == (k(r) && (wanted != "" ==> field(r) == Some(wanted)))
    ensures FilterField(Filter(xs, k), field, wanted) == Filter(xs, k2)
  {
    if wanted != "" {
      FilterFusion(xs, k, r => field(r) == Some(wanted), k2);
    } else {
      FilterExtensional(xs, k, k2);
    }
  }

  /** The four successive filters keep, in order, exactly the results that pass `Keep`. */
  lemma FilterResultsIsOneFilter(items: seq<SearchResult>, query: string, branch: string, discipline: string, revision: string)
    ensures FilterResults(items, query, branch, discipline, revision)
         == Filter(items, r => Keep(r, query, branch, discipline, revision))
  {
    var k0 := (r: SearchResult) => MatchesQuery(r, query);
    var k1 := (r: SearchResult) => k0(r) && (branch != "" ==> r.metadata.branch == Some(branch));
    var k2 := (r: SearchResult) => k1(r) && (discipline != "" ==> r.metadata.discipline == Some(discipline));
    var k3 := (r: SearchResult) => Keep(r, query, branch, discipline, revision);
    FieldStep(items, k0, (r: SearchResult) => r.metadata.branch, branch, k1);
    FieldStep(items, k1, (r: SearchResult) => r.metadata.discipline, discipline, k2);
    FieldStep(items, k2, (r: SearchResult) => r.metadata.revision, revision, k3);
  }

  /** Running the pipeline on its own output returns that output unchanged. */
  lemma FilterResultsIdempotent(items: seq<SearchResult>, query: string, branch: string, discipline: string, revision: string)
    ensures FilterResults(FilterResults(items, query, branch, discipline, revision), query, branch, discipline, revision)
         == FilterResults(items, query, branch, discipline, revision)
  {
    var once := FilterResults(items, query, branch, discipline, revision);
    var k := (r: SearchResult) => Keep(r, query, branch, discipline, revision);
    FilterResultsIsOneFilter(items, query, branch, discipline, revision);
    FilterResultsIsOneFilter(once, query, branch, discipline, revision);
    FilterIdempotent(items, k);
  }

  /** `GET` with the parameters `q`, `branch`, `discipline`, `revision` (each `None` when absent). */
  function Get(q: Option<string>, branch: Option<string>, discipline: Option<string>, revision: Option<string>)
    : (response: RouteResponse)
    ensures response.total == |response.results| <= |MockResults|
    ensures forall r | r in response.results :: r in MockResults
    ensures IsBlank(q.GetOr("")) ==> response == RouteResponse([], 0)
    ensures !IsBlank(q.GetOr("")) ==>
      response.results == FilterResults(MockResults, q.GetOr(""), branch.GetOr(""), discipline.GetOr(""), revision.GetOr(""))
  {
    var query := q.GetOr("");
    if IsBlank(query) then
      RouteResponse([], 0)
    else
      var results := FilterResults(MockResults, query, branch.GetOr(""), discipline.GetOr(""), revision.GetOr(""));
      SubsequenceLength(results, MockResults);
      RouteResponse(results, |results|)
  }

  /** Every mock result is a Space Systems standard, so any other discipline filter finds nothing. */
  lemma OtherDisciplineFindsNothing(q: Option<string>, branch: Option<string>, discipline: string, revision: Option<string>)
    requires discipline != "" && discipline != "ST"
    ensures Get(q, branch, Some(discipline), revision) == RouteResponse([], 0)
  {
    assert forall r | r in MockResults :: r.metadata.discipline == Some("ST");
    var response := Get(q, branch, Some(discipline), revision);
    if response.results != [] {
      assert response.results[0] in response.results;
    }
  }
}
