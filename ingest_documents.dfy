/**
 * Batch ingestion of ECSS standards (backend/ingest_documents.py): the
 * filename metadata extractor and the bookkeeping loop that ingests a list
 * of PDF paths and counts successes and failures.
 *
 * The file system and the retrieval backend are not modelled: for each path
 * the caller supplies what the environment answers (the file is missing,
 * `ingest_file` returned, or `ingest_file` raised), and the loop returns the
 * two counters together with the `ingest_file` requests it issued.
 */
module IngestDocuments {
  import opened Common
  import opened EcssFilename

  const BranchMap: map<string, string> := map[
    "E" := "Engineering",
    "M" := "Management",
    "Q" := "Quality Assurance",
    "S" := "Space Product Assurance",
    "U" := "Space Sustainability"]

  const DisciplineMap: map<string, string> := map[
    "ST" := "Space Systems",
    "HB" := "Handbooks",
    "TM" := "Technical Memoranda"]

  /** The nine keys of the record built for a matching filename. */
  const StandardKeys: set<string> := {
    "branch", "branch_name", "discipline", "discipline_name",
    "document_number", "revision", "filename", "document_type", "source"}

  /** The metadata record for `filename`: nine keys on a match, `{filename}` otherwise. */
  function ExtractMetadataFromFilename(filename: string): (m: Metadata)
    ensures "filename" in m && m["filename"] == filename
    ensures !HasEcssHead(filename) ==> m == map["filename" := filename]
    ensures HasEcssHead(filename) ==>
      && m.Keys == StandardKeys
      && m["document_type"] == "ECSS_Standard"
      && m["source"] == "ECSS_Published_Standards"
      && m["branch_name"] in BranchMap.Values + {"Unknown"}
      && m["discipline_name"] in DisciplineMap.Values + {"Unknown"}
      && (m["branch"] in BranchMap ==> m["branch_name"] == BranchMap[m["branch"]])
      && (m["discipline"] in DisciplineMap ==> m["discipline_name"] == DisciplineMap[m["discipline"]])
      && (m["branch_name"] == "Unknown" <==> m["branch"] !in BranchMap)
      && (m["discipline_name"] == "Unknown" <==> m["discipline"] !in DisciplineMap)
      && (m["revision"] == "1" <==> MatchEcss(filename).value.revision in {None, Some("1")})
  {
    match MatchEcss(filename)
    case None => map["filename" := filename]
    case Some(g) => StandardRecord(g, filename)
  }

  /** The nine-key record built from the capture groups. */
  function StandardRecord(g: EcssMatch, filename: string): (m: Metadata)
    ensures m.Keys == StandardKeys
    ensures m["branch"] == g.branch && m["discipline"] == g.discipline
    ensures m["branch_name"] == DictGet(BranchMap, g.branch, "Unknown")
    ensures m["discipline_name"] == DictGet(DisciplineMap, g.discipline, "Unknown")
    ensures m["document_number"] == g.documentNumber && m["revision"] == g.revision.GetOr("1")
    ensures m["filename"] == filename
    ensures m["document_type"] == "ECSS_Standard" && m["source"] == "ECSS_Published_Standards"
  {
    map[
      "branch" := g.branch,
      "branch_name" := DictGet(BranchMap, g.branch, "Unknown"),
      "discipline" := g.discipline,
      "discipline_name" := DictGet(DisciplineMap, g.discipline, "Unknown"),
      "document_number" := g.documentNumber,
      "revision" := g.revision.GetOr("1"),
      "filename" := filename,
      "document_type" := "ECSS_Standard",
      "source" := "ECSS_Published_Standards"]
  }

  /** The metadata is `{filename}` exactly when the filename does not start like an ECSS name. */
  lemma FilenameOnlyExactlyWithoutMatch(filename: string)
    ensures ExtractMetadataFromFilename(filename).Keys == {"filename"} <==> !HasEcssHead(filename)
    ensures !("ECSS-" <= filename) ==> ExtractMetadataFromFilename(filename) == map["filename" := filename]
  {
    if HasEcssHead(filename) {
      assert "branch" in StandardKeys;
    }
  }

  /**
   * On a match the record's groups are the regex's: the filename starts with
   * `ECSS-<branch>-<discipline>-<document_number>`, each group has the shape
   * its sub-pattern allows, the number could not have been longer, and the
   * revision is the captured digits when a `[_-]Rev[.]digits` group follows
   * the number and `"1"` when none does.
   */
  lemma StandardMetadataDescribesFilename(filename: string)
    requires HasEcssHead(filename)
    ensures var m := ExtractMetadataFromFilename(filename);
      var head := "ECSS-" + m["branch"] + "-" + m["discipline"] + "-" + m["document_number"];
      && head <= filename
      && |m["branch"]| == 1 && IsUpper(m["branch"][0])
      && |m["discipline"]| == 2 && IsUpper(m["discipline"][0]) && IsUpper(m["discipline"][1])
      && IsDocumentNumber(m["document_number"])
      && var rest := filename[|head|..];
         var num := m["document_number"];
         && (IsDigit(num[|num| - 1]) ==> rest == [] || (!IsDigit(rest[0]) && !IsUpper(rest[0])))
         && if RevisionFollows(rest) then
           && m["revision"] != [] && AllDigits(m["revision"])
           && RevisionSpec(rest, Some(m["revision"]))
         else
           m["revision"] == "1"
  {
    var g := MatchEcss(filename).value;
    var m := StandardRecord(g, filename);
    assert ExtractMetadataFromFilename(filename) == m;
    assert "ECSS-" + m["branch"] + "-" + m["discipline"] + "-" + m["document_number"] == Head(g);
    MatchEcssMeetsGreedyMatch(filename);
    RevisionPresentExactly(filename[|Head(g)|..], g.revision);
    var e := |Head(g)|;
    assert e == NumberEnd(filename);
    assert g.documentNumber == filename[10..e];
    assert e < |filename| ==> filename[|Head(g)|..][0] == filename[e];
  }

  /** `posixpath.basename`: the part of `p` after its last `/`. */
  function Basename(p: string): (b: string)
    ensures |b| <= |p| && p[|p| - |b|..] == b
    ensures '/' !in b
    ensures |b| == |p| || p[|p| - |b| - 1] == '/'
  {
    if p == [] || p[|p| - 1] == '/' then
      []
    else
      var b := Basename(p[..|p| - 1]);
      assert p[..|p| - 1][|p| - 1 - |b|..] == p[|p| - 1 - |b|..|p| - 1];
      b + [p[|p| - 1]]
  }

  /** `posixpath.join(a, b)`: an absolute `b` replaces `a`; otherwise one `/` separates them. */
  function Join(a: string, b: string): (r: string)
    ensures |r| >= |a| || r == b
    ensures |r| >= |b|
    ensures b != [] && b[0] == '/' ==> r == b
    ensures (b == [] || b[0] != '/') ==> |r| >= |a| && r[..|a|] == a && r[|r| - |b|..] == b
    ensures (b == [] || b[0] != '/') && (a == [] || a[|a| - 1] == '/') ==> r == a + b
    ensures (b == [] || b[0] != '/') && a != [] && a[|a| - 1] != '/' ==> r == a + "/" + b
  {
    if b != [] && b[0] == '/' then b
    else if a == [] || a[|a| - 1] == '/' then a + b
    else a + "/" + b
  }

  /**
   * The base name does not see a prefix that ends in `/`, nor one followed
   * by a `/` in `b`.
   */
  lemma {:induction false} BasenameAppend(x: string, b: string)
    requires x == [] || x[|x| - 1] == '/' || '/' in b
    ensures Basename(x + b) == Basename(b)
  {
    if b != [] && b[|b| - 1] != '/' {
      var b' := b[..|b| - 1];
      if !(x == [] || x[|x| - 1] == '/') {
        var j :| 0 <= j < |b| && b[j] == '/';
        assert b'[j] == '/';
      }
      assert (x + b)[..|x + b| - 1] == x + b';
      BasenameAppend(x, b');
    }
  }

  /** The file the loop ingests has the base name it passes as `filename`. */
  lemma BasenameOfJoin(a: string, b: string)
    ensures Basename(Join(a, b)) == Basename(b)
  {
    if b != [] && b[0] == '/' {
    } else if a == [] || a[|a| - 1] == '/' {
      BasenameAppend(a, b);
    } else {
      assert a + "/" + b == (a + "/") + b;
      BasenameAppend(a + "/", b);
    }
  }

  /** What the environment answers for one path of the batch. */
  datatype PathOutcome =
    | FileNotFound   // `os.path.exists(full_path)` is false
    | IngestReturned // `ingest_file` returned a document
    | IngestRaised   // `ingest_file` raised an exception

  /** The arguments of one `ingest_file` call. */
  datatype IngestRequest = IngestRequest(file: string, filename: string, metadata: Metadata, useColpali: bool)

  /** The `ingest_file` call the loop makes for `docPath`. */
  function RequestFor(pdfDirectory: string, docPath: string): (r: IngestRequest)
    ensures r.filename == Basename(docPath) && r.filename == Basename(r.file)
    ensures |docPath| <= |r.file| && r.file[|r.file| - |docPath|..] == docPath
    ensures r.metadata == ExtractMetadataFromFilename(r.filename)
    ensures r.metadata["filename"] == r.filename
    ensures r.useColpali
  {
    BasenameOfJoin(pdfDirectory, docPath);
    var filename := Basename(docPath);
    IngestRequest(Join(pdfDirectory, docPath), filename, ExtractMetadataFromFilename(filename), true)
  }

  /** How many of `outcomes` are `o`. */
  function CountOf(outcomes: seq<PathOutcome>, o: PathOutcome): (n: nat)
    ensures n <= |outcomes|
  {
    if outcomes == [] then 0
    else CountOf(outcomes[..|outcomes| - 1], o) + (if outcomes[|outcomes| - 1] == o then 1 else 0)
  }

  /** The requests issued for the paths whose file exists, in order. */
  function Requests(pdfDirectory: string, paths: seq<string>, outcomes: seq<PathOutcome>): seq<IngestRequest>
    requires |paths| == |outcomes|
  {
    if paths == [] then []
    else
      var n := |paths| - 1;
      Requests(pdfDirectory, paths[..n], outcomes[..n])
        + (if outcomes[n] == FileNotFound then [] else [RequestFor(pdfDirectory, paths[n])])
  }

  /** Every outcome is one of the three kinds. */
  lemma {:induction false} CountsPartition(outcomes: seq<PathOutcome>)
    ensures CountOf(outcomes, FileNotFound) + CountOf(outcomes, IngestReturned) + CountOf(outcomes, IngestRaised)
      == |outcomes|
  {
    if outcomes != [] {
      CountsPartition(outcomes[..|outcomes| - 1]);
    }
  }

  /** One request per path whose file exists. */
  lemma {:induction false} RequestsCount(pdfDirectory: string, paths: seq<string>, outcomes: seq<PathOutcome>)
    requires |paths| == |outcomes|
    ensures |Requests(pdfDirectory, paths, outcomes)| == |paths| - CountOf(outcomes, FileNotFound)
  {
    if paths != [] {
      var n := |paths| - 1;
      RequestsCount(pdfDirectory, paths[..n], outcomes[..n]);
    }
  }

  /**
   * Missing files are never ingested: one request per existing file, each
   * for a path whose file exists and carrying the metadata extracted from
   * the path's base name.
   */
  lemma {:induction false} RequestsAreForExistingFiles(pdfDirectory: string, paths: seq<string>, outcomes: seq<PathOutcome>)
    requires |paths| == |outcomes|
    ensures var rs := Requests(pdfDirectory, paths, outcomes);
      && |rs| == |paths| - CountOf(outcomes, FileNotFound)
      && forall r | r in rs ::
           && (exists i | 0 <= i < |paths| :: outcomes[i] != FileNotFound && r == RequestFor(pdfDirectory, paths[i]))
           && r.metadata == ExtractMetadataFromFilename(r.filename)
  {
    RequestsCount(pdfDirectory, paths, outcomes);
    RequestsFromPaths(pdfDirectory, paths, outcomes);
    forall r | r in Requests(pdfDirectory, paths, outcomes)
      ensures r.metadata == ExtractMetadataFromFilename(r.filename)
    {
      var i :| 0 <= i < |paths| && outcomes[i] != FileNotFound && r == RequestFor(pdfDirectory, paths[i]);
    }
  }

  /** Each request is the one for some path whose file exists. */
  lemma {:induction false} RequestsFromPaths(pdfDirectory: string, paths: seq<string>, outcomes: seq<PathOutcome>)
    requires |paths| == |outcomes|
    ensures forall r | r in Requests(pdfDirectory, paths, outcomes) ::
      exists i | 0 <= i < |paths| :: outcomes[i] != FileNotFound && r == RequestFor(pdfDirectory, paths[i])
  {
    if paths != [] {
      var n := |paths| - 1;
      RequestsFromPaths(pdfDirectory, paths[..n], outcomes[..n]);
      var prev := Requests(pdfDirectory, paths[..n], outcomes[..n]);
      var last := if outcomes[n] == FileNotFound then [] else [RequestFor(pdfDirectory, paths[n])];
      assert Requests(pdfDirectory, paths, outcomes) == prev + last;
      forall r | r in prev + last
        ensures exists i | 0 <= i < |paths| :: outcomes[i] != FileNotFound && r == RequestFor(pdfDirectory, paths[i])
      {
        if r in prev {
          var i :| 0 <= i < n && outcomes[..n][i] != FileNotFound && r == RequestFor(pdfDirectory, paths[..n][i]);
          assert outcomes[i] == outcomes[..n][i] && paths[i] == paths[..n][i];
        } else {
          assert r in last;
          assert outcomes[n] != FileNotFound && r == RequestFor(pdfDirectory, paths[n]);
        }
      }
    }
  }

  /** Extending the processed prefix by one path extends the counters and the requests by that path's share. */
  lemma BatchStep(pdfDirectory: string, paths: seq<string>, outcomes: seq<PathOutcome>, i: nat)
    requires |paths| == |outcomes| && i < |paths|
    ensures CountOf(outcomes[..i + 1], IngestReturned) == CountOf(outcomes[..i], IngestReturned) + (if outcomes[i] == IngestReturned then 1 else 0)
    ensures CountOf(outcomes[..i + 1], IngestRaised) == CountOf(outcomes[..i], IngestRaised) + (if outcomes[i] == IngestRaised then 1 else 0)
    ensures CountOf(outcomes[..i + 1], FileNotFound) == CountOf(outcomes[..i], FileNotFound) + (if outcomes[i] == FileNotFound then 1 else 0)
    ensures Requests(pdfDirectory, paths[..i + 1], outcomes[..i + 1])
      == Requests(pdfDirectory, paths[..i], outcomes[..i])
         + (if outcomes[i] == FileNotFound then [] else [RequestFor(pdfDirectory, paths[i])])
  {
    assert outcomes[..i + 1][..i] == outcomes[..i];
    assert paths[..i + 1][..i] == paths[..i];
  }

  /**
   * `ingest_ecss_documents`: for each path, a missing file counts as a
   * failure and is skipped; otherwise `ingest_file` is called with the path
   * joined to the directory, the base name and its metadata, and counts as
   * a success when it returns and as a failure when it raises.
   * `outcomes[i]` is the environment's answer for `documentPaths[i]`.
   */
  method IngestEcssDocuments(pdfDirectory: string, documentPaths: seq<string>, outcomes: seq<PathOutcome>)
    returns (successfulIngestions: nat, failedIngestions: nat, requests: seq<IngestRequest>)
    requires |outcomes| == |documentPaths|
    ensures successfulIngestions == CountOf(outcomes, IngestReturned)
    ensures failedIngestions == CountOf(outcomes, FileNotFound) + CountOf(outcomes, IngestRaised)
    ensures successfulIngestions + failedIngestions == |documentPaths|
    ensures requests == Requests(pdfDirectory, documentPaths, outcomes)
  {
    successfulIngestions, failedIngestions, requests := 0, 0, [];
    var i := 0;
    while i < |documentPaths|
      invariant 0 <= i <= |documentPaths|
      invariant successfulIngestions == CountOf(outcomes[..i], IngestReturned)
      invariant failedIngestions == CountOf(outcomes[..i], FileNotFound) + CountOf(outcomes[..i], IngestRaised)
      invariant requests == Requests(pdfDirectory, documentPaths[..i], outcomes[..i])
    {
      BatchStep(pdfDirectory, documentPaths, outcomes, i);
      var docPath := documentPaths[i];
      var fullPath := Join(pdfDirectory, docPath);
      var filename := Basename(docPath);
      if outcomes[i] == FileNotFound {
        failedIngestions := failedIngestions + 1;
        i := i + 1;
        continue;
      }
      var metadata := ExtractMetadataFromFilename(filename);
      assert IngestRequest(fullPath, filename, metadata, true) == RequestFor(pdfDirectory, docPath);
      requests := requests + [IngestRequest(fullPath, filename, metadata, true)];
      if outcomes[i] == IngestReturned {
        successfulIngestions := successfulIngestions + 1;
      } else {
        failedIngestions := failedIngestions + 1;
      }
      i := i + 1;
    }
    assert outcomes[..i] == outcomes;
    assert documentPaths[..i] == documentPaths;
    CountsPartition(outcomes);
  }

  // The initial batch names five documents; each lemma below covers every
  // filename that starts like one of them.

  /** `s` starts `ECSS-S-ST-00C ` (with the space), like the System Description's filename. */
  predicate StartsLikeSystemDescription(s: string) {
    && |s| >= 14
    && s[0] == 'E' && s[1] == 'C' && s[2] == 'S' && s[3] == 'S' && s[4] == '-'
    && s[5] == 'S' && s[6] == '-' && s[7] == 'S' && s[8] == 'T' && s[9] == '-'
    && s[10] == '0' && s[11] == '0' && s[12] == 'C' && s[13] == ' '
  }

  /** A space is not a separator: `ECSS-S-ST-00C Rev.1(...)` keeps the default revision. */
  lemma SystemDescriptionMetadata(s: string)
    requires StartsLikeSystemDescription(s)
    ensures MatchEcss(s) == Some(EcssMatch("S", "ST", "00C", None))
    ensures var m := ExtractMetadataFromFilename(s);
      m["branch_name"] == "Space Product Assurance" && m["discipline_name"] == "Space Systems"
      && m["document_number"] == "00C" && m["revision"] == "1"
  {
    assert s[10..][..2] == "00";
    LeadingDigitsExact(s[10..], 2);
    assert s[5..6] == "S" && s[7..9] == "ST" && s[10..13] == "00C";
    assert s[13..][0] == ' ';
  }

  /**
   * A name `ECSS-<branch>-ST-<number><sep>Rev.<revision>(...)` with a
   * two-digit, one-letter number: the record takes the branch and the
   * number from the name and the one revision digit after the marker.
   */
  lemma RevisedStandardMetadata(s: string, branch: char, d0: char, d1: char, letter: char, sep: char, revision: char)
    requires IsUpper(branch) && IsDigit(d0) && IsDigit(d1) && IsUpper(letter)
    requires (sep == '_' || sep == '-') && IsDigit(revision)
    requires |s| >= 20
    requires s[0] == 'E' && s[1] == 'C' && s[2] == 'S' && s[3] == 'S' && s[4] == '-'
    requires s[5] == branch && s[6] == '-' && s[7] == 'S' && s[8] == 'T' && s[9] == '-'
    requires s[10] == d0 && s[11] == d1 && s[12] == letter && s[13] == sep && s[14] == 'R'
    requires s[15] == 'e' && s[16] == 'v' && s[17] == '.' && s[18] == revision && s[19] == '('
    ensures MatchEcss(s) == Some(EcssMatch([branch], "ST", [d0, d1, letter], Some([revision])))
    ensures var m := ExtractMetadataFromFilename(s);
      && m["branch"] == [branch] && m["branch_name"] == DictGet(BranchMap, [branch], "Unknown")
      && m["discipline_name"] == "Space Systems"
      && m["document_number"] == [d0, d1, letter] && m["revision"] == [revision]
  {
    RevisedNumberShape(s);
    assert s[5..6] == [branch] && s[7..9] == "ST" && s[10..13] == [d0, d1, letter] && s[18..19] == [revision];
  }

  /** `ECSS-E-ST-20-08C_Rev.2(...)`: the two-part number stops the match after `20`, so the revision is the default. */
  lemma TwoPartNumberMetadata(s: string)
    requires |s| >= 14
    requires s[0] == 'E' && s[1] == 'C' && s[2] == 'S' && s[3] == 'S' && s[4] == '-'
    requires s[5] == 'E' && s[6] == '-' && s[7] == 'S' && s[8] == 'T' && s[9] == '-'
    requires s[10] == '2' && s[11] == '0' && s[12] == '-' && s[13] == '0'
    ensures MatchEcss(s) == Some(EcssMatch("E", "ST", "20", None))
    ensures var m := ExtractMetadataFromFilename(s);
      m["branch_name"] == "Engineering" && m["discipline_name"] == "Space Systems"
      && m["document_number"] == "20" && m["revision"] == "1"
  {
    assert s[10..][..2] == "20";
    LeadingDigitsExact(s[10..], 2);
    assert s[5..6] == "E" && s[7..9] == "ST" && s[10..12] == "20";
    var rest := s[12..];
    assert rest[0] == '-' && rest[1] == '0';
  }

  /** The five documents of the initial batch and what the extractor makes of their names. */
  const InitialDocuments: seq<string> := [
    "ECSS-S-ST-00C Rev.1(15June2020).pdf",
    "ECSS-Q-ST-70C-Rev.2(15October2019).pdf",
    "ECSS-E-ST-50C-Rev.1(1March2021).pdf",
    "ECSS-M-ST-10C_Rev.1(6March2009).pdf",
    "ECSS-E-ST-20-08C_Rev.2(20April2023).pdf"]

  /** The first initial name has its revision behind a space, which the regex does not reach: the default revision `"1"` is recorded. */
  lemma InitialSystemDescription()
    ensures MatchEcss(InitialDocuments[0]) == Some(EcssMatch("S", "ST", "00C", None))
    ensures var m := ExtractMetadataFromFilename(InitialDocuments[0]);
      m["document_number"] == "00C" && m["revision"] == "1"
  {
    var s := InitialDocuments[0];
    assert "ECSS-S-ST-00C " <= s;
    assert StartsLikeSystemDescription(s) by {
      assert forall i | 0 <= i < 14 :: s[i] == s[..14][i];
    }
    SystemDescriptionMetadata(s);
  }

  /** The second initial name is recorded with number `70C` and revision `2`. */
  lemma InitialMaterialsAndProcesses()
    ensures MatchEcss(InitialDocuments[1]) == Some(EcssMatch("Q", "ST", "70C", Some("2")))
    ensures var m := ExtractMetadataFromFilename(InitialDocuments[1]);
      m["document_number"] == "70C" && m["revision"] == "2"
  {
    var s := InitialDocuments[1];
    assert "ECSS-Q-ST-70C-Rev.2(" <= s;
    assert
      s[0] == 'E' && s[1] == 'C' && s[2] == 'S' && s[3] == 'S' && s[4] == '-'
      && s[5] == 'Q' && s[6] == '-' && s[7] == 'S' && s[8] == 'T' && s[9] == '-'
      && s[10] == '7' && s[11] == '0' && s[12] == 'C' && s[13] == '-' && s[14] == 'R'
      && s[15] == 'e' && s[16] == 'v' && s[17] == '.' && s[18] == '2' && s[19] == '('
    by {
      assert forall i | 0 <= i < 20 :: s[i] == s[..20][i];
    }
    RevisedStandardMetadata(s, 'Q', '7', '0', 'C', '-', '2');
  }

  /** The third initial name is recorded with number `50C` and its explicit revision `1`. */
  lemma InitialCommunications()
    ensures MatchEcss(InitialDocuments[2]) == Some(EcssMatch("E", "ST", "50C", Some("1")))
    ensures var m := ExtractMetadataFromFilename(InitialDocuments[2]);
      m["document_number"] == "50C" && m["revision"] == "1"
  {
    var s := InitialDocuments[2];
    assert "ECSS-E-ST-50C-Rev.1(" <= s;
    assert
      s[0] == 'E' && s[1] == 'C' && s[2] == 'S' && s[3] == 'S' && s[4] == '-'
      && s[5] == 'E' && s[6] == '-' && s[7] == 'S' && s[8] == 'T' && s[9] == '-'
      && s[10] == '5' && s[11] == '0' && s[12] == 'C' && s[13] == '-' && s[14] == 'R'
      && s[15] == 'e' && s[16] == 'v' && s[17] == '.' && s[18] == '1' && s[19] == '('
    by {
      assert forall i | 0 <= i < 20 :: s[i] == s[..20][i];
    }
    RevisedStandardMetadata(s, 'E', '5', '0', 'C', '-', '1');
  }

  /** The fourth initial name, with an underscore before `Rev`, is recorded with number `10C` and revision `1`. */
  lemma InitialProjectPlanning()
    ensures MatchEcss(InitialDocuments[3]) == Some(EcssMatch("M", "ST", "10C", Some("1")))
    ensures var m := ExtractMetadataFromFilename(InitialDocuments[3]);
      m["document_number"] == "10C" && m["revision"] == "1"
  {
    var s := InitialDocuments[3];
    assert "ECSS-M-ST-10C_Rev.1(" <= s;
    assert
      s[0] == 'E' && s[1] == 'C' && s[2] == 'S' && s[3] == 'S' && s[4] == '-'
      && s[5] == 'M' && s[6] == '-' && s[7] == 'S' && s[8] == 'T' && s[9] == '-'
      && s[10] == '1' && s[11] == '0' && s[12] == 'C' && s[13] == '_' && s[14] == 'R'
      && s[15] == 'e' && s[16] == 'v' && s[17] == '.' && s[18] == '1' && s[19] == '('
    by {
      assert forall i | 0 <= i < 20 :: s[i] == s[..20][i];
    }
    RevisedStandardMetadata(s, 'M', '1', '0', 'C', '_', '1');
  }

  /** The last initial name, `Rev.2` of a two-part number, is recorded as number `20` with the default revision `"1"`. */
  lemma InitialSoftwareDevelopment()
    ensures MatchEcss(InitialDocuments[4]) == Some(EcssMatch("E", "ST", "20", None))
    ensures var m := ExtractMetadataFromFilename(InitialDocuments[4]);
      m["document_number"] == "20" && m["revision"] == "1"
  {
    var s := InitialDocuments[4];
    assert "ECSS-E-ST-20-0" <= s;
    assert
      s[0] == 'E' && s[1] == 'C' && s[2] == 'S' && s[3] == 'S' && s[4] == '-'
      && s[5] == 'E' && s[6] == '-' && s[7] == 'S' && s[8] == 'T' && s[9] == '-'
      && s[10] == '2' && s[11] == '0' && s[12] == '-' && s[13] == '0'
    by {
      assert forall i | 0 <= i < 14 :: s[i] == s[..14][i];
    }
    TwoPartNumberMetadata(s);
  }
}
