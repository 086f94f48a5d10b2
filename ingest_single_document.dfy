/**
 * The single-document ingestion script (backend/ingest_single_document.py)
 * carries its own copy of the filename metadata extractor, with its own two
 * code tables, and applies it to one hard-coded filename.  The copy is
 * modelled as written and proved to agree with the batch script's extractor
 * on every input.  The regex is the same pattern under the same `re.match`,
 * so both copies use `EcssFilename.MatchEcss`.
 */
module IngestSingleDocument {
  import opened Common
  import opened EcssFilename
  import IngestDocuments

  const BranchMap: map<string, string> := map[
    "E" := "Engineering",
    "M" := "Management",
    "Q" := "Quality Assurance",
    "S" := "Space Product Assurance",
    "U" := "Space Sustainability"]

  const DisciplineMap: map<string, string> := map[
    "ST" := "Space Systems",
    "HB" := "Handbooks",
    "TM" := "Technical Memoranda"]

  /** The script's copy of the extractor: nine keys on a match, `{filename}` otherwise. */
  function ExtractMetadataFromFilename(filename: string): (m: Metadata)
    ensures !HasEcssHead(filename) ==> m == map["filename" := filename]
    ensures HasEcssHead(filename) ==>
      && "revision" in m && "branch_name" in m && "discipline_name" in m && "branch" in m && "discipline" in m
      && (m["branch"] in BranchMap ==> m["branch_name"] == BranchMap[m["branch"]])
      && (m["discipline"] in DisciplineMap ==> m["discipline_name"] == DisciplineMap[m["discipline"]])
      && (MatchEcss(filename).value.revision.None? ==> m["revision"] == "1")
      && m["branch_name"] in BranchMap.Values + {"Unknown"}
      && m["discipline_name"] in DisciplineMap.Values + {"Unknown"}
  {
    match MatchEcss(filename)
    case None => map["filename" := filename]
    case Some(g) =>
      map[
        "branch" := g.branch,
        "branch_name" := DictGet(BranchMap, g.branch, "Unknown"),
        "discipline" := g.discipline,
        "discipline_name" := DictGet(DisciplineMap, g.discipline, "Unknown"),
        "document_number" := g.documentNumber,
        "revision" := g.revision.GetOr("1"),
        "filename" := filename,
        "document_type" := "ECSS_Standard",
        "source" := "ECSS_Published_Standards"]
  }

  /** The copy returns what the batch script's extractor returns, for every filename. */
  lemma SameAsBatchExtractor(filename: string)
    ensures ExtractMetadataFromFilename(filename) == IngestDocuments.ExtractMetadataFromFilename(filename)
  {
    assert BranchMap == IngestDocuments.BranchMap;
    assert DisciplineMap == IngestDocuments.DisciplineMap;
  }

  /**
   * The hard-coded `ECSS-S-ST-00C Rev.1(15June2020).pdf`, and any filename
   * starting with `ECSS-S-ST-00C ` like it, is classified as Space Product
   * Assurance / Space Systems, number `00C`, default revision `1`.
   */
  lemma SingleDocumentMetadata(filename: string)
    requires IngestDocuments.StartsLikeSystemDescription(filename)
    ensures ExtractMetadataFromFilename(filename) == map[
      "branch" := "S",
      "branch_name" := "Space Product Assurance",
      "discipline" := "ST",
      "discipline_name" := "Space Systems",
      "document_number" := "00C",
      "revision" := "1",
      "filename" := filename,
      "document_type" := "ECSS_Standard",
      "source" := "ECSS_Published_Standards"]
  {
    IngestDocuments.SystemDescriptionMetadata(filename);
  }

  /** The one filename the script ingests. */
  const HardCodedFilename := "ECSS-S-ST-00C Rev.1(15June2020).pdf"

  /** What the script sends as the metadata of its one document. */
  lemma HardCodedDocumentMetadata()
    ensures ExtractMetadataFromFilename(HardCodedFilename) == map[
      "branch" := "S",
      "branch_name" := "Space Product Assurance",
      "discipline" := "ST",
      "discipline_name" := "Space Systems",
      "document_number" := "00C",
      "revision" := "1",
      "filename" := HardCodedFilename,
      "document_type" := "ECSS_Standard",
      "source" := "ECSS_Published_Standards"]
  {
    var s := HardCodedFilename;
    assert "ECSS-S-ST-00C " <= s;
    assert IngestDocuments.StartsLikeSystemDescription(s) by {
      assert forall i | 0 <= i < 14 :: s[i] == s[..14][i];
    }
    SingleDocumentMetadata(s);
  }
}
