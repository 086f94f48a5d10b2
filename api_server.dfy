/**
 * The HTTP proxy of backend/api_server.py: how `search`, `list_documents`
 * and `health_check` turn what the retrieval backend answers into their
 * JSON payloads.
 *
 * The backend client is a value that records what each call would answer:
 * `query` and `get_document` as functions of their argument, `list_documents`
 * as one outcome.  Attributes the handlers probe with `hasattr`/`getattr`
 * are `Option` fields, `None` when the attribute is absent.  Flask routing,
 * CORS, `jsonify` and the environment are not modelled: the query parameter
 * and the `MORPHIK_URI` variable are inputs, and constructing a client is
 * the `connect` input of `GetMorphikClient`.
 */
module ApiServer {
  import opened Common
  import IngestDocuments

  /** A citation of the completion: `document_id` and `score`, each possibly absent. */
  datatype Source = Source(documentId: Option<string>, score: Option<real>)

  /** The response of `db.query`: `completion` and `sources`, each possibly absent. */
  datatype CompletionResponse = CompletionResponse(completion: Option<string>, sources: Option<seq<Source>>)

  /** A backend document record. */
  datatype Document = Document(
    externalId: Option<string>,
    filename: Option<string>,
    metadata: Option<Metadata>,
    systemMetadata: Option<Metadata>)

  /** `db.query(q)` raises, or returns a response (`None` for a falsy one). */
  datatype QueryOutcome = QueryRaised(message: string) | QueryReturned(response: Option<CompletionResponse>)

  datatype FetchOutcome = FetchRaised(message: string) | Fetched(document: Document)

  datatype ListOutcome = ListRaised(message: string) | Listed(documents: seq<Document>)

  /** A connected client: what each backend call answers. */
  datatype Client = Client(
    query: string -> QueryOutcome,
    getDocument: string -> FetchOutcome,
    listDocuments: ListOutcome)

  /**
   * `get_morphik_client`: no client when `MORPHIK_URI` is unset or empty;
   * otherwise the client `connect` builds, or none when construction raised.
   */
  function GetMorphikClient(morphikUri: Option<string>, connect: string -> Option<Client>): (db: Option<Client>)
    ensures (morphikUri.None? || morphikUri.value == "") ==> db.None?
    ensures db.Some? <==> morphikUri.Some? && morphikUri.value != "" && connect(morphikUri.value).Some?
  {
    if morphikUri.None? || morphikUri.value == "" then None else connect(morphikUri.value)
  }

  const ConnectionFailed: string := "Morphik connection failed"

  /** The placeholder score every search result carries. */
  const DefaultScore: real := 0.95

  /** `str(e)` of the `AttributeError` raised when a response has no `sources` attribute. */
  const NoSourcesAttribute: string := "'CompletionResponse' object has no attribute 'sources'"

  /** A character Python's `str.strip()` removes. */
  predicate IsPythonSpace(c: char) {
    || c == '\t' || c == '\n' || c == '\U{000B}' || c == '\U{000C}' || c == '\r'
    || ('\U{001C}' <= c <= '\U{001F}') || c == ' ' || c == '\U{0085}' || c == '\U{00A0}'
    || c == '\U{1680}' || ('\U{2000}' <= c <= '\U{200A}') || c == '\U{2028}' || c == '\U{2029}'
    || c == '\U{202F}' || c == '\U{205F}' || c == '\U{3000}'
  }

  /** `not s.strip()`: nothing is left once the whitespace is stripped. */
  predicate IsBlank(s: string) {
    Strip(s, IsPythonSpace) == []
  }

  /** A query is blank exactly when it is empty or every character is whitespace. */
  lemma BlankExactlyWhenAllWhitespace(s: string)
    ensures IsBlank(s) <==> forall i | 0 <= i < |s| :: IsPythonSpace(s[i])
  {
    StripEmptyExactlyWhenAllSpace(s, IsPythonSpace);
  }

  datatype SearchResult = SearchResult(
    id: string,
    title: string,
    content: string,
    score: real,
    relevance: real,
    metadata: Metadata)

  datatype SearchPayload = SearchPayload(
    results: seq<SearchResult>,
    total: int,
    query: string,
    error: Option<string>)

  /** The `document_info` record: the cited document's filename and metadata. */
  datatype DocumentInfo = DocumentInfo(filename: string, metadata: Metadata)

  /** A payload whose `total` is `len(results)`. */
  function Payload(results: seq<SearchResult>, query: string, error: Option<string>): (p: SearchPayload)
    ensures p.total == |p.results|
  {
    SearchPayload(results, |results|, query, error)
  }

  /** The identifier `search` fetches: the first citation's `document_id`, when it is truthy. */
  function CitedDocumentId(sources: seq<Source>): (id: Option<string>)
    ensures id.Some? <==> sources != [] && sources[0].documentId.Some? && sources[0].documentId.value != ""
    ensures id.Some? ==> id == sources[0].documentId && id.value != ""
  {
    if |sources| > 0 && sources[0].documentId.Some? && sources[0].documentId.value != "" then
      sources[0].documentId
    else
      None
  }

  /**
   * `document_info`: present exactly when there is a truthy citation and
   * fetching it did not raise; then the document's filename (default
   * `"Unknown"`) and metadata (default `{}`).
   */
  function ResolveDocument(db: Client, sources: seq<Source>): (info: Option<DocumentInfo>)
    ensures info.Some? <==> CitedDocumentId(sources).Some? && db.getDocument(CitedDocumentId(sources).value).Fetched?
    ensures info.Some? ==>
      var document := db.getDocument(CitedDocumentId(sources).value).document;
      && (document.filename.Some? ==> info.value.filename == document.filename.value)
      && (document.filename.None? ==> info.value.filename == "Unknown")
      && (document.metadata.Some? ==> info.value.metadata == document.metadata.value)
      && (document.metadata.None? ==> info.value.metadata == map[])
  {
    match CitedDocumentId(sources)
    case None => None
    case Some(docId) =>
      match db.getDocument(docId)
      case FetchRaised(_) => None
      case Fetched(document) => Some(DocumentInfo(document.filename.GetOr("Unknown"), document.metadata.GetOr(map[])))
  }

  /**
   * The metadata a result carries when no document record was obtained.
   * Its `filename` is chosen by testing `document_info` again, which is
   * always absent where the record is used, so it is always `"Unknown"`.
   */
  const FallbackMetadata: Metadata := map[
    "branch" := "S",
    "branch_name" := "Space Product Assurance",
    "discipline" := "ST",
    "discipline_name" := "Space Systems",
    "document_number" := "00C",
    "revision" := "1",
    "filename" := "Unknown",
    "document_type" := "ECSS_Standard",
    "source" := "ECSS_Published_Standards"]

  /**
   * The one result `search` builds from a completion: the first citation's
   * id and score, with `"1"` and 0 when there is no citation or the
   * attribute is absent; the document's filename and metadata when
   * `document_info` is present, `"ECSS Document"` and the fallback when not.
   */
  function MakeResult(sources: seq<Source>, completion: string, info: Option<DocumentInfo>): (r: SearchResult)
    ensures r.content == completion && r.score == DefaultScore
    ensures sources == [] ==> r.id == "1" && r.relevance == 0.0
    ensures sources != [] && sources[0].documentId.Some? ==> r.id == sources[0].documentId.value
    ensures sources != [] && sources[0].documentId.None? ==> r.id == "1"
    ensures sources != [] && sources[0].score.Some? ==> r.relevance == sources[0].score.value
    ensures sources != [] && sources[0].score.None? ==> r.relevance == 0.0
    ensures info.Some? ==> r.title == info.value.filename && r.metadata == info.value.metadata
    ensures info.None? ==> r.title == "ECSS Document" && r.metadata == FallbackMetadata
  {
    SearchResult(
      if |sources| > 0 then sources[0].documentId.GetOr("1") else "1",
      if info.Some? then info.value.filename else "ECSS Document",
      completion,
      DefaultScore,
      if |sources| > 0 then sources[0].score.GetOr(0.0) else 0.0,
      if info.Some? then info.value.metadata else FallbackMetadata)
  }

  /**
   * `search` builds a result exactly when the query is not blank, a client
   * exists, the query returns a response with a `completion`, and the
   * response has a `sources` attribute (its absence raises while building).
   */
  ghost predicate YieldsResult(query: string, client: Option<Client>) {
    && !IsBlank(query)
    && client.Some?
    && client.value.query(query).QueryReturned?
    && client.value.query(query).response.Some?
    && client.value.query(query).response.value.completion.Some?
    && client.value.query(query).response.value.sources.Some?
  }

  /** `search` on the query parameter `q` (absent: `None`) with the client `get_morphik_client` gave. */
  function Search(q: Option<string>, client: Option<Client>): (p: SearchPayload)
    ensures p.query == q.GetOr("")
    ensures p.total == |p.results| && |p.results| <= 1
    ensures IsBlank(q.GetOr("")) ==> p == SearchPayload([], 0, q.GetOr(""), None)
    ensures !IsBlank(q.GetOr("")) && client.None? ==> p == SearchPayload([], 0, q.GetOr(""), Some(ConnectionFailed))
    ensures |p.results| == 1 <==> YieldsResult(q.GetOr(""), client)
    ensures p.results != [] ==>
      && p.error.None?
      && Some(p.results[0].content) == client.value.query(q.GetOr("")).response.value.completion
      && p.results[0].score == DefaultScore
    ensures p.error.Some? ==> p.results == []
    ensures !IsBlank(q.GetOr("")) && client.Some? && client.value.query(q.GetOr("")).QueryRaised? ==>
      p == SearchPayload([], 0, q.GetOr(""), Some(client.value.query(q.GetOr("")).message))
    ensures !IsBlank(q.GetOr("")) && client.Some? && client.value.query(q.GetOr("")).QueryReturned? ==>
      var response := client.value.query(q.GetOr("")).response;
      && (response.None? || response.value.completion.None? ==> p == SearchPayload([], 0, q.GetOr(""), None))
      && (response.Some? && response.value.completion.Some? && response.value.sources.None? ==>
            p == SearchPayload([], 0, q.GetOr(""), Some(NoSourcesAttribute)))
    ensures p.error.Some? <==>
      && !IsBlank(q.GetOr(""))
      && (|| client.None?
          || client.value.query(q.GetOr("")).QueryRaised?
          || (var response := client.value.query(q.GetOr("")).response;
              response.Some? && response.value.completion.Some? && response.value.sources.None?))
  {
    var query := q.GetOr("");
    if IsBlank(query) then
      Payload([], query, None)
    else
      match client
      case None => Payload([], query, Some(ConnectionFailed))
      case Some(db) =>
        match db.query(query)
        case QueryRaised(message) => Payload([], query, Some(message))
        case QueryReturned(response) =>
          if response.Some? && response.value.completion.Some? then
            match response.value.sources
            case None => Payload([], query, Some(NoSourcesAttribute))
            case Some(sources) =>
              var info := ResolveDocument(db, sources);
              Payload([MakeResult(sources, response.value.completion.value, info)], query, None)
          else
            Payload([], query, None)
  }

  /** A blank query is answered without looking at the client at all. */
  lemma BlankSearchIgnoresClient(q: Option<string>, client1: Option<Client>, client2: Option<Client>)
    requires IsBlank(q.GetOr(""))
    ensures Search(q, client1) == Search(q, client2)
    ensures Search(q, client1).results == [] && Search(q, client1).error.None?
  {
  }

  /** The fallback metadata is a fixed record whose `filename` is `"Unknown"`. */
  lemma FallbackMetadataFilename()
    ensures FallbackMetadata.Keys == IngestDocuments.StandardKeys
    ensures FallbackMetadata["filename"] == "Unknown"
    ensures FallbackMetadata["branch"] == "S" && FallbackMetadata["discipline"] == "ST"
  {
  }

  /** The fallback is the record of `ECSS-S-ST-00C Rev.1(...)` with the filename blanked to `"Unknown"`. */
  lemma FallbackIsSystemDescription(filename: string)
    requires IngestDocuments.StartsLikeSystemDescription(filename)
    ensures FallbackMetadata == IngestDocuments.ExtractMetadataFromFilename(filename)["filename" := "Unknown"]
  {
    IngestDocuments.SystemDescriptionMetadata(filename);
  }

  /**
   * How the one result is composed.  Without citations: id `"1"`, relevance
   * 0, title `"ECSS Document"` and the fallback metadata.  With a citation:
   * its `document_id` (default `"1"`) and `score` (default 0); the cited
   * document is fetched only for a truthy id; when the fetch raised, or
   * nothing was fetched, the title and metadata fall back; when it
   * succeeded, they are the document's filename (default `"Unknown"`) and
   * metadata (default `{}`).
   */
  lemma SearchResultFields(q: Option<string>, client: Option<Client>)
    requires YieldsResult(q.GetOr(""), client)
    ensures var db := client.value;
      var response := db.query(q.GetOr("")).response.value;
      var sources := response.sources.value;
      var r := Search(q, client).results[0];
      && r.content == response.completion.value
      && r.score == DefaultScore
      && (sources == [] ==>
            r.id == "1" && r.relevance == 0.0 && r.title == "ECSS Document" && r.metadata == FallbackMetadata)
      && (sources != [] ==>
            r.id == sources[0].documentId.GetOr("1") && r.relevance == sources[0].score.GetOr(0.0))
      && (CitedDocumentId(sources).None? ==>
            r.title == "ECSS Document" && r.metadata == FallbackMetadata)
      && (CitedDocumentId(sources).Some? && db.getDocument(CitedDocumentId(sources).value).FetchRaised? ==>
            r.title == "ECSS Document" && r.metadata == FallbackMetadata)
      && (CitedDocumentId(sources).Some? && db.getDocument(CitedDocumentId(sources).value).Fetched? ==>
            var document := db.getDocument(CitedDocumentId(sources).value).document;
            r.title == document.filename.GetOr("Unknown") && r.metadata == document.metadata.GetOr(map[]))
  {
  }

  datatype DocumentSummary = DocumentSummary(id: string, filename: string, status: string, metadata: Metadata)

  datatype DocumentsPayload = DocumentsPayload(documents: seq<DocumentSummary>, total: int, error: Option<string>)

  /** The summary of one document record, with `"Unknown"` and `{}` for what is missing. */
  function Summarize(document: Document): (d: DocumentSummary)
    ensures document.externalId.Some? ==> d.id == document.externalId.value
    ensures document.externalId.None? ==> d.id == "Unknown"
    ensures document.filename.Some? ==> d.filename == document.filename.value
    ensures document.filename.None? ==> d.filename == "Unknown"
    ensures document.systemMetadata.Some? && "status" in document.systemMetadata.value ==>
      d.status == document.systemMetadata.value["status"]
    ensures document.systemMetadata.None? || "status" !in document.systemMetadata.value ==> d.status == "Unknown"
    ensures document.metadata.Some? ==> d.metadata == document.metadata.value
    ensures document.metadata.None? ==> d.metadata == map[]
  {
    DocumentSummary(
      document.externalId.GetOr("Unknown"),
      document.filename.GetOr("Unknown"),
      DictGet(document.systemMetadata.GetOr(map[]), "status", "Unknown"),
      document.metadata.GetOr(map[]))
  }

  /** `list_documents`: one summary per backend document, in order. */
  method ListDocuments(client: Option<Client>) returns (p: DocumentsPayload)
    ensures client.None? ==> p == DocumentsPayload([], 0, Some(ConnectionFailed))
    ensures client.Some? && client.value.listDocuments.ListRaised? ==>
      p == DocumentsPayload([], 0, Some(client.value.listDocuments.message))
    ensures client.Some? && client.value.listDocuments.Listed? ==>
      var documents := client.value.listDocuments.documents;
      && p.error.None?
      && p.total == |p.documents| == |documents|
      && forall i | 0 <= i < |documents| ::
           && p.documents[i].id == documents[i].externalId.GetOr("Unknown")
           && p.documents[i].filename == documents[i].filename.GetOr("Unknown")
           && (documents[i].systemMetadata.Some? && "status" in documents[i].systemMetadata.value ==>
                 p.documents[i].status == documents[i].systemMetadata.value["status"])
           && (documents[i].systemMetadata.None? || "status" !in documents[i].systemMetadata.value ==>
                 p.documents[i].status == "Unknown")
           && p.documents[i].metadata == documents[i].metadata.GetOr(map[])
  {
    if client.None? {
      return DocumentsPayload([], 0, Some(ConnectionFailed));
    }
    var db := client.value;
    match db.listDocuments
    case ListRaised(message) =>
      p := DocumentsPayload([], 0, Some(message));
    case Listed(documents) =>
      var docList: seq<DocumentSummary> := [];
      var i := 0;
      while i < |documents|
        invariant 0 <= i <= |documents|
        invariant |docList| == i
        invariant forall k | 0 <= k < i :: docList[k] == Summarize(documents[k])
      {
        docList := docList + [Summarize(documents[i])];
        i := i + 1;
      }
      p := DocumentsPayload(docList, |docList|, None);
  }

  datatype Health = Health(status: string, morphikConnected: bool)

  /** `health_check`: healthy and connected exactly when a client was obtained, degraded otherwise. */
  function HealthCheck(client: Option<Client>): (h: Health)
    ensures h.morphikConnected <==> client.Some?
    ensures h.status == "healthy" <==> client.Some?
    ensures h.status == "degraded" <==> client.None?
  {
    if client.Some? then Health("healthy", true) else Health("degraded", false)
  }

  /** With `MORPHIK_URI` unset or empty the health check reports degraded and not connected. */
  lemma HealthWithoutUri(morphikUri: Option<string>, connect: string -> Option<Client>)
    requires morphikUri.None? || morphikUri.value == ""
    ensures HealthCheck(GetMorphikClient(morphikUri, connect)) == Health("degraded", false)
  {
  }
}
