# ECSS Hunt core, modelled in Dafny

ECSS Hunt is a search front end over the published ECSS space standards (Engineering, Management,
Quality, Space Product Assurance, Sustainability). Its core has four parts:

- A **filename metadata extractor**. It classifies a standard by its filename. The function matches
  `ECSS-([A-Z])-([A-Z]{2})-(\d+[A-Z]?)(?:[_-]Rev\.?(\d+))?` at the start of the name. It then builds
  a nine-key record: branch and discipline codes with their names (`"Unknown"` for codes outside the
  two tables), the document number, the revision (`"1"` when absent), the filename itself, and two
  provenance constants. There are two copies of it, one in each ingestion script.
- The **batch ingestion loop**. For each document path it checks that the file exists, then calls
  the retrieval backend's `ingest_file` with the joined path, the base name and the extracted
  metadata. It counts successes and failures.
- The **backend HTTP proxy** has three endpoints:
  - `search` turns the backend's completion response into at most one search result. A raising
    `db.query`, or a completion without a `sources` attribute, becomes an error payload. A raising
    `get_document` is swallowed, and the result falls back to `"ECSS Document"` and the fallback
    metadata.
  - `list_documents` maps each backend document to a summary, with defaults for missing fields.
  - `health_check` reports whether a backend client could be obtained.
- The **frontend search route**. It filters three mock results by a case-insensitive substring test
  on title or content, then by the optional branch, discipline and revision parameters.

The files:

- `common.dfy`: `Option`, the metadata dictionary type, the dictionary lookup `d.get(key, default)`,
  and whitespace stripping (`str.strip`, `String.prototype.trim`) over a given whitespace set.
- `ecss_filename.dfy`: the pattern under `re.match`. It is modelled as a greedy parser (`MatchEcss`).
  A declarative statement of what the pattern captures (`GreedyMatch`) sits beside it, and lemmas
  prove the two agree in both directions.
- `ingest_documents.dfy`:
  - the extractor;
  - `os.path.basename` and `os.path.join` on POSIX paths;
  - the ingestion loop as a method. The environment enters it as one `PathOutcome` per path: file
    missing, `ingest_file` returned, or `ingest_file` raised. The method returns the two counters
    and the sequence of `ingest_file` requests it made.
- `ingest_single_document.dfy`: the single-document script's copy of the extractor, with the proof
  that it agrees with the batch copy on every filename.
- `api_server.dfy`: the three endpoints.
  - The backend client is a value recording what each call answers.
  - An attribute that `hasattr`/`getattr` probes is an `Option`.
  - The `MORPHIK_URI` variable is an input, and so is the act of constructing a client.
- `search_route.dfy`: the `GET` handler of the search route and its filter pipeline.

## Model

| member | source | states |
|---|---|---|
| `Common.StripIsInnerSlice` | backend/api_server.py:33 | stripping keeps one contiguous slice of the input; everything cut off before and after it is whitespace |
| `Common.StripEndsAreNotSpace` | backend/api_server.py:33 | the stripped text neither starts nor ends with whitespace |
| `Common.StripEmptyExactlyWhenAllSpace` | backend/api_server.py:33 | stripping leaves nothing if and only if every character is whitespace |
| `EcssFilename.MatchEcss` | backend/ingest_documents.py:13-17 | `re.match` succeeds exactly when the name starts with `ECSS-`, an uppercase letter, `-`, two uppercase letters, `-` and a digit; a name not starting with `ECSS-` never matches |
| `EcssFilename.MatchEcssIsGreedyMatch` | backend/ingest_documents.py:13-14 | the parser returns groups `g` if and only if `g` is what the pattern captures: each group has its sub-pattern's shape, the literal text and groups form a prefix of the name, the number could not be longer, and the revision group is present exactly when it can match |
| `EcssFilename.MatchEcssMeetsGreedyMatch` | backend/ingest_documents.py:13-14 | the groups the parser returns meet the declarative description of the match |
| `EcssFilename.GreedyMatchDeterminesMatch` | backend/ingest_documents.py:13-14 | any groups meeting the declarative description are the ones the parser returns, so the capture is unique |
| `EcssFilename.LeadingDigits` | backend/ingest_documents.py:13 | the greedy digit run at the start of a string: all digits, and the next character, if any, is not a digit |
| `EcssFilename.LeadingDigitsExact` | backend/ingest_documents.py:13 | a digit run that cannot be extended is exactly as long as the greedy `\d+` takes |
| `EcssFilename.NumberEnd` | backend/ingest_documents.py:13 | where `(\d+[A-Z]?)` stops: the text taken has the shape `\d+[A-Z]?`, and when it ends in a digit the next character is neither a digit nor an uppercase letter |
| `EcssFilename.NumberShape` | backend/ingest_documents.py:13 | the greedy digit run at position 10, plus at most one uppercase letter after it, has the number's shape and cannot be extended |
| `EcssFilename.NumberEndExact` | backend/ingest_documents.py:13 | a number of that shape at position 10 that cannot be extended is exactly where the parser stops |
| `EcssFilename.HeadOfMatch` | backend/ingest_documents.py:13 | on a match, `ECSS-`, the separators and the three captured groups spell the name exactly up to where the number ends |
| `EcssFilename.HeadDeterminesGroups` | backend/ingest_documents.py:13 | a prefix shaped like that text fixes the positions of the three groups and implies the match exists |
| `EcssFilename.MatchRevision` | backend/ingest_documents.py:13 | the optional group `(?:[_-]Rev\.?(\d+))?` captures only after `_Rev` or `-Rev` and only a non-empty run of digits |
| `EcssFilename.DigitsAt` | backend/ingest_documents.py:13 | `(\d+)` at a position fails exactly when no digit is there; otherwise it captures the non-empty, non-extendable digit run found there |
| `EcssFilename.DigitsAtExact` | backend/ingest_documents.py:13 | the revision digits `(\d+)` capture the whole non-extendable digit run after the marker |
| `EcssFilename.MarkerIsDetermined` | backend/ingest_documents.py:13 | a `[_-]Rev\.?` marker followed by a digit has the length the parser skips: 5 with the period, 4 without |
| `EcssFilename.MatchRevisionMeetsSpec` | backend/ingest_documents.py:13 | the optional group's capture meets its declarative description: absent exactly when no marker-plus-digit follows, otherwise non-empty digits after a marker, not extendable |
| `EcssFilename.NoRevisionDeterminesMatch` | backend/ingest_documents.py:13 | when no marker followed by a digit comes next, the optional group captures nothing |
| `EcssFilename.RevisionDeterminesMatch` | backend/ingest_documents.py:13 | a revision meeting the description is the one captured |
| `EcssFilename.RevisionSpecDeterminesMatch` | backend/ingest_documents.py:13 | any revision meeting the description, present or absent, is the captured one |
| `EcssFilename.RevisionSpecExactly` | backend/ingest_documents.py:13 | a revision meets the description if and only if it is the captured one |
| `EcssFilename.RevisionPresentExactly` | backend/ingest_documents.py:13 | the revision group captures something if and only if a `[_-]Rev\.?` marker followed by a digit comes next |
| `EcssFilename.RevisedNumberShape` | backend/ingest_documents.py:13 | a name `ECSS-X-YY-ddL_Rev.d` or `ECSS-X-YY-ddL-Rev.d` followed by a non-digit gives the groups `X`, `YY`, `ddL` and the revision `d` |
| `IngestDocuments.ExtractMetadataFromFilename` | backend/ingest_documents.py:10-45 | always a `filename` key holding the input; without a match exactly `{filename}`; with a match exactly the nine keys and the two constants; a branch or discipline code in its table gets that table's name, and `"Unknown"` exactly when the code is outside it; the revision is `"1"` exactly when the group is absent or captured `1` |
| `IngestDocuments.FilenameOnlyExactlyWithoutMatch` | backend/ingest_documents.py:14-17 | the record is `{filename}` alone if and only if the pattern does not match; any name not starting with `ECSS-` gives exactly that |
| `IngestDocuments.StandardMetadataDescribesFilename` | backend/ingest_documents.py:13-45 | on a match the record describes the name: branch, discipline and number have the pattern's shapes and spell a prefix of the name; a number ending in a digit is followed by neither a digit nor an uppercase letter; the revision is the captured digits when a `[_-]Rev\.?digits` group follows, and `"1"` when none does |
| `IngestDocuments.Basename` | backend/ingest_documents.py:73 | `os.path.basename`: a suffix of the path that contains no `/` and follows the path's last `/` |
| `IngestDocuments.BasenameAppend` | backend/ingest_documents.py:72-73 | the base name ignores a prefix that ends in `/`, or any prefix when the rest contains a `/` |
| `IngestDocuments.BasenameOfJoin` | backend/ingest_documents.py:72-73 | the file `os.path.join(pdf_directory, doc_path)` has the same base name as `doc_path`, whatever the directory |
| `IngestDocuments.RequestFor` | backend/ingest_documents.py:72-95 | the call made for one path: the file ends with the path, its base name is the `filename` argument, the metadata is extracted from that name and records it, and `use_colpali` is set |
| `IngestDocuments.CountsPartition` | backend/ingest_documents.py:71-104 | every path is missing, ingested or failed, so the three counts add up to the number of paths |
| `IngestDocuments.RequestsCount` | backend/ingest_documents.py:76-79 | one `ingest_file` call per path whose file exists |
| `IngestDocuments.RequestsFromPaths` | backend/ingest_documents.py:76-95 | every `ingest_file` call is the one for some path whose file exists |
| `IngestDocuments.RequestsAreForExistingFiles` | backend/ingest_documents.py:71-95 | missing files are never ingested; there are as many calls as existing files, and each call carries the metadata extracted from its own base name |
| `IngestDocuments.BatchStep` | backend/ingest_documents.py:71-104 | handling one more path advances each counter by that path's outcome and appends its call only when the file exists |
| `IngestDocuments.IngestEcssDocuments` | backend/ingest_documents.py:68-104 | successes are the `ingest_file` calls that returned; failures are missing files plus calls that raised; the two add up to the number of paths; the calls made are one per existing file, in order, with the joined path, the base name, its metadata and `use_colpali` set |
| `IngestDocuments.SystemDescriptionMetadata` | backend/ingest_documents.py:121 | a name starting `ECSS-S-ST-00C ` (the space is not a separator) gives branch `S`, discipline `ST`, number `00C` and default revision `1`, with the table names |
| `IngestDocuments.RevisedStandardMetadata` | backend/ingest_documents.py:122-124 | a name `ECSS-<branch>-ST-<two digits><letter>` followed by `-Rev.` or `_Rev.`, one digit and `(` matches with those groups; the record has that branch with its table name, Space Systems, that number and that revision digit |
| `IngestDocuments.TwoPartNumberMetadata` | backend/ingest_documents.py:125 | `ECSS-E-ST-20-0` stops the number at `20`; no revision group follows, so the revision is the default `1` |
| `IngestDocuments.InitialSystemDescription` | backend/ingest_documents.py:121 | the first initial document is recorded with number `00C` and the default revision `1` |
| `IngestDocuments.InitialMaterialsAndProcesses` | backend/ingest_documents.py:122 | the second initial document is recorded with number `70C` and revision `2` |
| `IngestDocuments.InitialCommunications` | backend/ingest_documents.py:123 | the third initial document is recorded with number `50C` and revision `1` |
| `IngestDocuments.InitialProjectPlanning` | backend/ingest_documents.py:124 | the fourth initial document is recorded with number `10C` and revision `1` |
| `IngestDocuments.InitialSoftwareDevelopment` | backend/ingest_documents.py:125 | the fifth initial document, `ECSS-E-ST-20-08C_Rev.2`, is recorded as number `20` with the default revision `1` |
| `IngestSingleDocument.ExtractMetadataFromFilename` | backend/ingest_single_document.py:9-43 | the script's own copy: `{filename}` without a match; on a match the revision defaults to `"1"` when absent, codes in its tables get their names, and the names are drawn from its tables or are `"Unknown"` |
| `IngestSingleDocument.SameAsBatchExtractor` | backend/ingest_single_document.py:9-43 | the copy returns the same record as the batch script's extractor for every filename |
| `IngestSingleDocument.SingleDocumentMetadata` | backend/ingest_single_document.py:59-69 | any name starting like the hard-coded one gets exactly the nine-key System Description record |
| `IngestSingleDocument.HardCodedDocumentMetadata` | backend/ingest_single_document.py:59-69 | the hard-coded `ECSS-S-ST-00C Rev.1(15June2020).pdf` is sent with exactly the nine-key System Description record |
| `ApiServer.GetMorphikClient` | backend/api_server.py:15-26 | no client when `MORPHIK_URI` is unset or empty; a client exactly when the variable is set and construction did not raise |
| `ApiServer.BlankExactlyWhenAllWhitespace` | backend/api_server.py:33 | `not query.strip()` holds if and only if the query is empty or all Python whitespace |
| `ApiServer.Search` | backend/api_server.py:28-110 | `query` echoes the parameter and `total` is the number of results (at most one); a blank query gives an empty payload without error; no client gives the connection error; a raising `db.query` gives its message; a falsy response or one without `completion` gives no result and no error; a completion without `sources` gives the `AttributeError` message; an error is reported exactly in those three cases; a result exists exactly when a client exists, the query returns a response with `completion` and the response has `sources`; its content is the completion and its score 0.95 |
| `ApiServer.CitedDocumentId` | backend/api_server.py:61-66 | the document to fetch is the first citation's `document_id`, and only when there is a citation and its id is present and non-empty |
| `ApiServer.ResolveDocument` | backend/api_server.py:60-74 | `document_info` exists exactly when there is such an id and fetching it did not raise; it holds the document's filename (default `"Unknown"`) and metadata (default `{}`) |
| `ApiServer.MakeResult` | backend/api_server.py:76-94 | the result's content is the completion and its score 0.95; id and relevance are the first citation's, with `"1"` and 0 for a missing citation or attribute; title and metadata come from `document_info` when present, `"ECSS Document"` and the fallback record when not |
| `ApiServer.BlankSearchIgnoresClient` | backend/api_server.py:31-38 | a blank query is answered the same whatever the client, with no results and no error |
| `ApiServer.FallbackMetadataFilename` | backend/api_server.py:83-93 | the fallback record has the nine standard keys, branch `S`, discipline `ST` and filename `"Unknown"` |
| `ApiServer.FallbackIsSystemDescription` | backend/api_server.py:83-93 | the fallback record is the one the extractor gives for `ECSS-S-ST-00C Rev.1(...)`, with the filename replaced by `"Unknown"` |
| `ApiServer.SearchResultFields` | backend/api_server.py:58-95 | how the one result is composed: with no citations, id `"1"`, relevance 0, title `"ECSS Document"` and the fallback metadata; otherwise the first citation's id and score (with defaults); the cited document's filename and metadata when its id is truthy and the fetch succeeded, the fallbacks when not |
| `ApiServer.Summarize` | backend/api_server.py:128-133 | a document's summary: its external id, filename and metadata when present, `system_metadata["status"]` when that key exists, and `"Unknown"` or `{}` for whatever is missing |
| `ApiServer.ListDocuments` | backend/api_server.py:112-147 | no client gives the connection error; a raising backend gives its message; otherwise one summary per document in order, with id, filename, `system_metadata["status"]` and metadata defaulted to `"Unknown"`/`{}`, and `total` the count |
| `ApiServer.HealthCheck` | backend/api_server.py:149-163 | `healthy` and connected if and only if a client was obtained, `degraded` and not connected otherwise |
| `ApiServer.HealthWithoutUri` | backend/api_server.py:152-163 | with `MORPHIK_URI` unset or empty the health check is `degraded`, not connected |
| `SearchRoute.BlankExactlyWhenAllWhitespace` | frontend/src/app/api/search/route.ts:84 | `!query.trim()` holds if and only if the query is empty or all ECMAScript whitespace |
| `SearchRoute.ToLower` | frontend/src/app/api/search/route.ts:95-96 | `toLowerCase` keeps the length, leaves no uppercase ASCII letter, turns each uppercase letter into its lowercase form and keeps every other character |
| `SearchRoute.ToLowerIdempotent` | frontend/src/app/api/search/route.ts:95-96 | lowering a lowered string changes nothing |
| `SearchRoute.ToLowerCaseInsensitive` | frontend/src/app/api/search/route.ts:95-96 | two strings lower to the same string if and only if they have the same length and differ at most in the case of ASCII letters |
| `SearchRoute.MatchesQueryCaseInsensitive` | frontend/src/app/api/search/route.ts:94-97 | the text filter gives the same answer for two queries that differ only in the case of ASCII letters |
| `SearchRoute.Filter` | frontend/src/app/api/search/route.ts:94-97 | `Array.filter` keeps, in order, exactly the elements that pass the test, each as many times as it occurs in the input: the output is a subsequence of the input, every kept element passes, and every passing element is kept |
| `SearchRoute.FilterFusion` | frontend/src/app/api/search/route.ts:94-112 | filtering by one test and then another is filtering once by both |
| `SearchRoute.FilterExtensional` | frontend/src/app/api/search/route.ts:94-112 | two tests that agree on every result filter alike |
| `SearchRoute.FilterIdempotent` | frontend/src/app/api/search/route.ts:94-97 | filtering again by the same test changes nothing |
| `SearchRoute.FilterField` | frontend/src/app/api/search/route.ts:102-112 | an empty parameter returns the input unchanged; a non-empty one keeps exactly the results whose metadata field equals it, in order and with their multiplicity |
| `SearchRoute.FieldStep` | frontend/src/app/api/search/route.ts:102-112 | a field filter applied after a filter is one filter by both tests |
| `SearchRoute.FilterResults` | frontend/src/app/api/search/route.ts:93-112 | the results are a subsequence of the mock data; each matches the query in title or content, ignoring case, and every non-empty branch, discipline and revision parameter; every mock result meeting all of these is returned, as often as it occurs |
| `SearchRoute.FilterResultsIsOneFilter` | frontend/src/app/api/search/route.ts:93-112 | the four successive filters equal a single filter by their conjunction |
| `SearchRoute.FilterResultsIdempotent` | frontend/src/app/api/search/route.ts:93-112 | running the pipeline on its own output returns that output |
| `SearchRoute.Get` | frontend/src/app/api/search/route.ts:77-117 | a blank query gives `{results: [], total: 0}`; otherwise the filtered mock results, with absent parameters treated as empty; `total` is the result count, at most the three mock results, and every result is one of them |
| `SearchRoute.OtherDisciplineFindsNothing` | frontend/src/app/api/search/route.ts:23-75 | every mock result is a Space Systems standard, so any other non-empty discipline filter returns nothing |

## Left out

- The retrieval backend (the Morphik SDK) and every network call are not modelled. Their answers are inputs: per-path outcomes for ingestion, and the `Client` value for the HTTP endpoints.
- Client construction in the batch script (backend/ingest_documents.py:61-66) is left out. The loop does not use the client except through its `ingest_file` outcomes.
- Console output is left out: `print`, `console.log`, and the ingestion summary messages (backend/ingest_documents.py:106-116). The model assumes console output never raises. A `print` that raised inside the `try` at backend/ingest_documents.py:97-99 would turn a returned `ingest_file` into a counted failure, and one that raised at 84-86 would end the batch; neither is modelled.
- The `__main__` drivers are not modelled as programs. The five initial filenames (backend/ingest_documents.py:120-126) and the single hard-coded one (backend/ingest_single_document.py:59) are stated as lemmas on their literal strings, and as lemmas over every name with the same prefix.
- The body of `ingest_single_document` (backend/ingest_single_document.py:45-105) is left out, apart from its extraction of the hard-coded name. The rest is environment checks, one `ingest_file` call, `time.sleep` and a test search, all I/O.
- Flask, CORS, `jsonify`, Next.js request parsing and `NextResponse` are left out. Parameters are inputs, and payloads are datatypes.
- The search route's `catch` branch (frontend/src/app/api/search/route.ts:119-127) is left out. Nothing in the filter pipeline can throw.
- The `except` branch of `health_check` (backend/api_server.py:164-169) is left out. `get_morphik_client` (15-26) catches construction errors and returns `None`, so a failed construction reports `degraded`. The branch is unreachable while `jsonify` and console output do not raise.
- The outer `except` of `list_documents` (backend/api_server.py:141-147) is modelled only for a raising `list_documents` call. Iterating a returned list cannot raise in the model.
- Attributes that are present but hold `None` are not modelled. This covers `document_id`, `metadata`, `system_metadata` and `completion`. An attribute is either absent, with its default, or holds a value.
- Metadata values are strings. The backend's `metadata` dictionaries may hold other JSON values.
- Scores are mathematical reals. Floating-point behaviour does not matter to any modelled branch.
- Page rendering (frontend/src/app/page.tsx) and the test and exploration scripts are not part of this model.
- EcssFilename.MatchEcss: `\d` is ASCII `0-9` only. Python's `re` also accepts other Unicode decimal digits in `str` patterns, and those are not modelled.
- SearchRoute.ToLower: lowercases ASCII `A-Z` only. JavaScript's full Unicode case mapping is not modelled.
- ApiServer.Search: for a response with `completion` but no `sources` attribute, the error text is this model's rendering of the `AttributeError` message. The exact Python text is not reproduced.
- ApiServer.MakeResult: the fallback record's `filename` is written as `"Unknown"`. The source chooses it with a second `document_info` test (backend/api_server.py:90), and that test is always false in this branch.
- IngestDocuments.Basename and IngestDocuments.Join follow POSIX path rules. Windows path rules are not modelled.
