# Prediza RAG ingest, chat gate and record services in Dafny

This project models the parts of the Prediza assistant that compute something:

- Corpus assembly in `rag.py`:
  - every row of every public table becomes one LangChain document;
  - every markdown document is tagged with the base name of its top-level folder;
  - the corpus is the store documents followed by the file documents.
- The answer gate of `chat`: a fixed refusal when the retrieval chain returns no source documents, otherwise the chain's answer unchanged.
- The FastAPI record services under `utils/tests/`, over an abstract table `id -> row`:
  - single and batch INSERT inside one transaction;
  - the partial-update builder over the fields a client explicitly set (`dict(exclude_unset=True)`);
  - the status every path surfaces, including the 404 that an update raises inside its `try`, which the generic `except` re-raises as 400;
  - DELETE by id, whose 404 is raised outside any `try`;
  - listing as `dict(zip(columns, row))`.
- The NDVI `indicativos` codec: a list is stored newline-joined and split again on listing.
- The NDVI create, which binds three values against four `%s` markers and so fails on every request.

Modules:

- `Wrappers`: `Option` and `Result`.
- `Text`: Python's `sep.join`, `str.split` on one character, `str(n)` and `os.path.basename`.
- `Db`: driver values, rows, the table map, psycopg2's client-side `%s` interpolation with its two arity errors, and the effect of INSERT/UPDATE/DELETE.
- `Records`: what all services share.
- One module per service: `Ndvi`, `Knowledge`, `Gndvi`, `GndviInsights`, `Osavi`, `OsaviFenologico`, `OsaviInsights`.
- `Corpus`: ingest in `rag.py`.
- `ChatGate`: the `chat` handler.

The database is a parameter, never a connection:

- Row-local integrity constraints are a function `Check = Row -> Option<string>`. `Some(text)` is the error the database raises, which a service reports as `str(e)` with status 400.
- The `SERIAL` sequence is `Table.nextId`.

The code as written:

- The code builds the vector collection with one unconditional `Milvus.from_documents` call. It has no create/append/reuse lifecycle.
- The code has no separate question-condensation step.
- `chat` invokes the chain first and checks `source_documents` afterwards. So the refusal is decided after generation has run, not instead of it.

## Model

| member | source | states |
|---|---|---|
| Text.Join | utils/tests/test_ndvi.py:42 | `sep.join(parts)`: the parts with the separator between consecutive ones, `""` for no parts |
| Text.Split | utils/tests/test_ndvi.py:69 | `s.split("\n")` yields one more piece than `s` has separators, and no piece contains the separator |
| Text.SplitJoin | utils/tests/test_ndvi.py:42-69 | splitting a join gives back the parts, when there is at least one part and none holds the separator |
| Text.JoinSplit | utils/tests/test_ndvi.py:69 | joining the pieces of a split gives back the original text, for every string |
| Text.JoinEmpty | utils/tests/test_ndvi.py:42 | a join is empty exactly for `[]` and `[""]`, the two lists that store as `""` |
| Text.NatToString | utils/tests/test_osavi.py:52 | `str(len(...))` is a non-empty string of decimal digits |
| Text.ParseNatToString | utils/tests/test_osavi.py:52 | reading the decimal rendering of `n` back gives `n` |
| Text.CountThenText | utils/tests/test_osavi.py:52 | a message made of `str(n)` and a text not starting with a digit starts with the count `n` |
| Text.Basename | rag.py:61 | the base name contains no `/`, is a suffix of the path, and is preceded by `/` when shorter than the path |
| Text.BasenameOfChild | rag.py:52-61 | the base name of `dir/name` is `name` when `name` has no `/` |
| Db.ZipRow | utils/tests/test_knowledge.py:73 | `dict(zip(cols, vals))`: pairs up to the shorter list, a later duplicate column overriding an earlier one |
| Db.ZipRowFacts | utils/tests/test_knowledge.py:73 | `dict(zip(cols, vals))` has exactly the first `min(len)` column names as keys, and with distinct columns each column maps to its positional value |
| Db.ZipRowIs | utils/tests/test_knowledge.py:50-54 | binding distinct columns to the same number of values yields any row that has exactly those columns with those values |
| Db.BindError | utils/tests/test_ndvi.py:43-46 | interpolation raises exactly when the marker count and the parameter count differ |
| Db.MarkersJoin | utils/tests/test_ndvi.py:91 | joining clauses that each hold one marker gives a text with one marker per clause |
| Db.MarkerList | utils/tests/test_knowledge.py:52 | a VALUES list of `n` markers holds exactly `n` markers |
| Db.InsertSql | utils/tests/test_knowledge.py:50-52 | the INSERT text: table, parenthesised column list, parenthesised VALUES list |
| Db.UpdateSql | utils/tests/test_ndvi.py:91 | the UPDATE text: the `", "`-joined clauses followed by `WHERE id = %s` |
| Db.InsertSqlMarkers | utils/tests/test_knowledge.py:50-52 | table and column names add no markers, so an INSERT has the markers of its VALUES list |
| Db.DuplicateKey | utils/create/create_ndvi.py:22 | the text of the unique violation of the `id SERIAL PRIMARY KEY` constraint, named `<table>_pkey` |
| Db.ExecInsert | utils/tests/test_knowledge.py:50-55 | an INSERT succeeds iff markers, columns and values agree in number, the database accepts the row and no row holds the next id yet; it then stores the row under that id and touches no other row; a taken id fails with the primary-key violation |
| Db.Assign | utils/tests/test_ndvi.py:91 | the SET list gives each named column its value and keeps every other column |
| Db.ExecUpdate | utils/tests/test_ndvi.py:91-94 | an UPDATE of a missing id matches no row and changes nothing; otherwise only that row changes, or the database's error is returned |
| Db.ExecDelete | utils/tests/test_ndvi.py:107-110 | rowcount is 1 iff the id exists; the row is removed and nothing else changes |
| Records.ValuesMarkers | utils/tests/test_knowledge.py:50-52 | a well-formed service's INSERT has as many markers as its VALUES list |
| Records.ExceptionText | utils/tests/test_ndvi.py:94-97 | `str(e)` of an `HTTPException`: the text starts with the status code, which reads back as that number, and ends with `": "` and the detail |
| Records.NotFoundCaught | utils/tests/test_ndvi.py:93-97 | the detail an update re-raises as 400 for a missing id is the rendering of the inner 404, `"404: Registro não encontrado"` |
| Records.Create | utils/tests/test_knowledge.py:45-62 | a single create succeeds iff the statement binds, the row is accepted and the next id is free; success stores the row under that id; any failure, the duplicate-key violation included, is 400 with the table unchanged |
| Records.InsertAll | utils/tests/test_osavi.py:39-45 | the insert loop succeeds iff every item is accepted, and then stores every item in order under consecutive ids, keeping every earlier row |
| Records.CreateBatch | utils/tests/test_osavi.py:35-52 | a batch create is all-or-nothing: success iff every item is accepted, with all stored in order; otherwise 400 and no row stored |
| Records.SetIndices | utils/tests/test_ndvi.py:78 | the positions of the set fields, strictly increasing, each set, none missed |
| Records.BindValue | utils/tests/test_ndvi.py:79-80 | with the NDVI join, a set `indicativos` list is bound as text; every other value, an explicit null included, is bound as given |
| Records.BindValueLines | utils/tests/test_ndvi.py:79-80 | the text a set `indicativos` list is bound as splits on newlines back into the list, when the list is non-empty and no element holds a line break |
| Records.Clauses | utils/tests/test_ndvi.py:81 | one `col = %s` clause per assigned column, in order |
| Records.Position | utils/tests/test_ndvi.py:31-35 | the declared position of a column, which is unique when the fields are distinct |
| Records.BuildUpdate | utils/tests/test_ndvi.py:78-87 | the builder fails with 400 "Nenhum campo para atualizar" iff no field is set; otherwise it emits one `col = %s` clause per set field and no other, in declaration order, with the id last, and the text has as many markers as parameters |
| Records.Patched | utils/tests/test_ndvi.py:78-91 | the row after a partial update: each set column takes its bound value, every other column keeps its value |
| Records.UpdateSpec | utils/tests/test_ndvi.py:73-101 | the reply and table of an update stated without the builder: 400 "Nenhum campo para atualizar" when nothing is set, 400 "404: Registro não encontrado" for a missing id, 400 with the error and nothing changed for a rejected row, else only that row replaced by its patched form |
| Records.AssignPlan | utils/tests/test_ndvi.py:78-91 | executing the built SET list on a row yields the patched row: set columns take their bound values, all others keep theirs |
| Records.AssignPatched | utils/tests/test_ndvi.py:78-91 | any SET list naming exactly the set fields, each bound to its field's value, yields the patched row |
| Records.Update | utils/tests/test_ndvi.py:73-101 | nothing set gives 400 before any statement; a missing id gives 400 with `404: Registro não encontrado`; a rejected row gives 400 and is rolled back; otherwise only that row changes, to its patched form |
| Records.RunUpdate | utils/tests/test_ndvi.py:88-101 | executing a prepared update: a zero rowcount or an error surfaces as 400 with the table unchanged; success stores the assigned row |
| Records.UpdateFrame | utils/tests/test_ndvi.py:73-101 | an update never adds, removes or touches another row; it keeps every unset column and sets every set column to its bound value |
| Records.PatchedFrame | utils/tests/test_ndvi.py:78-82 | a patched row keeps each unset column and gives each set column the client's value |
| Records.Delete | utils/tests/test_ndvi.py:103-113 | delete succeeds iff the id exists and then removes only that row; a missing id surfaces 404 "Registro não encontrado" with nothing changed |
| Records.List | utils/tests/test_knowledge.py:64-73 | one map per fetched row, keyed by the zipped column names, each column holding its positional value |
| Ndvi.SvcWellFormed | utils/tests/test_ndvi.py:11-35 | the NDVI table and fields are distinct lower-case identifiers |
| Ndvi.Encode | utils/tests/test_ndvi.py:42 | the stored form of a list: its newline join, as text |
| Ndvi.Truthy | utils/tests/test_ndvi.py:69 | Python truthiness of a fetched value: null, `""`, `0` and `[]` are false |
| Ndvi.Decode | utils/tests/test_ndvi.py:69 | decoding fails only for a truthy non-string; null and `""` decode to `[]`; no decoded element holds a line break; joining the result gives back the stored text |
| Ndvi.CodecRoundTrip | utils/tests/test_ndvi.py:42-69 | a list lists back as itself iff it is not `[""]` and no element holds a line break |
| Ndvi.StoredRoundTrip | utils/tests/test_ndvi.py:42-69 | every stored text is reproduced by decoding it and encoding the result |
| Ndvi.ValuesAsWritten | utils/tests/test_ndvi.py:45 | the VALUES list as written holds four `%s` markers |
| Ndvi.ParamsAsWritten | utils/tests/test_ndvi.py:46 | the tuple bound as written is the intended four-value tuple without its last value, `recomendacao`: three values |
| Ndvi.CreateAsWritten | utils/tests/test_ndvi.py:37-54 | with three values bound against four markers, every create is a 400 "tuple index out of range" that leaves the table unchanged |
| Ndvi.StoredIsZip | utils/tests/test_ndvi.py:43-46 | the four columns zipped with the four intended values give the intended row |
| Ndvi.CreateCorrected | utils/tests/test_ndvi.py:37-54 | with all four values bound, a create succeeds iff the database accepts the row and the next id is free, and then stores it under that id; a taken id is a 400 duplicate-key error |
| Ndvi.DecodeRow | utils/tests/test_ndvi.py:68-69 | a listed row keeps every column except `indicativos`, which is decoded; a missing or undecodable column fails |
| Ndvi.List | utils/tests/test_ndvi.py:56-71 | the listing succeeds iff every row decodes, and then returns one decoded row per fetched row, in order |
| Ndvi.CreateThenDecode | utils/tests/test_ndvi.py:37-71 | the row the corrected create stores lists with the entry's own `indicativos` iff the list is not `[""]` and no element holds a line break |
| Ndvi.Update | utils/tests/test_ndvi.py:73-101 | the NDVI update behaves as the shared update, with `indicativos` newline-joined |
| Ndvi.UpdateIndicativos | utils/tests/test_ndvi.py:79-82 | a set list is stored newline-joined; an explicit null is stored as null; an unset `indicativos` is kept |
| Ndvi.Delete | utils/tests/test_ndvi.py:103-113 | delete gives "Registro NDVI deletado com sucesso" iff the id exists, otherwise 404 |
| Knowledge.SvcWellFormed | utils/tests/test_knowledge.py:25-43 | the eight columns are distinct identifiers |
| Knowledge.Optional | utils/tests/test_knowledge.py:53-54 | an optional field (declared with a `None` default) is bound as null exactly when the client left it `None`, and otherwise as its text |
| Knowledge.Params | utils/tests/test_knowledge.py:53-54 | the create binds exactly as many values as it lists columns |
| Knowledge.StoredIsZip | utils/tests/test_knowledge.py:50-54 | the eight columns zipped with the bound tuple give the entry's row, with unset optional fields stored as null |
| Knowledge.Create | utils/tests/test_knowledge.py:45-62 | a create succeeds iff the database accepts the entry's row and the next id is free, and then stores it under that id; otherwise 400 with nothing stored, the duplicate-key text when only the id is taken |
| Knowledge.Update | utils/tests/test_knowledge.py:75-101 | the shared update, with values bound as given |
| Knowledge.Delete | utils/tests/test_knowledge.py:103-113 | delete succeeds iff the id exists, otherwise 404 |
| Gndvi.StoredIsZip | utils/tests/test_gndvi.py:40-43 | the three columns zipped with the bound tuple give the entry's row |
| Gndvi.Create | utils/tests/test_gndvi.py:35-51 | a create succeeds iff the row is accepted and the next id is free, and then stores `indicativos` as the list itself, not newline-joined; otherwise 400 with nothing stored |
| Gndvi.Update | utils/tests/test_gndvi.py:69-95 | the shared update, with values bound as given |
| Gndvi.UpdateKeepsList | utils/tests/test_gndvi.py:74-76 | a set `indicativos` list is stored unchanged |
| Gndvi.Delete | utils/tests/test_gndvi.py:97-107 | delete succeeds iff the id exists, otherwise 404 |
| GndviInsights.StoredIsZip | utils/tests/test_gndvi_insights.py:36-39 | the three columns zipped with the bound tuple give the entry's row |
| GndviInsights.Create | utils/tests/test_gndvi_insights.py:31-47 | a create succeeds iff the row is accepted and the next id is free, and then stores it under that id; otherwise 400 with nothing stored |
| GndviInsights.Update | utils/tests/test_gndvi_insights.py:61-90 | the shared update, with values bound as given |
| GndviInsights.Delete | utils/tests/test_gndvi_insights.py:92-102 | delete succeeds iff the id exists, otherwise 404 |
| Osavi.Items | utils/tests/test_osavi.py:40-44 | each item's bound tuple zips to that item's row |
| Osavi.CreatedMessage | utils/tests/test_osavi.py:52 | the reply `str(n)` followed by " registro(s) OSAVI criado(s) com sucesso" |
| Osavi.CreatedMessageCount | utils/tests/test_osavi.py:52 | the reply's leading count is the number of submitted items, 0 included |
| Osavi.Create | utils/tests/test_osavi.py:35-52 | all-or-nothing batch: success iff every row is accepted, with item `i` stored under id `nextId + i` and earlier rows kept; otherwise 400 and nothing stored |
| Osavi.Update | utils/tests/test_osavi.py:66-92 | the shared update, with values bound as given |
| Osavi.Delete | utils/tests/test_osavi.py:94-104 | delete succeeds iff the id exists, otherwise 404 |
| OsaviFenologico.Items | utils/tests/test_osavi_fenologico.py:37-41 | each item's four-value tuple zips to that item's row |
| OsaviFenologico.CreatedMessage | utils/tests/test_osavi_fenologico.py:49 | the reply `str(n)` followed by " registro(s) criados com sucesso" |
| OsaviFenologico.CreatedMessageCount | utils/tests/test_osavi_fenologico.py:49 | the reply's leading count is `len(lista)` |
| OsaviFenologico.Create | utils/tests/test_osavi_fenologico.py:32-49 | all-or-nothing batch: success iff every row is accepted, with all stored in order; otherwise 400 and nothing stored |
| OsaviFenologico.Update | utils/tests/test_osavi_fenologico.py:62-88 | the shared update, with values bound as given |
| OsaviFenologico.Delete | utils/tests/test_osavi_fenologico.py:90-100 | delete succeeds iff the id exists, otherwise 404 |
| OsaviInsights.Items | utils/tests/test_osavi_insights.py:39-43 | each item's bound tuple zips to that item's row |
| OsaviInsights.Create | utils/tests/test_osavi_insights.py:34-51 | all-or-nothing batch with one fixed reply whatever the item count |
| OsaviInsights.Update | utils/tests/test_osavi_insights.py:66-92 | the shared update, with values bound as given |
| OsaviInsights.Delete | utils/tests/test_osavi_insights.py:94-104 | delete succeeds iff the id exists, otherwise 404 |
| Corpus.Pair | rag.py:43 | `f"{col}: {val}"`: the name, then `": "`, then the value, each recoverable by position; it holds a line break only if the name or the value does |
| Corpus.Pairs | rag.py:43 | `zip(colnames, row)` renders one `col: val` pair per position, up to the shorter list |
| Corpus.RowContent | rag.py:43 | a row's content: the `"\n"`-join of its `col: val` pairs |
| Corpus.RowContentLines | rag.py:41-43 | when no name or value holds a line break, the content's lines are exactly the pairs, in column order |
| Corpus.RowDocument | rag.py:44 | a row's document has metadata `source = "postgresql"` and `doc_type` = its table, and nothing else |
| Corpus.TableDocs | rag.py:42-44 | one document per row of a table, in fetch order |
| Corpus.PgDocs | rag.py:38-44 | the store documents: each table's row documents, tables in catalog order |
| Corpus.PgDocsCount | rag.py:38-44 | the store contributes exactly as many documents as all tables have rows, and an empty table contributes none |
| Corpus.PgDocAt | rag.py:38-44 | row `i` of table `k` is the document after every row of the earlier tables, with that row's content and metadata |
| Corpus.PgDocIsRowDocument | rag.py:38-44 | every store document is the document of some row of some table |
| Corpus.LoadPostgresDocuments | rag.py:31-48 | the nested loops produce the per-table documents in catalog and fetch order, one per row |
| Corpus.AddMetadata | rag.py:56-58 | tagging keeps the content and every other metadata key, and sets `doc_type` |
| Corpus.FolderDocs | rag.py:60-64 | every document of a folder is tagged with the folder's base name, in load order |
| Corpus.MdDocs | rag.py:60-64 | the file documents: each folder's tagged documents, folders in glob order |
| Corpus.MdDocAt | rag.py:52-64 | document `i` of folder `k` sits after every document of the earlier folders, tagged with its folder's base name, which is `name` for `knowledge_base/name` |
| Corpus.LoadMarkdownDocuments | rag.py:51-66 | the loop produces the tagged documents folder after folder |
| Corpus.AllDocs | rag.py:104-106 | the corpus is every store document followed by every file document, with length the sum of both |
| ChatGate.HasSources | rag.py:94-96 | the chain returned source documents: `result.get("source_documents", [])` is present and non-empty |
| ChatGate.Refusal | rag.py:97 | the fixed reply when nothing was retrieved |
| ChatGate.SystemMessage | rag.py:118 | the `system_message` literal, to which the prompt appends the language line |
| ChatGate.Chat | rag.py:87-99 | with no source documents, missing or empty, the reply is the refusal; otherwise it is the chain's answer unchanged |
| ChatGate.RefusalIsInstructed | rag.py:97-118 | the refusal the gate returns is verbatim the text the `system_message` literal ends with |

## Left out

- Chunking (`split_documents`, rag.py:69-71): the splitting algorithm belongs to LangChain's `RecursiveCharacterTextSplitter`, which is not part of this model.
- Embeddings and the Milvus connection and insertion (rag.py:77-85, 109-110): foreign services.
- The LLM, memory and conversational chain (rag.py:114-132): generation is stochastic and foreign. The chain is modelled only as an opaque `ChainResult` that feeds the gate.
- The Gradio interface, `print` logging and environment/configuration loading: I/O.
- The catalog query, the table fetches, directory globbing and UTF-8 file loading (rag.py:34-41, 52, 62-63): I/O. The table list with rendered cells and the per-folder loaded documents are inputs.
- Cell rendering: `Corpus` takes each cell as the already rendered `str(val)` text.
- psycopg2 connections, cursors, commit and rollback: these are abstracted as an `Outcome` of a reply and the table after the transaction. A rolled-back transaction leaves the table as it was.
- Serial ids consumed by a rolled-back INSERT: not modelled. `nextId` is restored on rollback, so after a duplicate-key failure the model keeps proposing the same id, where Postgres would have advanced the sequence.
- DuplicateKey: the error text omits the `DETAIL:  Key (id)=(n) already exists.` line Postgres appends. In every state the services reach, `Valid(t)` holds, so no row holds the next id and the duplicate-key path, with its detail text, is never taken.
- Constraints that involve other rows (unique keys, foreign keys): not modelled. `Check` sees only the row being written.
- Records.CreateBatch, Records.InsertAll and the batch `Create` of `Osavi`, `OsaviFenologico` and `OsaviInsights` require `Valid(t)`: every stored id lies below the sequence's next value, which holds because no service inserts an explicit id. The single creates do not require it and answer a taken id with the 400 duplicate-key error.
- Unclosed cursor and connection on delete's 404 path: resource plumbing with no observable effect in the model.
- The list services of `test_osavi.py`, `test_gndvi.py`, `test_gndvi_insights.py`, `test_osavi_fenologico.py` and `test_osavi_insights.py`: these are the same `dict(zip(...))` listing that `Records.List` states. `test_gndvi.py` decodes no column.
- The SAVI, RECL and NDWI services and their insight services: fixed-column wrappers with the same create/update/delete shape as the services modelled here.
- The provisioning scripts under `utils/create/`: DDL only.
- SQL whitespace: the services' triple-quoted statements are rendered with single spaces. Whitespace has no bearing on markers or on the effect.

## Findings

| source | as written | input that shows it | evidently intended | confidence | as-written member | corrected member |
|---|---|---|---|---|---|---|
| utils/tests/test_ndvi.py:43-46 | the INSERT lists four columns and four `%s` markers but binds the tuple `(faixa_ndvi, vigor_vegetativo, indicativos_str)`, so psycopg2 raises "tuple index out of range" and the reply is 400 | any body, e.g. `{"faixa_ndvi": "0.2-0.4", "vigor_vegetativo": "baixo", "indicativos": ["seca"], "recomendacao": "irrigar"}` | bind `recomendacao` as the fourth value, so the record is stored | not executed | Ndvi.CreateAsWritten | Ndvi.CreateCorrected |
