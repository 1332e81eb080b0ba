# RagAgent core in Dafny

This project models two parts of RagAgent.

- **The hybrid index `semantic_sql_db`.** It binds one relational table and one vector collection under a shared identity column. It inserts rows into both stores, looks rows up by identity, and answers hybrid queries: an SQL `WHERE` clause selects the admissible identities, and a semantic search runs restricted to them.
- **The conversation state of `ChatAgent`.** This covers the message list and its primary directive, the token budget, the pairing of conversation turns, and the save-file name rule.

## Modules

- `wrappers.dfy` (`Wrappers`) defines `Option`, `Result` and the Python exceptions the code raises (`ValueError` with its message, `TypeError`, `KeyError`, `IndexError`).
- `text.dfy` (`Text`) models Python's substring test, `sep.join`, `s.split(c)` and `s.replace(c, "")` (`Remove`), with their round trips.
- `semantic_sql.dfy` (`SemanticSql`) holds the class `SemanticSqlDb`.
  - The class fields are the binding, the two stores (held as maps) and the count of identities drawn.
  - `insert` is specified step by step by `InsertSpec`/`StoreSpec`, and the method `Insert` (through `InsertRows` and `StoreRows`, which work on the stores' contents) is proved equal to it.
  - The stores' own operations are modelled as keyed writes:
    - `create_table` and `set_collection` leave an existing table or collection as it is;
    - `insert_data` completes omitted columns with defaults;
    - `batch_insert` writes entries by identity.
  - The collaborators whose code is not shown are abstract functions in `Backends`: the sentence splitter, `uuid4`, column defaults, the SQL column query and the vector search.
- `chat_agent.dfy` (`Chat`) holds the class `ChatAgent`.
  - The tokenizer is an abstract length function.
  - Model replies and conversation summaries are inputs.
  - `split_messages_into_pairs` is specified by an index-level scan (`Scan`), whose invariant `WellScanned` is proved.

## Behaviour of the code worth knowing
Each of these follows from the code, and the model keeps it.

- `set_table` with no schema raises `TypeError` (`x not in None`, semantic_sql.py:60), so the `get_schema` fallback at lines 70-71 is unreachable.
- No operation checks that a table is bound.
  - `get` fails with `TypeError` when unbound, because it concatenates `None` into its query.
- `hybrid_query` calls the vector store even when the SQL clause selects no identity, with an empty `$in` list.
  - A missing `sql_where` raises `TypeError` before any store is touched.
- `insert` raises `KeyError` when a row of the vector batch lacks the semantic field. It does so after the relational write, and nothing reaches the vector store. The batch rows are the caller's rows when the first row's keys equal the schema's. Otherwise they are the rows re-read from the table, which carry every column the table declares, so a caller's row without the semantic field fails only when the table's own schema lacks that field.
- `insert([])` raises `IndexError` (`data[0]`) after an empty relational write.
- The re-read query prints a single identity with `str(ids).replace(",","")`, which also removes the commas inside that identity (see "## Findings").
- A validity failure raises `ValueError` with the message of semantic_sql.py:153.
- `split_messages_into_pairs` keeps the latest system entry seen since the last pair, wherever it falls before the closing assistant entry. With the messages [user, system, assistant] it pairs the system entry that comes after the user entry, although the docstring (ChatAgent.py:286-287) speaks of one found before the user entry. The model (`Chat.Step`, `Chat.ScanWell`) follows the code.
- `send_message` over the token limit:
  - with the default `summary_size` of `None` it fails with `TypeError`, because `words_in_messages // 2` is applied to the method itself, not its result;
  - otherwise, when the conversation holds no complete user/assistant turn, it fails with `IndexError`, because saving the conversation inserts an empty list.

## Model

| member | source | states |
|---|---|---|
| Text.Contains | ChatAgent.py:22 | (definition) Python's `t in s` on strings: `t` occurs at some index of `s`. |
| Text.Join | ChatAgent.py:141 | (definition) Python's `sep.join(parts)`; `JoinSplit`, `SplitJoin` and `JoinOccurrences` state its properties. |
| Text.WithSuffix | ChatAgent.py:22-23 | The result always contains the suffix. It equals the name exactly when the name already contains the suffix; otherwise it is the name followed by the suffix. |
| Text.Split | ChatAgent.py:144 | `split(c)` yields at least one piece, and no piece contains the separator. |
| Text.SplitCount | ChatAgent.py:144 | Splitting yields one more piece than there are separators. |
| Text.JoinSplit | ChatAgent.py:141-144 | Joining the pieces of a split with the separator gives back the original string. |
| Text.SplitJoin | ChatAgent.py:141-144 | Splitting a join gives back the parts, when no part contains the separator. |
| Text.JoinOccurrences | ChatAgent.py:141-144 | A join adds exactly one separator between each two parts. |
| Chat.TxtFilename | ChatAgent.py:239-241 | The `.txt` name contains ".txt" and is the given name when that already contains it; otherwise ".txt" is appended. Normalising again changes nothing. The same rule holds at lines 22-23. |
| Chat.PickleFilename | ChatAgent.py:259-263 | The same rule for ".pickle", which also holds at lines 45-46; normalising is idempotent. |
| Chat.TokenSumAppend | ChatAgent.py:124-128 | The token count of a concatenation is the sum of the counts of its parts. |
| Chat.TokenCount | ChatAgent.py:124-128 | (definition) The summed token lengths of the contents, or `KeyError` when a message has no content. `CountTokens` is proved to compute it. |
| Chat.NeedsRefresh | ChatAgent.py:166 | (definition) The refresh test: current count plus the new message's tokens exceeds the limit. `SendMessage` refreshes exactly when it holds. |
| Chat.ExtractContent | ChatAgent.py:140-141 | (definition) The contents joined by single spaces; `ExtractContentSplits` gives its round trip. |
| Chat.Contents | ChatAgent.py:141 | At most one content per message, and exactly one each when every message has content. |
| Chat.ContentsAppend | ChatAgent.py:141 | The filter distributes over concatenation: the contents of two message lists back to back are the two lists of contents back to back. |
| Chat.ContentsOne | ChatAgent.py:141 | A single message contributes its content when it has the key, and nothing otherwise. |
| Chat.ContentsAll | ChatAgent.py:141 | When every message has content, the contents are the messages' contents one for one, in order. |
| Chat.WordsIn | ChatAgent.py:143-144 | The word count is at least 1, even with no messages. |
| Chat.WordsInCount | ChatAgent.py:143-144 | The word count is the number of spaces inside the contents plus the number of contents, or 1 when there are none. |
| Chat.ExtractContentSplits | ChatAgent.py:140-144 | Splitting the extracted text on spaces gives back the contents, when there is at least one and none contains a space. |
| Chat.Scan | ChatAgent.py:294-303 | The loop state holds only indices of entries already seen, and each pair's user entry comes before its assistant entry. |
| Chat.StepWell | ChatAgent.py:294-303 | One loop iteration preserves the pairing invariant `WellScanned`. |
| Chat.ScanWell | ChatAgent.py:294-303 | Every pair is a user entry closed by an assistant entry, with no user or assistant entry between them, so the user entry is the most recent one. Its system entry is the last one since the previous pair, or there was none. Pairs come after one another, and the pending slots satisfy the same rules. |
| Chat.ScanComplete | ChatAgent.py:299-303 | An entry closes a pair exactly when it is an assistant entry with a user entry before it and no assistant entry in between. Both directions are proved. |
| Chat.ClosesAtStep | ChatAgent.py:299 | The assistant entry being scanned emits a pair exactly when a user entry is pending. |
| Chat.PendingUser | ChatAgent.py:297-303 | A user entry not yet followed by an assistant entry is still pending; only an emitted pair clears the slot. |
| Chat.PairsAtMostAssistants | ChatAgent.py:299-301 | There are never more pairs than assistant entries. |
| Chat.PairsUseEntriesOnce | ChatAgent.py:301-303 | Two pairs never share a user, assistant or system entry, because both slots reset after each pair. |
| Chat.PairsInMessageOrder | ChatAgent.py:294-303 | Pairs come in message order: a pair's assistant entry precedes the next pairs' user and system entries. |
| Chat.PairsRoles | ChatAgent.py:295-301 | In every returned triple the second entry has role user and the third has role assistant; the first is absent or has role system. |
| Chat.SendAddsTokens | ChatAgent.py:172-176 | A turn without refresh adds exactly the user message's tokens and the reply's tokens to the count. |
| Chat.Step | ChatAgent.py:295-303 | (definition) One iteration of the pairing loop: a system entry fills the system slot, a user entry the user slot, an assistant entry with a pending user emits a pair and clears both slots. `StepWell` proves each branch keeps the scan invariant. |
| Chat.PairsSpec | ChatAgent.py:284-304 | (definition) The triples of the whole scan. `SplitMessagesIntoPairs` is proved to return it, and `PairsRoles`, `PairsUseEntriesOnce` and `PairsInMessageOrder` state its properties. |
| Chat.ChatAgent.constructor | ChatAgent.py:73-82 | Starts with the given messages (none by default), no directive, and the given limit and summary size. |
| Chat.ChatAgent.SetPrimaryDirective | ChatAgent.py:117-122 | A non-empty prompt is appended as one system message and stored. With no prompt, the stored directive is appended again. Otherwise nothing changes. |
| Chat.ChatAgent.AddContext | ChatAgent.py:146-148 | Appends exactly one system message when the prompt is non-empty; nothing else changes. |
| Chat.ChatAgent.CountTokens | ChatAgent.py:124-128 | The count is the summed token lengths of all contents, or `KeyError` when a message has no content. |
| Chat.ChatAgent.IsWithinTokenLimit | ChatAgent.py:130-134 | True exactly when the count is at most the given limit, or the agent's own limit when none is given. `KeyError` as in the count. |
| Chat.ChatAgent.TokensLeft | ChatAgent.py:136-138 | The agent's limit minus the count. `KeyError` as in the count. |
| Chat.ChatAgent.ExtractMessagesContent | ChatAgent.py:140-141 | The contents joined by single spaces: splitting the result on spaces gives back the contents, when none contains a space. |
| Chat.ChatAgent.WordsInMessages | ChatAgent.py:143-144 | At least 1; equal to the spaces inside the contents plus the number of contents. |
| Chat.ChatAgent.SplitMessagesIntoPairs | ChatAgent.py:284-304 | The loop over the given messages (the agent's own by default) returns exactly the pairs of the scan, whose properties are the lemmas above. |
| Chat.ChatAgent.RefreshSession | ChatAgent.py:150-158 | With no summary size: `TypeError`, nothing changed. With no complete turn: the memory insert fails with `IndexError`, nothing changed. Otherwise the messages restart as the stored directive (if any) followed by the summary context. |
| Chat.ChatAgent.SendMessage | ChatAgent.py:161-176 | Refreshes exactly when the count plus the new message's tokens exceeds the limit, with the refresh's failures passed on. Then exactly the user message and the reply are appended. A message without content fails with `KeyError` and changes nothing. |
| SemanticSql.CreateTable | semantic_sql.py:64-65 | Creates the table with the schema unless it exists; every other table is unchanged. |
| SemanticSql.SetCollection | semantic_sql.py:66 | Creates an empty collection unless it exists; every other collection is unchanged. |
| SemanticSql.Complete | semantic_sql.py:168 | A stored row keeps every supplied column and has every declared column. |
| SemanticSql.WriteRows | semantic_sql.py:168 | The relational write adds exactly the rows' identities. Other identities keep their rows, and every written identity holds a row carrying that identity. |
| SemanticSql.ReadBack | semantic_sql.py:182-183 | (definition) `SELECT * ... WHERE id IN (...)`: the stored rows of the named identities, each once, in first-occurrence order. |
| SemanticSql.FieldsGenerated | semantic_sql.py:170-174 | (definition) The schema's column names differ from the first row's keys. |
| SemanticSql.FinalRows | semantic_sql.py:176-183 | (definition) The intended batch rows: the re-read of exactly the returned identities when fields were generated, otherwise the written rows. |
| Text.Remove | semantic_sql.py:179 | `replace(",", "")`: no comma is left, the length drops by the number of commas, every other character is kept, and a string without commas is unchanged. |
| SemanticSql.QueriedIds | semantic_sql.py:177-181 | The identities the re-read query names as the code prints them: one per returned identity, and equal to the returned ones exactly when they are not a single comma-holding string. |
| SemanticSql.FinalRowsAsWritten | semantic_sql.py:176-183 | (definition) The batch rows as the code computes them, re-reading the identities of `QueriedIds`. |
| SemanticSql.AsWrittenIsIntended | semantic_sql.py:176-183 | Unless the returned identities are a single comma-holding string, the code's batch rows are the intended ones, so the `insert` lemmas hold of the code as written. |
| SemanticSql.LoneCommaIdLost | semantic_sql.py:176-183 | A concrete insert of one row with identity `a,b`: the row is stored under `a,b`, the intended re-read finds it, and the code's re-read (of `ab`) finds nothing. |
| SemanticSql.WriteOneRow | semantic_sql.py:168 | Writing one row to an empty table stores it, completed with defaults, under its identity alone. |
| SemanticSql.RemoveCommaOfAB | semantic_sql.py:179 | Removing the commas of `a,b` gives `ab`. |
| SemanticSql.ReadBackOnlyListed | semantic_sql.py:182-183 | The `IN` query returns only rows stored under an identity it names. |
| SemanticSql.ReadBackCoversListed | semantic_sql.py:182-183 | The `IN` query returns the stored row of every identity it names. |
| SemanticSql.WriteEntries | semantic_sql.py:207 | The vector write adds exactly the batch's identities and leaves every other entry unchanged. |
| SemanticSql.AssignedRows | semantic_sql.py:157-166 | (definition) If any row lacks a usable identity, row `i` with the identity field set to the `i`-th fresh id; otherwise the rows unchanged. |
| SemanticSql.AssignedIds | semantic_sql.py:157-166 | (definition) The identities `insert` returns: the fresh ids, or each row's own identity. |
| SemanticSql.VectorBatch | semantic_sql.py:185-200 | (definition) Per row: its semantic value, the row without the semantic field, and its identity. |
| SemanticSql.StoreSpec | semantic_sql.py:168-209 | (definition) The store part of `insert`: the relational write, `IndexError` on no rows, `KeyError` when a batch row lacks the semantic field, otherwise the vector write of the batch. Its properties are `StoreSpecFacts`, `StoreSpecOk` and `StoreKeepsStoresConsistent`. |
| SemanticSql.InsertSpec | semantic_sql.py:150-209 | (definition) `insert` step by step: the validity check, identity assignment, then the store part. Its properties are the lemmas below. |
| SemanticSql.AssignedRowsCarryIds | semantic_sql.py:157-166 | After assignment every row carries a non-null identity, the one returned for it, and there is one identity per row. |
| SemanticSql.FinalRowsCarryIds | semantic_sql.py:176-202 | The rows the batch is built from all carry an identity, so the per-row uuid fallback at lines 191-192 and the `try` at lines 199-202 never act. |
| SemanticSql.FinalRowsNonEmpty | semantic_sql.py:176-205 | The batch is never empty after a non-empty write, so `text_ids` is never replaced by `None`. |
| SemanticSql.StoreSpecFacts | semantic_sql.py:168-209 | After assignment: the relational write always happens, and an empty input fails with `IndexError`. The only other failure is `KeyError` (a row of the vector batch lacks the semantic field), and it leaves the vector store untouched. Success returns the assigned identities, with every batch row carrying the semantic field. |
| SemanticSql.InsertSpecUnfold | semantic_sql.py:150-168 | When the validity check passes, `insert` is the store part applied to the assigned rows, with the identity counter advanced exactly when fresh ids were drawn. |
| SemanticSql.InsertIdentityRule | semantic_sql.py:157-166 | Identity assignment is all or nothing. If any row lacks an identity, row `i` gets the `i`-th fresh one, overwriting its own, and `len(data)` fresh ids are drawn. Otherwise the rows are unchanged and no id is drawn. On success the returned list holds each row's identity in input order. |
| SemanticSql.FreshRowsAssigned | semantic_sql.py:158-162 | With a row lacking an identity, each row is the caller's row with the identity field set to its fresh id. |
| SemanticSql.FreshIdsDistinct | semantic_sql.py:158-162 | The fresh identities of one call are pairwise distinct. |
| SemanticSql.InsertFailures | semantic_sql.py:150-193 | `ValueError` exactly when validity is checked and a row has an undeclared key; then nothing changes. `IndexError` exactly when validity passes and `data` is empty. No failure reaches the vector store. |
| SemanticSql.WriteRowsDistinct | semantic_sql.py:168 | With distinct identities, each row is stored under its identity, completed with defaults. |
| SemanticSql.InsertThenGet | semantic_sql.py:168-231 | After a successful insert with distinct identities, looking up each returned identity gives the inserted row completed with defaults. |
| SemanticSql.AgreeAfterWrite | semantic_sql.py:193-207 | Writing one row to both stores makes its identity agree between them and keeps the others agreeing. |
| SemanticSql.WriteBothAgree | semantic_sql.py:168-207 | Writing the same rows to both stores leaves every written identity agreeing between them. |
| SemanticSql.AgreeAfterWriteAll | semantic_sql.py:193-207 | One step of the previous lemma: earlier rows keep agreeing. |
| SemanticSql.WriteReadBackAgree | semantic_sql.py:183-207 | Writing re-read rows to the vector store makes each of their identities agree with the relational row. |
| SemanticSql.ReadBackSelfKeyed | semantic_sql.py:176-183 | Each re-read row is the relational row stored under its own identity. |
| SemanticSql.ReadBackCaseAgrees | semantic_sql.py:176-207 | When the batch is built from re-read rows, every returned identity agrees between the stores. |
| SemanticSql.StoreSpecOk | semantic_sql.py:176-207 | When the write was non-empty and every final row has the semantic field, the rows carry identities and the store part succeeds with the assigned identities and the vector write of the final rows. |
| SemanticSql.StoreKeepsStoresConsistent | semantic_sql.py:168-209 | A successful store part returns the assigned identities, and each of them agrees between the two stores. |
| SemanticSql.InsertKeepsStoresConsistent | semantic_sql.py:168-209 | After a successful insert, every returned identity is in both stores, and the vector text with its metadata matches the relational row. |
| SemanticSql.BatchIdsOfRows | semantic_sql.py:185-200 | The batch's identities are exactly its rows' identities. |
| SemanticSql.WrittenIdsAreIds | semantic_sql.py:164-168 | The identities written to the relational store are exactly the returned ones. |
| SemanticSql.ReadBackIds | semantic_sql.py:176-200 | A batch built from the re-read rows writes exactly the returned identities. |
| SemanticSql.InsertTouchesOnlyItsIds | semantic_sql.py:168-209 | A successful insert adds exactly the returned identities to both stores and leaves every other row and entry unchanged. |
| SemanticSql.LookupIsColumnQuery | semantic_sql.py:230-231 | While every row is stored under its own identity column, the keyed lookup returns exactly the rows whose identity column holds the given value, as `WHERE <unique_id_field> = ?` does. |
| SemanticSql.Lookup | semantic_sql.py:230-231 | A lookup gives at most one row: the row stored under the identity, and none when there is none. |
| SemanticSql.ChunkedRows | semantic_sql.py:117-123 | One row per chunk, in order. Row `i` has the metadata's keys plus the semantic field, holds chunk `i` there, and equals the metadata everywhere else. |
| SemanticSql.CheckValidity | semantic_sql.py:150-153 | The check passes exactly when no row has a key the schema does not declare. |
| SemanticSql.AssignIds | semantic_sql.py:157-166 | The loops give exactly the assigned rows and identities of the specification, drawing `len(data)` fresh ids or none. |
| SemanticSql.BuildVectorBatch | semantic_sql.py:185-202 | Fails with `KeyError` exactly when a row lacks the semantic field. Otherwise the three parallel lists have one entry per row: the semantic value, the row without the semantic field alone, and the identity. |
| SemanticSql.FirstColumn | semantic_sql.py:254-256 | One identity per tuple: its first component, in order. |
| SemanticSql.CollectIds | semantic_sql.py:253-256 | The `ids_list` loop gives the first component of every tuple in order, or `IndexError` exactly when a tuple is empty. |
| SemanticSql.SemanticSqlDb.constructor | semantic_sql.py:28-33 | Starts connected to the given stores, with no binding and no active collection. |
| SemanticSql.SemanticSqlDb.Bind | semantic_sql.py:64-73 | Once the schema is accepted: the table is created if missing, the collection is set and made active, the binding holds exactly the arguments, the object stays consistent and nothing else changes. |
| SemanticSql.SemanticSqlDb.SetTable | semantic_sql.py:60-73 | No schema: `TypeError`. Semantic field undeclared: the first `ValueError`. Identity field undeclared: the second. All checks precede any change. On success the table is created if missing, the collection is made active, and the binding holds exactly the arguments and the supplied schema. |
| SemanticSql.SemanticSqlDb.ChunkTextForInsert | semantic_sql.py:117-123 | The chunk rows, one per chunk. With no metadata, `TypeError` exactly when there is a chunk. |
| SemanticSql.StoreRows | semantic_sql.py:168-209 | On the stores' contents: the relational write, the `IndexError` exit, the re-read decision, the `KeyError` exit and the vector write give exactly the store part of the specification. |
| SemanticSql.InsertRows | semantic_sql.py:129-209 | On the stores' contents: the validity check, identity assignment and the store part give exactly the written rows, outcome, id counter, table rows and collection of the specification. |
| SemanticSql.SemanticSqlDb.Insert | semantic_sql.py:129-209 | The written rows, the outcome, the id counter and both stores are exactly those of the step-by-step specification. The lemmas above state what that specification guarantees. |
| SemanticSql.SemanticSqlDb.InsertTextInChunks | semantic_sql.py:213-215 | Inserts the chunk rows, or fails with `TypeError` and changes nothing when metadata is missing and there are chunks. |
| SemanticSql.SemanticSqlDb.Get | semantic_sql.py:230-231 | When bound, the lookup of the identity in the bound table. When unbound, `TypeError`. |
| SemanticSql.SemanticSqlDb.HybridQuery | semantic_sql.py:252-264 | No clause: `TypeError`. An empty tuple: `IndexError`. Otherwise the vector search over the active collection, filtered by `$in` on exactly the first column of the selected tuples, in order, and run even when that list is empty. |

## Left out

- LLM calls (`send_message`'s completion, `side_message`, `summarize_current_conversation`, the `*_async` wrappers): network and threads. Replies and summaries are inputs to `SendMessage` and `RefreshSession`.
- The tokenizer (`tiktoken`): a foreign library. It is the abstract `encodeLength`.
- Persistence (`save_*`/`load_*`, `pickle`, `repr`/`eval`, file I/O): I/O and dynamic evaluation. Only the file-name rule is modelled.
- `print` calls in `send_message`: output only.
- Chat.ChatAgent.RefreshSession: the conversation-memory write itself is not modelled. It stores `repr` strings of the pairs with a wall-clock timestamp. Only its failure on an empty pair list is modelled, as `IndexError`. This assumes the relational store accepts an empty write; if it rejects one, the exception differs.
- The two memories `ChatAgent.__init__` builds (their paths and `set_table` calls): they only configure `semantic_sql_db` objects, whose behaviour is modelled in `SemanticSql`.
- `fetch_relevent_info_*` and `ingest_document_text`: they cannot run (missing `self`, a misspelled attribute).
- `current_utc_timestamp`: the wall clock.
- The internals of `local_sql_db`, `local_semantic_db` and `text_splitter`: their code is not part of this model. The SQL strings are not parsed. The column query and the vector search are abstract functions of the stored data, and the splitter is an abstract function of the text and the chunk size.
- Similarity ranking and embeddings: floating-point numerics inside a foreign store.
- `uuid4`: modelled as an injective oracle over a per-object counter. Randomness and collisions with identities drawn elsewhere are not modelled.
- `insert_data` with an identity already stored: modelled as replacing the stored row. The real store may reject the duplicate instead.
- The order of rows returned by the re-read query: SQL leaves it unspecified. The model returns first-occurrence order of the listed identities.
- Errors raised inside the stores (constraint violations, malformed SQL): they are not modelled.
- `get` with a list or tuple: the query binds the whole tuple to a single `in ?` placeholder, so the outcome is up to the store.
- The caller's row dicts being changed in place by `insert`: modelled by returning the rows as the caller sees them afterwards (`written`), not by aliasing.
- The caller's `messages` list kept by reference in `ChatAgent.__init__` (ChatAgent.py:78): `Chat.ChatAgent` holds the messages as a sequence value, so the appends of `set_primary_directive`, `add_context` and `send_message` are not visible through the caller's list, and the rebinding to a new list in `refresh_session` (ChatAgent.py:156) is not distinguished from an update in place.
- A message whose `content` key holds `None`: `Message.content` models only whether the key is present.
- SemanticSql.SemanticSqlDb.Insert, SemanticSql.SemanticSqlDb.InsertTextInChunks: require a complete binding. Unbound, the code passes `None` as table and field names to the stores, whose behaviour is not shown.
- SemanticSql.SemanticSqlDb.HybridQuery: requires a binding when a clause is given, for the same reason (`str(None)` names the table "None").
- SemanticSql.SemanticSqlDb.ChunkTextForInsert: requires the semantic field to be set. Unbound, the rows would get the key `None`, which `Row` cannot hold.
- SemanticSql.StoreSpec: re-reads exactly the returned identities (`FinalRows`). The code's query removes the commas of a lone identity (semantic_sql.py:179); `FinalRowsAsWritten` models that, and `AsWrittenIsIntended` shows the two agree in every other case (see "## Findings").
- SemanticSql.InsertSpec: uses `StoreSpec`, with the same gap for a lone comma-holding identity.
- SemanticSql.StoreRows: proved equal to `StoreSpec`, so for a lone comma-holding identity it follows the intended re-read, not the code's.
- SemanticSql.InsertRows: proved equal to `InsertSpec`, with the same gap.
- SemanticSql.SemanticSqlDb.Insert: its new collection is `InsertSpec`'s, with the same gap.
- SemanticSql.ReadBackOnlyListed: speaks of the identities the query names; for a lone comma-holding identity the code names `QueriedIds`, not the returned one.
- SemanticSql.ReadBackCoversListed: as for `ReadBackOnlyListed`; with the code's query the listed row is missed (`LoneCommaIdLost`).
- SemanticSql.FinalRowsNonEmpty: holds of the intended re-read; the code's re-read can be empty for a lone comma-holding identity, and then `text_ids` becomes `None` (semantic_sql.py:204-205).
- SemanticSql.ReadBackCaseAgrees: holds of the intended re-read; for a lone comma-holding identity the code's vector store does not receive that identity.
- SemanticSql.ReadBackIds: holds of the intended re-read; the code's batch can write the comma-free identity or nothing.
- SemanticSql.StoreKeepsStoresConsistent: holds of the intended re-read, and of the code whenever the identities are not a single comma-holding string (`AsWrittenIsIntended`).
- SemanticSql.InsertKeepsStoresConsistent: as for `StoreKeepsStoresConsistent`.
- SemanticSql.InsertTouchesOnlyItsIds: as for `StoreKeepsStoresConsistent`; with the code's query the vector write can touch the comma-free identity instead.
- SemanticSql.QueriedIds: models `str(tuple)` only for the comma. An identity holding a quote or a backslash is printed by Python in a form that is not an SQL string literal for it; those queries are not modelled.
- SemanticSql.SemanticSqlDb.Get: looks up the key a row is stored under, standing for `WHERE <unique_id_field> = ?`. The two agree while every row is stored under its own identity column (`LookupIsColumnQuery`). Nothing enforces that for the tables given to the constructor, or after `set_table` rebinds an existing table with a different identity field; there the code's query can return other rows than the model.
- SemanticSql.BuildVectorBatch: requires every row to have the identity field, and does not model the per-row `uuid4` fallback of semantic_sql.py:191-192. A row whose identity is `Null` keeps `Null` in its metadata, where the code puts a fresh `uuid4`. The only caller passes rows with non-null identities (`FinalRowsCarryIds`), so this never arises inside `insert`.
- `make_virtual_env.py`: an interactive script for operating-system set-up.

## Findings

| source | as written | input that shows it | evidently intended | confidence | as-written member | corrected member |
|---|---|---|---|---|---|---|
| semantic_sql.py:178-179 | A lone identity is printed as a one-element tuple with `str(ids).replace(",","")`, which also removes the commas inside the identity, so the re-read asks for another identity. | `insert([{"id": "a,b", "description": "x"}])` on the table of semantic_sql.py:286-293: the row omits declared columns, so the code re-reads `WHERE id IN ('ab')`, finds no row (or an unrelated row `ab`), and sends an empty batch with `text_ids = None`. | Remove only the tuple's trailing comma, so the re-read names exactly the returned identity and the row reaches the vector store. | not executed | SemanticSql.LoneCommaIdLost | SemanticSql.FinalRows |

`LoneCommaIdLost` uses `QueriedIds` and `FinalRowsAsWritten` for the code as written. The rest of the model uses `FinalRows`, whose consequences are proved in `StoreKeepsStoresConsistent` and `InsertKeepsStoresConsistent` (every returned identity agrees between the two stores). `AsWrittenIsIntended` proves that the code's re-read is the intended one except for this input.
