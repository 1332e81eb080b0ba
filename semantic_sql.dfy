/** The hybrid index `semantic_sql_db`: one binding of a relational table and
    a vector collection under a shared identity field, with insert (plain and
    chunked), point lookup and a hybrid query. The relational store, the
    vector store, the sentence splitter and `uuid4` are collaborators whose
    internals are not part of this model; they appear as the abstract
    functions of `Backends` and as the store maps held by the object. */
module SemanticSql {
  import opened Wrappers
  import Text

  /** A Python value held in a row: `None`, a string or an integer. */
  datatype Value = Null | Str(s: string) | Int(i: int)

  /** A row: column name to value (a Python dict). */
  type Row = map<string, Value>

  /** Column name to its SQL declaration, e.g. "TEXT PRIMARY KEY". */
  type Schema = map<string, string>

  /** A relational table: its declared columns and its rows by identity. */
  datatype Table = Table(schema: Schema, rows: map<Value, Row>)

  /** What the vector store keeps under an identity: the embedded text and its metadata. */
  datatype VecEntry = VecEntry(text: Value, metadata: Row)

  /** The metadata filter `{field: {"$in": ids}}`. */
  datatype Filter = IdIn(field: string, ids: seq<Value>)

  /** One match returned by the vector store. */
  datatype Hit = Hit(id: Value, entry: VecEntry)

  /** The three parallel lists handed to the vector store's `batch_insert`. */
  datatype Batch = Batch(texts: seq<Value>, metadatas: seq<Row>, textIds: seq<Value>)

  /** The collaborators whose behaviour is not shown. */
  datatype Backends = Backends(
    // text_splitter(text, max_sentences_per_chunk)
    splitText: (string, int) -> seq<string>,
    // the n-th result of str(uuid.uuid4()) drawn by this object
    newId: nat -> string,
    // the value the relational store fills in for an omitted column, from the column's declaration
    columnDefault: string -> Value,
    // the tuples of "SELECT <column> FROM <table> WHERE <clause>" over the table's rows
    selectColumn: (map<Value, Row>, string, string) -> seq<seq<Value>>,
    // the matches of the collection for (query_text, top_k, where), in the store's order
    vectorSearch: (map<Value, VecEntry>, string, int, Filter) -> seq<Hit>)

  /** The id generator never repeats itself (the fresh-id oracle standing for uuid4). */
  ghost predicate DistinctIds(b: Backends) {
    forall i: nat, j: nat :: i != j ==> b.newId(i) != b.newId(j)
  }

  const SEMANTIC_FIELD_MISSING := "table_sql_schema must contain semantic_search_field"
  const ID_FIELD_MISSING := "table_sql_schema must contain unique_id_field"
  const INVALID_DATA := "data should be a list of dicts with keys that match the table_sql_schema"

  // ---------------------------------------------------------------------------
  // The stores' own operations, as the model takes them

  /** `create_table`: a table that already exists is left as it is. */
  function CreateTable(tables: map<string, Table>, name: string, schema: Schema): (r: map<string, Table>)
    ensures name in r && r[name] == (if name in tables then tables[name] else Table(schema, map[]))
    ensures forall n :: n in tables ==> n in r && r[n] == tables[n]
    ensures r.Keys == tables.Keys + {name}
  {
    if name in tables then tables else tables[name := Table(schema, map[])]
  }

  /** `set_collection`: a missing collection is created empty. */
  function SetCollection(collections: map<string, map<Value, VecEntry>>, name: string): (r: map<string, map<Value, VecEntry>>)
    ensures name in r && (name in collections ==> r[name] == collections[name])
    ensures name !in collections ==> r[name] == map[]
    ensures forall n :: n in collections ==> n in r && r[n] == collections[n]
    ensures r.Keys == collections.Keys + {name}
  {
    if name in collections then collections else collections[name := map[]]
  }

  /** The row as the relational store holds it: every supplied column, and
      each declared column the row omits filled with its default. */
  function Complete(fill: string -> Value, schema: Schema, row: Row): (r: Row)
    ensures r.Keys == row.Keys + schema.Keys
    ensures forall c :: c in row ==> r[c] == row[c]
  {
    row + map c | c in schema.Keys && c !in row :: fill(schema[c])
  }

  /** The identities carried by `rows` from index `from` on. */
  function IdsFrom(idField: string, rows: seq<Row>, from: nat): set<Value>
    requires forall j :: 0 <= j < |rows| ==> idField in rows[j]
  {
    set j | from <= j < |rows| :: rows[j][idField]
  }

  /** `t[k]` is a row whose identity field holds `k`. */
  ghost predicate SelfKeyed(t: map<Value, Row>, idField: string, k: Value) {
    k in t && idField in t[k] && t[k][idField] == k
  }

  /** `insert_data`: the rows from index `from` on, written in order, each
      under its identity (a later row with the same identity replaces an
      earlier one). */
  function WriteRows(fill: string -> Value, schema: Schema, idField: string, t: map<Value, Row>, rows: seq<Row>, from: nat): (r: map<Value, Row>)
    requires forall j :: 0 <= j < |rows| ==> idField in rows[j]
    ensures r.Keys == t.Keys + IdsFrom(idField, rows, from)
    ensures forall k :: k in t && k !in IdsFrom(idField, rows, from) ==> r[k] == t[k]
    ensures forall k :: SelfKeyed(t, idField, k) ==> SelfKeyed(r, idField, k)
    ensures forall j :: from <= j < |rows| ==> SelfKeyed(r, idField, rows[j][idField])
    decreases |rows| - from
  {
    if from >= |rows| then t
    else
      assert IdsFrom(idField, rows, from) == {rows[from][idField]} + IdsFrom(idField, rows, from + 1);
      WriteRowKeepsSelfKeyed(fill, schema, idField, t, rows[from]);
      WriteRows(fill, schema, idField, t[rows[from][idField] := Complete(fill, schema, rows[from])], rows, from + 1)
  }

  /** Writing one row keeps every self-keyed entry self-keyed and makes the
      row's own identity self-keyed. */
  lemma WriteRowKeepsSelfKeyed(fill: string -> Value, schema: Schema, idField: string, t: map<Value, Row>, row: Row)
    requires idField in row
    ensures var t1 := t[row[idField] := Complete(fill, schema, row)];
            SelfKeyed(t1, idField, row[idField]) && forall k :: SelfKeyed(t, idField, k) ==> SelfKeyed(t1, idField, k)
  {
  }

  /** "SELECT * FROM table WHERE id IN ids": the stored rows of the listed
      identities, each once, in the order the identities first appear. */
  function ReadBack(t: map<Value, Row>, ids: seq<Value>, seen: set<Value>): seq<Row>
    decreases |ids|
  {
    if |ids| == 0 then []
    else if ids[0] in seen || ids[0] !in t then ReadBack(t, ids[1..], seen)
    else [t[ids[0]]] + ReadBack(t, ids[1..], seen + {ids[0]})
  }

  /** The re-read returns only rows stored under one of the listed identities. */
  lemma {:induction false} ReadBackOnlyListed(t: map<Value, Row>, ids: seq<Value>, seen: set<Value>, i: nat)
    requires i < |ReadBack(t, ids, seen)|
    ensures exists j :: 0 <= j < |ids| && ids[j] in t && ids[j] !in seen && ReadBack(t, ids, seen)[i] == t[ids[j]]
    decreases |ids|
  {
    var rows := ReadBack(t, ids, seen);
    if ids[0] in seen || ids[0] !in t {
      ReadBackOnlyListed(t, ids[1..], seen, i);
      var j :| 0 <= j < |ids[1..]| && ids[1..][j] in t && ids[1..][j] !in seen && rows[i] == t[ids[1..][j]];
      assert ids[j + 1] == ids[1..][j];
    } else if i == 0 {
      assert rows[0] == t[ids[0]];
    } else {
      ReadBackOnlyListed(t, ids[1..], seen + {ids[0]}, i - 1);
      var j :| 0 <= j < |ids[1..]| && ids[1..][j] in t && ids[1..][j] !in seen + {ids[0]} && rows[i] == t[ids[1..][j]];
      assert ids[j + 1] == ids[1..][j];
    }
  }

  /** The re-read returns the stored row of every listed identity. */
  lemma {:induction false} ReadBackCoversListed(t: map<Value, Row>, ids: seq<Value>, seen: set<Value>, j: nat)
    requires j < |ids| && ids[j] in t && ids[j] !in seen
    ensures t[ids[j]] in ReadBack(t, ids, seen)
    decreases |ids|
  {
    if j > 0 {
      assert ids[1..][j - 1] == ids[j];
      if ids[0] in seen || ids[0] !in t {
        ReadBackCoversListed(t, ids[1..], seen, j - 1);
      } else if ids[j] == ids[0] {
      } else {
        ReadBackCoversListed(t, ids[1..], seen + {ids[0]}, j - 1);
      }
    }
  }

  /** `batch_insert`: the entries from index `from` on, written in order under their identities. */
  function WriteEntries(c: map<Value, VecEntry>, b: Batch, from: nat): (r: map<Value, VecEntry>)
    requires |b.texts| == |b.metadatas| == |b.textIds|
    ensures r.Keys == c.Keys + (set j | from <= j < |b.textIds| :: b.textIds[j])
    ensures forall k :: k in c && (forall j :: from <= j < |b.textIds| ==> b.textIds[j] != k) ==> r[k] == c[k]
    decreases |b.textIds| - from
  {
    if from >= |b.textIds| then c
    else WriteEntries(c[b.textIds[from] := VecEntry(b.texts[from], b.metadatas[from])], b, from + 1)
  }

  // ---------------------------------------------------------------------------
  // The steps of insert

  /** The row has a key the schema does not declare. */
  predicate HasUnknownKey(schema: Schema, d: Row) {
    exists k :: k in d && k !in schema
  }

  /** The row has no usable identity: the field is missing or `None`. */
  predicate LacksId(idField: string, d: Row) {
    idField !in d || d[idField] == Null
  }

  /** Some row has no usable identity: then every row gets a fresh one. */
  predicate AnyLacksId(idField: string, data: seq<Row>) {
    exists i :: 0 <= i < |data| && LacksId(idField, data[i])
  }

  /** The rows after identity assignment. */
  function AssignedRows(b: Backends, idField: string, start: nat, data: seq<Row>): seq<Row> {
    if AnyLacksId(idField, data) then
      seq(|data|, i requires 0 <= i < |data| => data[i][idField := Str(b.newId(start + i))])
    else data
  }

  /** The identities `insert` returns. */
  function AssignedIds(b: Backends, idField: string, start: nat, data: seq<Row>): seq<Value> {
    if AnyLacksId(idField, data) then
      seq(|data|, i requires 0 <= i < |data| => Str(b.newId(start + i)))
    else
      seq(|data|, i requires 0 <= i < |data| => if idField in data[i] then data[i][idField] else Null)
  }

  /** `fields_were_generated`: the schema's columns differ from the first row's keys. */
  predicate FieldsGenerated(schema: Schema, first: Row) {
    schema.Keys != first.Keys
  }

  /** The batch for the vector store: per row, its semantic value, the row
      without the semantic field, and its identity. */
  function VectorBatch(semField: string, idField: string, rows: seq<Row>): Batch
    requires forall i :: 0 <= i < |rows| ==> semField in rows[i] && idField in rows[i]
  {
    Batch(seq(|rows|, i requires 0 <= i < |rows| => rows[i][semField]),
          seq(|rows|, i requires 0 <= i < |rows| => rows[i] - {semField}),
          seq(|rows|, i requires 0 <= i < |rows| => rows[i][idField]))
  }

  /** The vector payload put back together as a row. */
  function Reassemble(e: VecEntry, semField: string): Row {
    e.metadata[semField := e.text]
  }

  /** Every column of `m` is in `m2` with the same value. */
  ghost predicate SubRow(m: Row, m2: Row) {
    forall c :: c in m ==> c in m2 && m2[c] == m[c]
  }

  /** Both stores hold identity `k`, and the vector payload agrees with the relational row. */
  ghost predicate Agrees(t: map<Value, Row>, c: map<Value, VecEntry>, semField: string, k: Value) {
    k in t && k in c && SubRow(Reassemble(c[k], semField), t[k])
  }

  /** What an `insert` call leaves behind: the caller's rows after identity
      assignment, the outcome, the number of ids drawn so far, and the bound
      table's rows and the active collection afterwards. */
  datatype InsertOutcome = InsertOutcome(
    written: seq<Row>,
    result: Result<seq<Value>>,
    issued: nat,
    table: map<Value, Row>,
    collection: map<Value, VecEntry>)

  /** The rows the vector batch is built from: the re-read of exactly the
      returned identities when fields were generated, otherwise the rows as
      written. This is the intended re-read; `FinalRowsAsWritten` is the
      query the code builds. */
  function FinalRows(schema: Schema, table: map<Value, Row>, written: seq<Row>, ids: seq<Value>): seq<Row>
    requires |written| > 0
  {
    if FieldsGenerated(schema, written[0]) then ReadBack(table, ids, {}) else written
  }

  /** A single returned identity that is a string holding a comma. */
  predicate LoneCommaId(ids: seq<Value>) {
    |ids| == 1 && ids[0].Str? && ',' in ids[0].s
  }

  /** The identities the re-read query names, as the code prints them: a
      lone identity is printed as a one-element tuple from which every comma
      is removed, its own commas included; more identities are printed as
      they are. */
  function QueriedIds(ids: seq<Value>): (q: seq<Value>)
    ensures |q| == |ids|
    ensures !LoneCommaId(ids) <==> q == ids
  {
    if |ids| == 1 && ids[0].Str? then
      assert |Text.Remove(ids[0].s, ',')| == |ids[0].s| - Text.Occurrences(ids[0].s, ',');
      assert ',' in ids[0].s ==> Text.Occurrences(ids[0].s, ',') > 0 by {
        if ',' in ids[0].s { OccurrencesPositive(ids[0].s, ','); }
      }
      [Str(Text.Remove(ids[0].s, ','))]
    else ids
  }

  /** A character that occurs in a string is counted at least once. */
  lemma {:induction false} OccurrencesPositive(s: string, c: char)
    requires c in s
    ensures Text.Occurrences(s, c) > 0
    decreases |s|
  {
    if s[0] != c {
      assert c in s[1..] by {
        var i :| 0 <= i < |s| && s[i] == c;
        assert s[1..][i - 1] == c;
      }
      OccurrencesPositive(s[1..], c);
    }
  }

  /** The rows the vector batch is built from, as the code computes them: the
      re-read uses the identities of `QueriedIds`. */
  function FinalRowsAsWritten(schema: Schema, table: map<Value, Row>, written: seq<Row>, ids: seq<Value>): seq<Row>
    requires |written| > 0
  {
    if FieldsGenerated(schema, written[0]) then ReadBack(table, QueriedIds(ids), {}) else written
  }

  /** Some row has a key the schema does not declare. */
  predicate AnyInvalid(schema: Schema, data: seq<Row>) {
    exists i :: 0 <= i < |data| && HasUnknownKey(schema, data[i])
  }

  /** Some row has no value for `field`. */
  predicate AnyMissing(field: string, rows: seq<Row>) {
    exists i :: 0 <= i < |rows| && field !in rows[i]
  }

  /** Every row carries a non-null value for the identity field. */
  predicate CarryIds(idField: string, rows: seq<Row>) {
    forall i :: 0 <= i < |rows| ==> idField in rows[i] && rows[i][idField] != Null
  }

  /** Every row carries a non-null identity, the one listed for it in `ids`. */
  predicate WellAssigned(idField: string, written: seq<Row>, ids: seq<Value>) {
    && CarryIds(idField, written) && |ids| == |written|
    && forall i :: 0 <= i < |written| ==> written[i][idField] == ids[i]
  }

  /** The part of `insert` after identity assignment: the relational write,
      the re-read decision and the vector write. */
  function StoreSpec(b: Backends, schema: Schema, semField: string, idField: string,
                     tableSchema: Schema, table: map<Value, Row>, collection: map<Value, VecEntry>,
                     issued: nat, written: seq<Row>, ids: seq<Value>): InsertOutcome
    requires WellAssigned(idField, written, ids)
  {
    var table' := WriteRows(b.columnDefault, tableSchema, idField, table, written, 0);
    if |written| == 0 then
      InsertOutcome(written, Err(IndexError), issued, table', collection)
    else
      var final := FinalRows(schema, table', written, ids);
      if AnyMissing(semField, final) then
        InsertOutcome(written, Err(KeyError), issued, table', collection)
      else
        FinalRowsCarryIds(b, schema, idField, tableSchema, table, written, ids);
        InsertOutcome(written, Ok(ids), issued, table',
                      WriteEntries(collection, VectorBatch(semField, idField, final), 0))
  }

  /** `insert(data, check_validity)` on a bound object, step by step. */
  function InsertSpec(b: Backends, schema: Schema, semField: string, idField: string,
                      tableSchema: Schema, table: map<Value, Row>, collection: map<Value, VecEntry>,
                      issued: nat, data: seq<Row>, checkValidity: bool): InsertOutcome
  {
    if checkValidity && AnyInvalid(schema, data) then
      InsertOutcome(data, Err(ValueError(INVALID_DATA)), issued, table, collection)
    else
      AssignedRowsCarryIds(b, idField, issued, data);
      StoreSpec(b, schema, semField, idField, tableSchema, table, collection,
                if AnyLacksId(idField, data) then issued + |data| else issued,
                AssignedRows(b, idField, issued, data), AssignedIds(b, idField, issued, data))
  }

  /** After identity assignment every row carries a non-null identity, the
      one returned for it. */
  lemma AssignedRowsCarryIds(b: Backends, idField: string, start: nat, data: seq<Row>)
    ensures |AssignedRows(b, idField, start, data)| == |data|
    ensures WellAssigned(idField, AssignedRows(b, idField, start, data), AssignedIds(b, idField, start, data))
  {
  }

  /** The rows the batch is built from each carry their identity. */
  lemma FinalRowsCarryIds(b: Backends, schema: Schema, idField: string, tableSchema: Schema,
                          table: map<Value, Row>, written: seq<Row>, ids: seq<Value>)
    requires WellAssigned(idField, written, ids) && |written| > 0
    ensures CarryIds(idField, FinalRows(schema, WriteRows(b.columnDefault, tableSchema, idField, table, written, 0), written, ids))
  {
    var table' := WriteRows(b.columnDefault, tableSchema, idField, table, written, 0);
    var final := FinalRows(schema, table', written, ids);
    if FieldsGenerated(schema, written[0]) {
      forall i | 0 <= i < |final| ensures idField in final[i] && final[i][idField] != Null {
        ReadBackOnlyListed(table', ids, {}, i);
        var j :| 0 <= j < |ids| && ids[j] in table' && final[i] == table'[ids[j]];
        assert SelfKeyed(table', idField, written[j][idField]);
      }
    }
  }

  // ---------------------------------------------------------------------------
  // What insert guarantees

  /** No two identities in `ids` are equal. */
  predicate Distinct(ids: seq<Value>) {
    forall i, j :: 0 <= i < j < |ids| ==> ids[i] != ids[j]
  }

  /** Writing one row to both stores makes its identity agree and keeps
      every other agreeing identity agreeing. */
  lemma AgreeAfterWrite(fill: string -> Value, schema: Schema, semField: string, idField: string,
                        t: map<Value, Row>, c: map<Value, VecEntry>, row: Row, k: Value)
    requires idField in row && semField in row
    requires k == row[idField] || Agrees(t, c, semField, k)
    ensures Agrees(t[row[idField] := Complete(fill, schema, row)],
                   c[row[idField] := VecEntry(row[semField], row - {semField})], semField, k)
  {
    if k == row[idField] {
      assert Reassemble(VecEntry(row[semField], row - {semField}), semField) == row;
    }
  }

  /** Writing the same rows, in the same order, to both stores leaves every
      written identity held by both, with the vector payload agreeing with the
      relational row (the last row written under an identity wins in both). */
  lemma {:induction false} WriteBothAgree(fill: string -> Value, schema: Schema, semField: string, idField: string,
                                          t: map<Value, Row>, c: map<Value, VecEntry>, rows: seq<Row>, from: nat)
    requires CarryIds(idField, rows) && !AnyMissing(semField, rows)
    requires forall j :: 0 <= j < from && j < |rows| ==> Agrees(t, c, semField, rows[j][idField])
    ensures forall j :: 0 <= j < |rows| ==>
              Agrees(WriteRows(fill, schema, idField, t, rows, from),
                     WriteEntries(c, VectorBatch(semField, idField, rows), from), semField, rows[j][idField])
    decreases |rows| - from
  {
    if from < |rows| {
      var row := rows[from];
      var b := VectorBatch(semField, idField, rows);
      var t1 := t[row[idField] := Complete(fill, schema, row)];
      var c1 := c[row[idField] := VecEntry(row[semField], row - {semField})];
      WriteEntriesStep(c, semField, idField, rows, from);
      AgreeAfterWriteAll(fill, schema, semField, idField, t, c, rows, from);
      WriteBothAgree(fill, schema, semField, idField, t1, c1, rows, from + 1);
    }
  }

  /** Writing the batch of `rows` from index `from` is writing entry `from`, then the rest. */
  lemma WriteEntriesStep(c: map<Value, VecEntry>, semField: string, idField: string, rows: seq<Row>, from: nat)
    requires from < |rows| && CarryIds(idField, rows) && !AnyMissing(semField, rows)
    ensures var row := rows[from];
            WriteEntries(c, VectorBatch(semField, idField, rows), from)
            == WriteEntries(c[row[idField] := VecEntry(row[semField], row - {semField})], VectorBatch(semField, idField, rows), from + 1)
  {
    var b := VectorBatch(semField, idField, rows);
    assert b.texts[from] == rows[from][semField] && b.metadatas[from] == rows[from] - {semField};
  }

  /** One step of `WriteBothAgree`: writing row `from` keeps the rows before it agreeing. */
  lemma AgreeAfterWriteAll(fill: string -> Value, schema: Schema, semField: string, idField: string,
                           t: map<Value, Row>, c: map<Value, VecEntry>, rows: seq<Row>, from: nat)
    requires from < |rows| && CarryIds(idField, rows) && !AnyMissing(semField, rows)
    requires forall j :: 0 <= j < from ==> Agrees(t, c, semField, rows[j][idField])
    ensures var row := rows[from];
            forall j :: 0 <= j < from + 1 ==>
              Agrees(t[row[idField] := Complete(fill, schema, row)],
                     c[row[idField] := VecEntry(row[semField], row - {semField})], semField, rows[j][idField])
  {
    var row := rows[from];
    forall j | 0 <= j < from + 1
      ensures Agrees(t[row[idField] := Complete(fill, schema, row)],
                     c[row[idField] := VecEntry(row[semField], row - {semField})], semField, rows[j][idField])
    {
      assert idField in row && semField in row;
      AgreeAfterWrite(fill, schema, semField, idField, t, c, row, rows[j][idField]);
    }
  }

  /** Writing rows read back from the relational store to the vector store
      leaves each of their identities agreeing between the two. */
  lemma {:induction false} WriteReadBackAgree(t: map<Value, Row>, c: map<Value, VecEntry>, semField: string, idField: string,
                                              rows: seq<Row>, from: nat)
    requires CarryIds(idField, rows) && !AnyMissing(semField, rows)
    requires forall i :: 0 <= i < |rows| ==> rows[i][idField] in t && t[rows[i][idField]] == rows[i]
    requires forall j :: 0 <= j < from && j < |rows| ==> Agrees(t, c, semField, rows[j][idField])
    ensures forall j :: 0 <= j < |rows| ==>
              Agrees(t, WriteEntries(c, VectorBatch(semField, idField, rows), from), semField, rows[j][idField])
    decreases |rows| - from
  {
    if from < |rows| {
      var k := rows[from][idField];
      var b := VectorBatch(semField, idField, rows);
      var c1 := c[k := VecEntry(b.texts[from], b.metadatas[from])];
      ReadBackAgreeStep(t, c, semField, idField, rows, from);
      WriteReadBackAgree(t, c1, semField, idField, rows, from + 1);
    }
  }

  /** One step of `WriteReadBackAgree`: writing entry `from` keeps the earlier rows agreeing. */
  lemma ReadBackAgreeStep(t: map<Value, Row>, c: map<Value, VecEntry>, semField: string, idField: string,
                          rows: seq<Row>, from: nat)
    requires from < |rows| && CarryIds(idField, rows) && !AnyMissing(semField, rows)
    requires forall i :: 0 <= i < |rows| ==> rows[i][idField] in t && t[rows[i][idField]] == rows[i]
    requires forall j :: 0 <= j < from ==> Agrees(t, c, semField, rows[j][idField])
    ensures var b := VectorBatch(semField, idField, rows);
            var c1 := c[rows[from][idField] := VecEntry(b.texts[from], b.metadatas[from])];
            forall j :: 0 <= j < from + 1 ==> Agrees(t, c1, semField, rows[j][idField])
  {
    var k := rows[from][idField];
    var b := VectorBatch(semField, idField, rows);
    var c1 := c[k := VecEntry(b.texts[from], b.metadatas[from])];
    assert Reassemble(c1[k], semField) == rows[from];
    forall j | 0 <= j < from + 1 ensures Agrees(t, c1, semField, rows[j][idField]) {
      if rows[j][idField] != k {
        assert Agrees(t, c, semField, rows[j][idField]);
      }
    }
  }

  /** The re-read rows are the relational rows stored under their own identities. */
  lemma ReadBackSelfKeyed(t: map<Value, Row>, idField: string, written: seq<Row>, ids: seq<Value>)
    requires |ids| == |written|
    requires forall j :: 0 <= j < |written| ==> idField in written[j] && written[j][idField] == ids[j]
    requires forall j :: 0 <= j < |written| ==> SelfKeyed(t, idField, written[j][idField])
    ensures var rows := ReadBack(t, ids, {});
            forall i :: 0 <= i < |rows| ==> idField in rows[i] && rows[i][idField] in t && t[rows[i][idField]] == rows[i]
  {
    var rows := ReadBack(t, ids, {});
    forall i | 0 <= i < |rows| ensures idField in rows[i] && rows[i][idField] in t && t[rows[i][idField]] == rows[i] {
      ReadBackOnlyListed(t, ids, {}, i);
      var j :| 0 <= j < |ids| && ids[j] in t && rows[i] == t[ids[j]];
      assert SelfKeyed(t, idField, written[j][idField]);
    }
  }

  /** When the batch comes from the re-read rows, every identity written to
      the relational store agrees between the two stores. */
  lemma ReadBackCaseAgrees(t: map<Value, Row>, c: map<Value, VecEntry>, semField: string, idField: string,
                           written: seq<Row>, ids: seq<Value>)
    requires |ids| == |written|
    requires forall j :: 0 <= j < |written| ==> idField in written[j] && written[j][idField] == ids[j]
    requires forall j :: 0 <= j < |written| ==> SelfKeyed(t, idField, written[j][idField])
    requires CarryIds(idField, ReadBack(t, ids, {})) && !AnyMissing(semField, ReadBack(t, ids, {}))
    ensures forall j :: 0 <= j < |ids| ==>
              Agrees(t, WriteEntries(c, VectorBatch(semField, idField, ReadBack(t, ids, {})), 0), semField, ids[j])
  {
    var rows := ReadBack(t, ids, {});
    ReadBackSelfKeyed(t, idField, written, ids);
    WriteReadBackAgree(t, c, semField, idField, rows, 0);
    forall j | 0 <= j < |ids|
      ensures Agrees(t, WriteEntries(c, VectorBatch(semField, idField, rows), 0), semField, ids[j])
    {
      assert SelfKeyed(t, idField, written[j][idField]);
      ReadBackCoversListed(t, ids, {}, j);
      var i :| 0 <= i < |rows| && rows[i] == t[ids[j]];
      assert rows[i][idField] == ids[j];
    }
  }

  /** The successful path of the store part: the vector write of the final rows. */
  lemma StoreSpecOk(b: Backends, schema: Schema, semField: string, idField: string,
                    tableSchema: Schema, table: map<Value, Row>, collection: map<Value, VecEntry>,
                    issued: nat, written: seq<Row>, ids: seq<Value>)
    requires WellAssigned(idField, written, ids) && |written| > 0
    requires !AnyMissing(semField, FinalRows(schema, WriteRows(b.columnDefault, tableSchema, idField, table, written, 0), written, ids))
    ensures CarryIds(idField, FinalRows(schema, WriteRows(b.columnDefault, tableSchema, idField, table, written, 0), written, ids))
    ensures var table' := WriteRows(b.columnDefault, tableSchema, idField, table, written, 0);
            StoreSpec(b, schema, semField, idField, tableSchema, table, collection, issued, written, ids)
            == InsertOutcome(written, Ok(ids), issued, table',
                             WriteEntries(collection, VectorBatch(semField, idField, FinalRows(schema, table', written, ids)), 0))
  {
    FinalRowsCarryIds(b, schema, idField, tableSchema, table, written, ids);
  }

  /** A successful store part leaves every returned identity agreeing between the two stores. */
  lemma StoreKeepsStoresConsistent(b: Backends, schema: Schema, semField: string, idField: string,
                                   tableSchema: Schema, table: map<Value, Row>, collection: map<Value, VecEntry>,
                                   issued: nat, written: seq<Row>, ids: seq<Value>)
    requires WellAssigned(idField, written, ids)
    requires StoreSpec(b, schema, semField, idField, tableSchema, table, collection, issued, written, ids).result.Ok?
    ensures var out := StoreSpec(b, schema, semField, idField, tableSchema, table, collection, issued, written, ids);
            out.result == Ok(ids) && forall i :: 0 <= i < |ids| ==> Agrees(out.table, out.collection, semField, ids[i])
  {
    var table' := WriteRows(b.columnDefault, tableSchema, idField, table, written, 0);
    assert |written| > 0;
    assert !AnyMissing(semField, FinalRows(schema, table', written, ids));
    StoreSpecOk(b, schema, semField, idField, tableSchema, table, collection, issued, written, ids);
    if FieldsGenerated(schema, written[0]) {
      ReadBackCaseAgrees(table', collection, semField, idField, written, ids);
    } else {
      WriteBothAgree(b.columnDefault, tableSchema, semField, idField, table, collection, written, 0);
    }
  }

  /** A successful `insert` leaves every returned identity in both stores,
      with the vector store's text and metadata agreeing with the relational
      row stored under that identity. */
  lemma InsertKeepsStoresConsistent(b: Backends, schema: Schema, semField: string, idField: string,
                                    tableSchema: Schema, table: map<Value, Row>, collection: map<Value, VecEntry>,
                                    issued: nat, data: seq<Row>, checkValidity: bool)
    requires InsertSpec(b, schema, semField, idField, tableSchema, table, collection, issued, data, checkValidity).result.Ok?
    ensures var out := InsertSpec(b, schema, semField, idField, tableSchema, table, collection, issued, data, checkValidity);
            forall i :: 0 <= i < |out.result.value| ==> Agrees(out.table, out.collection, semField, out.result.value[i])
  {
    InsertSpecUnfold(b, schema, semField, idField, tableSchema, table, collection, issued, data, checkValidity);
    StoreKeepsStoresConsistent(b, schema, semField, idField, tableSchema, table, collection,
                               if AnyLacksId(idField, data) then issued + |data| else issued,
                               AssignedRows(b, idField, issued, data), AssignedIds(b, idField, issued, data));
  }

  /** What the store part of `insert` does, case by case. */
  lemma StoreSpecFacts(b: Backends, schema: Schema, semField: string, idField: string,
                       tableSchema: Schema, table: map<Value, Row>, collection: map<Value, VecEntry>,
                       issued: nat, written: seq<Row>, ids: seq<Value>)
    requires WellAssigned(idField, written, ids)
    ensures var out := StoreSpec(b, schema, semField, idField, tableSchema, table, collection, issued, written, ids);
            out.written == written && out.issued == issued
    ensures StoreSpec(b, schema, semField, idField, tableSchema, table, collection, issued, written, ids).table
            == WriteRows(b.columnDefault, tableSchema, idField, table, written, 0)
    ensures var out := StoreSpec(b, schema, semField, idField, tableSchema, table, collection, issued, written, ids);
            out.result.Ok? ==> out.result.value == ids && |written| > 0
                               && !AnyMissing(semField, FinalRows(schema, out.table, written, ids))
    ensures var out := StoreSpec(b, schema, semField, idField, tableSchema, table, collection, issued, written, ids);
            out.result.Err? ==> out.collection == collection && (out.result.error == IndexError || out.result.error == KeyError)
    ensures var out := StoreSpec(b, schema, semField, idField, tableSchema, table, collection, issued, written, ids);
            out.result == Err(IndexError) <==> |written| == 0
  {
    var table' := WriteRows(b.columnDefault, tableSchema, idField, table, written, 0);
    if |written| > 0 {
      var final := FinalRows(schema, table', written, ids);
      if !AnyMissing(semField, final) {
        StoreSpecOk(b, schema, semField, idField, tableSchema, table, collection, issued, written, ids);
      }
    }
  }

  /** When the validity check passes, `insert` is its store part applied to the assigned rows. */
  lemma InsertSpecUnfold(b: Backends, schema: Schema, semField: string, idField: string,
                         tableSchema: Schema, table: map<Value, Row>, collection: map<Value, VecEntry>,
                         issued: nat, data: seq<Row>, checkValidity: bool)
    requires !(checkValidity && AnyInvalid(schema, data))
    ensures WellAssigned(idField, AssignedRows(b, idField, issued, data), AssignedIds(b, idField, issued, data))
    ensures InsertSpec(b, schema, semField, idField, tableSchema, table, collection, issued, data, checkValidity)
            == StoreSpec(b, schema, semField, idField, tableSchema, table, collection,
                         if AnyLacksId(idField, data) then issued + |data| else issued,
                         AssignedRows(b, idField, issued, data), AssignedIds(b, idField, issued, data))
  {
    AssignedRowsCarryIds(b, idField, issued, data);
  }
  /** The identity rule of `insert`: if any row lacks a usable identity every
      row gets a fresh one (overwriting the ones it had), otherwise every row
      keeps its own; either way the returned list holds the rows' identities
      in input order. */
  lemma InsertIdentityRule(b: Backends, schema: Schema, semField: string, idField: string,
                           tableSchema: Schema, table: map<Value, Row>, collection: map<Value, VecEntry>,
                           issued: nat, data: seq<Row>, checkValidity: bool)
    requires !(checkValidity && AnyInvalid(schema, data))
    ensures var out := InsertSpec(b, schema, semField, idField, tableSchema, table, collection, issued, data, checkValidity);
            |out.written| == |data| && CarryIds(idField, out.written)
    ensures var out := InsertSpec(b, schema, semField, idField, tableSchema, table, collection, issued, data, checkValidity);
            out.result.Ok? ==> WellAssigned(idField, out.written, out.result.value)
    ensures var out := InsertSpec(b, schema, semField, idField, tableSchema, table, collection, issued, data, checkValidity);
            AnyLacksId(idField, data) ==>
              && out.issued == issued + |data|
              && (forall i :: 0 <= i < |data| ==> out.written[i] == data[i][idField := Str(b.newId(issued + i))])
    ensures var out := InsertSpec(b, schema, semField, idField, tableSchema, table, collection, issued, data, checkValidity);
            !AnyLacksId(idField, data) ==> out.issued == issued && out.written == data
  {
    InsertSpecUnfold(b, schema, semField, idField, tableSchema, table, collection, issued, data, checkValidity);
    StoreSpecFacts(b, schema, semField, idField, tableSchema, table, collection,
                   if AnyLacksId(idField, data) then issued + |data| else issued,
                   AssignedRows(b, idField, issued, data), AssignedIds(b, idField, issued, data));
    if AnyLacksId(idField, data) {
      FreshRowsAssigned(b, idField, issued, data);
    }
  }

  /** With a row lacking an identity, row `i` gets the `i`-th fresh identity. */
  lemma FreshRowsAssigned(b: Backends, idField: string, start: nat, data: seq<Row>)
    requires AnyLacksId(idField, data)
    ensures forall i :: 0 <= i < |data| ==>
              AssignedRows(b, idField, start, data)[i] == data[i][idField := Str(b.newId(start + i))]
  {
  }

  /** Fresh identities drawn for one call are pairwise distinct. */
  lemma FreshIdsDistinct(b: Backends, idField: string, start: nat, data: seq<Row>)
    requires DistinctIds(b) && AnyLacksId(idField, data)
    ensures Distinct(AssignedIds(b, idField, start, data))
  {
    var ids := AssignedIds(b, idField, start, data);
    forall i, j | 0 <= i < j < |ids| ensures ids[i] != ids[j] {
      assert b.newId(start + i) != b.newId(start + j);
    }
  }

  /** The failures of `insert`: the validity check fails before anything
      happens; an empty `data` fails on `data[0]` after the (empty) relational
      write; a row of the vector batch without the semantic field fails after
      the relational write.
      No failure reaches the vector store. */
  lemma InsertFailures(b: Backends, schema: Schema, semField: string, idField: string,
                       tableSchema: Schema, table: map<Value, Row>, collection: map<Value, VecEntry>,
                       issued: nat, data: seq<Row>, checkValidity: bool)
    ensures var out := InsertSpec(b, schema, semField, idField, tableSchema, table, collection, issued, data, checkValidity);
            out.result == Err(ValueError(INVALID_DATA)) <==> checkValidity && AnyInvalid(schema, data)
    ensures var out := InsertSpec(b, schema, semField, idField, tableSchema, table, collection, issued, data, checkValidity);
            checkValidity && AnyInvalid(schema, data) ==> out.written == data && out.issued == issued && out.table == table
    ensures var out := InsertSpec(b, schema, semField, idField, tableSchema, table, collection, issued, data, checkValidity);
            out.result == Err(IndexError) <==> !(checkValidity && AnyInvalid(schema, data)) && |data| == 0
    ensures var out := InsertSpec(b, schema, semField, idField, tableSchema, table, collection, issued, data, checkValidity);
            |data| == 0 ==> out.table == table && out.issued == issued
    ensures var out := InsertSpec(b, schema, semField, idField, tableSchema, table, collection, issued, data, checkValidity);
            out.result.Err? ==> out.collection == collection
  {
    if !(checkValidity && AnyInvalid(schema, data)) {
      InsertSpecUnfold(b, schema, semField, idField, tableSchema, table, collection, issued, data, checkValidity);
      StoreSpecFacts(b, schema, semField, idField, tableSchema, table, collection,
                     if AnyLacksId(idField, data) then issued + |data| else issued,
                     AssignedRows(b, idField, issued, data), AssignedIds(b, idField, issued, data));
    }
  }

  /** With pairwise distinct identities, each written row ends up in the
      relational store under its identity, completed with the defaults. */
  lemma {:induction false} WriteRowsDistinct(fill: string -> Value, schema: Schema, idField: string,
                                             t: map<Value, Row>, rows: seq<Row>, from: nat)
    requires forall j :: 0 <= j < |rows| ==> idField in rows[j]
    requires forall i, j :: from <= i < j < |rows| ==> rows[i][idField] != rows[j][idField]
    ensures forall j :: from <= j < |rows| ==>
              WriteRows(fill, schema, idField, t, rows, from)[rows[j][idField]] == Complete(fill, schema, rows[j])
    decreases |rows| - from
  {
    if from < |rows| {
      var k := rows[from][idField];
      var t1 := t[k := Complete(fill, schema, rows[from])];
      WriteRowsDistinct(fill, schema, idField, t1, rows, from + 1);
      assert k !in IdsFrom(idField, rows, from + 1);
    }
  }

  /** Reading an identity back after a successful insert with distinct
      identities gives the row as inserted, completed with the store's
      defaults: every supplied column keeps its value. */
  lemma InsertThenGet(b: Backends, schema: Schema, semField: string, idField: string,
                      tableSchema: Schema, table: map<Value, Row>, collection: map<Value, VecEntry>,
                      issued: nat, data: seq<Row>, checkValidity: bool)
    requires var out := InsertSpec(b, schema, semField, idField, tableSchema, table, collection, issued, data, checkValidity);
             out.result.Ok? && Distinct(out.result.value)
    ensures var out := InsertSpec(b, schema, semField, idField, tableSchema, table, collection, issued, data, checkValidity);
            forall i :: 0 <= i < |out.result.value| ==>
              && i < |out.written|
              && out.result.value[i] in out.table
              && out.table[out.result.value[i]] == Complete(b.columnDefault, tableSchema, out.written[i])
              && Lookup(out.table, out.result.value[i]) == [Complete(b.columnDefault, tableSchema, out.written[i])]
  {
    InsertSpecUnfold(b, schema, semField, idField, tableSchema, table, collection, issued, data, checkValidity);
    var written := AssignedRows(b, idField, issued, data);
    var ids := AssignedIds(b, idField, issued, data);
    StoreSpecFacts(b, schema, semField, idField, tableSchema, table, collection,
                   if AnyLacksId(idField, data) then issued + |data| else issued, written, ids);
    WriteRowsDistinct(b.columnDefault, tableSchema, idField, table, written, 0);
  }

  /** The identities a batch writes are those of its rows. */
  lemma BatchIdsOfRows(semField: string, idField: string, rows: seq<Row>, k: Value)
    requires forall i :: 0 <= i < |rows| ==> semField in rows[i] && idField in rows[i]
    ensures k in IdsFrom(idField, rows, 0) <==> k in VectorBatch(semField, idField, rows).textIds
  {
    var ids := VectorBatch(semField, idField, rows).textIds;
    if k in ids {
      var i :| 0 <= i < |ids| && ids[i] == k;
      assert rows[i][idField] == k;
    }
    if k in IdsFrom(idField, rows, 0) {
      var i :| 0 <= i < |rows| && rows[i][idField] == k;
      assert ids[i] == k;
    }
  }

  /** The identities written to the relational store are the returned ones. */
  lemma WrittenIdsAreIds(idField: string, written: seq<Row>, ids: seq<Value>, k: Value)
    requires WellAssigned(idField, written, ids)
    ensures k in IdsFrom(idField, written, 0) <==> k in ids
  {
    if k in ids {
      var j :| 0 <= j < |ids| && ids[j] == k;
      assert written[j][idField] == k;
    }
  }

  /** When the batch comes from re-read rows, it writes exactly the returned identities. */
  lemma ReadBackIds(t: map<Value, Row>, semField: string, idField: string, written: seq<Row>, ids: seq<Value>, k: Value)
    requires WellAssigned(idField, written, ids)
    requires forall j :: 0 <= j < |written| ==> SelfKeyed(t, idField, written[j][idField])
    requires forall i :: 0 <= i < |ReadBack(t, ids, {})| ==> semField in ReadBack(t, ids, {})[i] && idField in ReadBack(t, ids, {})[i]
    ensures k in VectorBatch(semField, idField, ReadBack(t, ids, {})).textIds <==> k in ids
  {
    var rows := ReadBack(t, ids, {});
    ReadBackSelfKeyed(t, idField, written, ids);
    BatchIdsOfRows(semField, idField, rows, k);
    if k in ids {
      var j :| 0 <= j < |ids| && ids[j] == k;
      assert SelfKeyed(t, idField, written[j][idField]);
      ReadBackCoversListed(t, ids, {}, j);
      var i :| 0 <= i < |rows| && rows[i] == t[ids[j]];
      assert rows[i][idField] == k;
    }
    if k in IdsFrom(idField, rows, 0) {
      var i :| 0 <= i < |rows| && rows[i][idField] == k;
      ReadBackOnlyListed(t, ids, {}, i);
      var j :| 0 <= j < |ids| && ids[j] in t && rows[i] == t[ids[j]];
      assert SelfKeyed(t, idField, written[j][idField]);
    }
  }

  /** A successful insert changes the stores only under the identities it returns. */
  lemma InsertTouchesOnlyItsIds(b: Backends, schema: Schema, semField: string, idField: string,
                                tableSchema: Schema, table: map<Value, Row>, collection: map<Value, VecEntry>,
                                issued: nat, data: seq<Row>, checkValidity: bool)
    requires InsertSpec(b, schema, semField, idField, tableSchema, table, collection, issued, data, checkValidity).result.Ok?
    ensures var out := InsertSpec(b, schema, semField, idField, tableSchema, table, collection, issued, data, checkValidity);
            forall k :: k in out.table <==> k in table || k in out.result.value
    ensures var out := InsertSpec(b, schema, semField, idField, tableSchema, table, collection, issued, data, checkValidity);
            forall k :: k in out.collection <==> k in collection || k in out.result.value
    ensures var out := InsertSpec(b, schema, semField, idField, tableSchema, table, collection, issued, data, checkValidity);
            forall k :: k in table && k !in out.result.value ==> out.table[k] == table[k]
    ensures var out := InsertSpec(b, schema, semField, idField, tableSchema, table, collection, issued, data, checkValidity);
            forall k :: k in collection && k !in out.result.value ==> out.collection[k] == collection[k]
  {
    InsertSpecUnfold(b, schema, semField, idField, tableSchema, table, collection, issued, data, checkValidity);
    var written := AssignedRows(b, idField, issued, data);
    var ids := AssignedIds(b, idField, issued, data);
    StoreSpecFacts(b, schema, semField, idField, tableSchema, table, collection,
                   if AnyLacksId(idField, data) then issued + |data| else issued, written, ids);
    var table' := WriteRows(b.columnDefault, tableSchema, idField, table, written, 0);
    FinalRowsCarryIds(b, schema, idField, tableSchema, table, written, ids);
    var final := FinalRows(schema, table', written, ids);
    var batch := VectorBatch(semField, idField, final);
    forall k ensures k in IdsFrom(idField, written, 0) <==> k in ids {
      WrittenIdsAreIds(idField, written, ids, k);
    }
    forall k ensures k in batch.textIds <==> k in ids {
      if FieldsGenerated(schema, written[0]) {
        ReadBackIds(table', semField, idField, written, ids, k);
      } else {
        BatchIdsOfRows(semField, idField, written, k);
        WrittenIdsAreIds(idField, written, ids, k);
      }
    }
  }

  /** The re-read (when it happens) finds every row just written, so the
      batch is never empty and `text_ids` is never replaced by `None`. */
  lemma FinalRowsNonEmpty(b: Backends, schema: Schema, idField: string, tableSchema: Schema,
                          table: map<Value, Row>, written: seq<Row>, ids: seq<Value>)
    requires WellAssigned(idField, written, ids) && |written| > 0
    ensures |FinalRows(schema, WriteRows(b.columnDefault, tableSchema, idField, table, written, 0), written, ids)| > 0
  {
    var table' := WriteRows(b.columnDefault, tableSchema, idField, table, written, 0);
    if FieldsGenerated(schema, written[0]) {
      assert SelfKeyed(table', idField, written[0][idField]);
      ReadBackCoversListed(table', ids, {}, 0);
    }
  }

  // ---------------------------------------------------------------------------
  // The re-read query as the code builds it

  /** Unless the returned identities are a single string holding a comma, the
      code's re-read is the intended one, so everything proved about `insert`
      holds of the code as written. */
  lemma AsWrittenIsIntended(schema: Schema, table: map<Value, Row>, written: seq<Row>, ids: seq<Value>)
    requires |written| > 0
    ensures !LoneCommaId(ids) <==> QueriedIds(ids) == ids
    ensures !LoneCommaId(ids) ==> FinalRowsAsWritten(schema, table, written, ids) == FinalRows(schema, table, written, ids)
  {
  }

  /** The code as written loses a lone comma-holding identity: inserting the
      one row `{"id": "a,b", "text": "x"}` into a table that also declares
      `note` re-reads identity `ab`, finds nothing, and so builds an empty
      vector batch, although the row is stored under `a,b` and the intended
      re-read finds it. */
  lemma LoneCommaIdLost(fill: string -> Value)
    ensures var schema := map["id" := "TEXT", "text" := "TEXT", "note" := "TEXT"];
            var written := [map["id" := Str("a,b"), "text" := Str("x")]];
            var t := WriteRows(fill, schema, "id", map[], written, 0);
            && Str("a,b") in t
            && FinalRows(schema, t, written, [Str("a,b")]) == [t[Str("a,b")]]
            && FinalRowsAsWritten(schema, t, written, [Str("a,b")]) == []
  {
    var schema := map["id" := "TEXT", "text" := "TEXT", "note" := "TEXT"];
    var row := map["id" := Str("a,b"), "text" := Str("x")];
    var written := [row];
    WriteOneRow(fill, schema, "id", row);
    var t := WriteRows(fill, schema, "id", map[], written, 0);
    assert FieldsGenerated(schema, row) by {
      assert "note" in schema.Keys && "note" !in row.Keys;
    }
    RemoveCommaOfAB();
    var q := QueriedIds([Str("a,b")]);
    assert q == [Str("ab")];
    assert ReadBack(t, q, {}) == ReadBack(t, q[1..], {});
    assert ReadBack(t, [Str("a,b")], {}) == [t[Str("a,b")]] + ReadBack(t, [], {Str("a,b")});
  }

  /** Writing one row to an empty table stores it, completed, under its identity alone. */
  lemma WriteOneRow(fill: string -> Value, schema: Schema, idField: string, row: Row)
    requires idField in row
    ensures WriteRows(fill, schema, idField, map[], [row], 0) == map[row[idField] := Complete(fill, schema, row)]
  {
    var t1 := map[row[idField] := Complete(fill, schema, row)];
    assert WriteRows(fill, schema, idField, map[], [row], 0) == WriteRows(fill, schema, idField, t1, [row], 1);
  }

  /** The printed one-element tuple of `a,b` names `ab`. */
  lemma RemoveCommaOfAB()
    ensures Text.Remove("a,b", ',') == "ab"
  {
    assert "a,b"[1..] == ",b" && ",b"[1..] == "b" && "b"[1..] == "";
    assert Text.Remove("b", ',') == "b";
    assert Text.Remove(",b", ',') == "b";
  }

  /** "SELECT * FROM table WHERE id = ?": the row stored under `id`, if any. */
  function Lookup(t: map<Value, Row>, id: Value): (r: seq<Row>)
    ensures |r| <= 1
    ensures |r| == 1 <==> id in t
    ensures forall row :: row in r ==> id in t && row == t[id]
  {
    if id in t then [t[id]] else []
  }

  /** While every row of the table is stored under the value of its own
      identity column, the keyed lookup is the column query
      `WHERE <identity field> = id`: it returns exactly the rows whose
      identity column holds `id`. */
  lemma LookupIsColumnQuery(t: map<Value, Row>, idField: string, id: Value, row: Row)
    requires forall k :: k in t ==> SelfKeyed(t, idField, k)
    ensures row in Lookup(t, id) <==> exists k :: k in t && t[k] == row && idField in row && row[idField] == id
  {
    if exists k :: k in t && t[k] == row && idField in row && row[idField] == id {
      var k :| k in t && t[k] == row && idField in row && row[idField] == id;
      assert SelfKeyed(t, idField, k);
    } else if id in t {
      assert SelfKeyed(t, idField, id);
    }
  }

  /** The rows `chunk_text_for_insert` builds: per chunk, a copy of the
      metadata with the semantic field set to the chunk. */
  function ChunkedRows(semField: string, metadata: Row, chunks: seq<string>): (rows: seq<Row>)
    ensures |rows| == |chunks|
    ensures forall i :: 0 <= i < |chunks| ==>
              && rows[i].Keys == metadata.Keys + {semField}
              && rows[i][semField] == Str(chunks[i])
              && rows[i] - {semField} == metadata - {semField}
  {
    seq(|chunks|, i requires 0 <= i < |chunks| => metadata[semField := Str(chunks[i])])
  }

  // ---------------------------------------------------------------------------
  // The loops of insert and hybrid_query

  /** The `check_validity` pass: every row's keys are declared by the schema. */
  method CheckValidity(schema: Schema, data: seq<Row>) returns (ok: bool)
    ensures ok <==> !AnyInvalid(schema, data)
  {
    for i := 0 to |data|
      invariant forall j :: 0 <= j < i ==> !HasUnknownKey(schema, data[j])
    {
      if HasUnknownKey(schema, data[i]) {
        return false;
      }
    }
    return true;
  }

  /** Identity assignment: either every row gets the next fresh identity, or
      every row keeps its own; `drawn` is the number of fresh ones used. */
  method AssignIds(b: Backends, idField: string, start: nat, data: seq<Row>)
    returns (written: seq<Row>, ids: seq<Value>, drawn: nat)
    ensures written == AssignedRows(b, idField, start, data)
    ensures ids == AssignedIds(b, idField, start, data)
    ensures drawn == if AnyLacksId(idField, data) then |data| else 0
  {
    written, ids, drawn := [], [], 0;
    if AnyLacksId(idField, data) {
      for i := 0 to |data|
        invariant |written| == |ids| == drawn == i
        invariant forall j :: 0 <= j < i ==> written[j] == data[j][idField := Str(b.newId(start + j))]
        invariant forall j :: 0 <= j < i ==> ids[j] == Str(b.newId(start + j))
      {
        var uid := Str(b.newId(start + i));
        written := written + [data[i][idField := uid]];
        ids := ids + [uid];
        drawn := drawn + 1;
      }
    } else {
      written := data;
      for i := 0 to |data|
        invariant |ids| == i
        invariant forall j :: 0 <= j < i ==> ids[j] == data[j][idField]
      {
        ids := ids + [data[i][idField]];
      }
    }
  }

  /** Building the parallel lists for the vector store; a row without the
      semantic field stops the loop with a `KeyError`. */
  method BuildVectorBatch(semField: string, idField: string, rows: seq<Row>) returns (r: Result<Batch>)
    requires forall i :: 0 <= i < |rows| ==> idField in rows[i]
    ensures r.Err? <==> AnyMissing(semField, rows)
    ensures r.Err? ==> r.error == KeyError
    ensures r.Ok? ==> r.value == VectorBatch(semField, idField, rows)
    ensures r.Ok? ==> |r.value.texts| == |r.value.metadatas| == |r.value.textIds| == |rows|
  {
    var texts: seq<Value> := [];
    var metadatas: seq<Row> := [];
    var textIds: seq<Value> := [];
    for i := 0 to |rows|
      invariant |texts| == |metadatas| == |textIds| == i
      invariant forall j :: 0 <= j < i ==> semField in rows[j]
      invariant forall j :: 0 <= j < i ==> texts[j] == rows[j][semField]
      invariant forall j :: 0 <= j < i ==> metadatas[j] == rows[j] - {semField}
      invariant forall j :: 0 <= j < i ==> textIds[j] == rows[j][idField]
    {
      var d := rows[i];
      if semField !in d {
        return Err(KeyError);
      }
      texts := texts + [d[semField]];
      metadatas := metadatas + [d - {semField}];
      textIds := textIds + [d[idField]];
    }
    r := Ok(Batch(texts, metadatas, textIds));
  }

  /** The store part of `insert` on the stores' contents: write the rows,
      stop with an `IndexError` when there were none, pick the rows the
      vector batch is built from, stop with a `KeyError` when one lacks the
      semantic field, and otherwise write the batch. */
  method StoreRows(b: Backends, schema: Schema, semField: string, idField: string,
                   tableSchema: Schema, table: map<Value, Row>, collection: map<Value, VecEntry>,
                   issued: nat, written: seq<Row>, ids: seq<Value>)
    returns (r: Result<seq<Value>>, table': map<Value, Row>, collection': map<Value, VecEntry>)
    requires WellAssigned(idField, written, ids)
    ensures StoreSpec(b, schema, semField, idField, tableSchema, table, collection, issued, written, ids)
            == InsertOutcome(written, r, issued, table', collection')
  {
    table' := WriteRows(b.columnDefault, tableSchema, idField, table, written, 0);
    collection' := collection;
    if |written| == 0 {
      return Err(IndexError), table', collection';
    }
    var final := FinalRows(schema, table', written, ids);
    FinalRowsCarryIds(b, schema, idField, tableSchema, table, written, ids);
    var batch := BuildVectorBatch(semField, idField, final);
    if batch.Err? {
      return Err(KeyError), table', collection';
    }
    collection' := WriteEntries(collection, batch.value, 0);
    r := Ok(ids);
  }

  /** `insert` on the stores' contents: the validity check, identity
      assignment (counting the fresh identities drawn), then the store part. */
  method InsertRows(b: Backends, schema: Schema, semField: string, idField: string,
                    tableSchema: Schema, table: map<Value, Row>, collection: map<Value, VecEntry>,
                    issued: nat, data: seq<Row>, checkValidity: bool)
    returns (written: seq<Row>, r: Result<seq<Value>>, issued': nat, table': map<Value, Row>, collection': map<Value, VecEntry>)
    ensures InsertSpec(b, schema, semField, idField, tableSchema, table, collection, issued, data, checkValidity)
            == InsertOutcome(written, r, issued', table', collection')
  {
    if checkValidity {
      var ok := CheckValidity(schema, data);
      if !ok {
        return data, Err(ValueError(INVALID_DATA)), issued, table, collection;
      }
    }
    InsertSpecUnfold(b, schema, semField, idField, tableSchema, table, collection, issued, data, checkValidity);
    var ids, drawn;
    written, ids, drawn := AssignIds(b, idField, issued, data);
    issued' := issued + drawn;
    r, table', collection' := StoreRows(b, schema, semField, idField, tableSchema, table, collection, issued', written, ids);
  }

  /** The first component of every tuple, in order. */
  function FirstColumn(tuples: seq<seq<Value>>): (r: seq<Value>)
    requires forall i :: 0 <= i < |tuples| ==> |tuples[i]| > 0
    ensures |r| == |tuples|
    ensures forall i :: 0 <= i < |tuples| ==> r[i] == tuples[i][0]
  {
    seq(|tuples|, i requires 0 <= i < |tuples| => tuples[i][0])
  }

  /** Some tuple is empty, so taking its first component fails. */
  predicate AnyEmpty(tuples: seq<seq<Value>>) {
    exists i :: 0 <= i < |tuples| && |tuples[i]| == 0
  }

  /** The `ids_list` loop of `hybrid_query`. */
  method CollectIds(tuples: seq<seq<Value>>) returns (r: Result<seq<Value>>)
    ensures r.Err? <==> AnyEmpty(tuples)
    ensures r.Err? ==> r.error == IndexError
    ensures r.Ok? ==> |r.value| == |tuples| && forall i :: 0 <= i < |tuples| ==> r.value[i] == tuples[i][0]
  {
    var ids: seq<Value> := [];
    for i := 0 to |tuples|
      invariant |ids| == i
      invariant forall j :: 0 <= j < i ==> |tuples[j]| > 0 && ids[j] == tuples[j][0]
    {
      if |tuples[i]| == 0 {
        return Err(IndexError);
      }
      ids := ids + [tuples[i][0]];
    }
    r := Ok(ids);
  }

  // ---------------------------------------------------------------------------
  // The object

  /** The binding is all set or all unset; when set, the table and the
      active collection share its name and exist, and both fields are
      declared by the schema. */
  ghost predicate BindingOk(tableName: Option<string>, semField: Option<string>, idField: Option<string>,
                            schema: Option<Schema>, active: Option<string>, tableNames: set<string>, collectionNames: set<string>)
  {
    && (tableName.None? ==> semField.None? && idField.None? && schema.None? && active.None?)
    && (tableName.Some? ==>
          && semField.Some? && idField.Some? && schema.Some? && active == tableName
          && tableName.value in tableNames && tableName.value in collectionNames
          && semField.value in schema.value && idField.value in schema.value)
  }

  /** `semantic_sql_db`: the binding (table, semantic field, identity field,
      schema) and the two stores it keeps in step. */
  class SemanticSqlDb {
    const backends: Backends
    /** The relational store's tables, by name. */
    var tables: map<string, Table>
    /** The vector store's collections, by name. */
    var collections: map<string, map<Value, VecEntry>>
    /** The vector store's active collection. */
    var activeCollection: Option<string>
    var tableName: Option<string>
    var semanticSearchField: Option<string>
    var uniqueIdField: Option<string>
    var tableSqlSchema: Option<Schema>
    /** How many fresh identities this object has drawn. */
    var idsIssued: nat

    /** Every part of the binding is set. */
    predicate Bound()
      reads this
    {
      tableName.Some? && semanticSearchField.Some? && uniqueIdField.Some? && tableSqlSchema.Some? && activeCollection.Some?
    }

    /** The binding is all set or all unset; when set, the table and the
        active collection share its name and exist, and both fields are
        declared by the schema. */
    ghost predicate Valid()
      reads this
    {
      DistinctIds(backends)
      && BindingOk(tableName, semanticSearchField, uniqueIdField, tableSqlSchema, activeCollection, tables.Keys, collections.Keys)
    }

    /** `__init__`: connected to the two stores, nothing bound yet. */
    constructor (b: Backends, tables0: map<string, Table>, collections0: map<string, map<Value, VecEntry>>)
      requires DistinctIds(b)
      ensures Valid() && !Bound()
      ensures backends == b && tables == tables0 && collections == collections0 && idsIssued == 0
      ensures tableName.None? && activeCollection.None?
    {
      backends := b;
      tables := tables0;
      collections := collections0;
      activeCollection := None;
      tableName := None;
      semanticSearchField := None;
      uniqueIdField := None;
      tableSqlSchema := None;
      idsIssued := 0;
    }

    /** `set_table`: both fields are checked against the schema before
        anything changes; then the table is created if missing, the
        collection is made active and the binding is set. */
    method SetTable(name: string, semField: string, idField: string, schema: Option<Schema>) returns (r: Result<()>)
      requires Valid()
      modifies this
      ensures Valid()
      ensures schema.None? ==> r == Err(TypeError)
      ensures schema.Some? && semField !in schema.value ==> r == Err(ValueError(SEMANTIC_FIELD_MISSING))
      ensures schema.Some? && semField in schema.value && idField !in schema.value ==> r == Err(ValueError(ID_FIELD_MISSING))
      ensures r.Err? ==> unchanged(this)
      ensures r.Ok? <==> schema.Some? && semField in schema.value && idField in schema.value
      ensures r.Ok? ==>
                && Bound()
                && tables == CreateTable(old(tables), name, schema.value)
                && collections == SetCollection(old(collections), name)
                && activeCollection == Some(name)
                && tableName == Some(name)
                && semanticSearchField == Some(semField)
                && uniqueIdField == Some(idField)
                && tableSqlSchema == schema
                && idsIssued == old(idsIssued)
    {
      if schema.None? {
        return Err(TypeError);
      }
      if semField !in schema.value {
        return Err(ValueError(SEMANTIC_FIELD_MISSING));
      }
      if idField !in schema.value {
        return Err(ValueError(ID_FIELD_MISSING));
      }
      Bind(name, semField, idField, schema.value);
      r := Ok(());
    }

    /** The binding step of `set_table` once the schema is accepted: create
        the table if missing, set and activate the collection, store the names. */
    method Bind(name: string, semField: string, idField: string, schema: Schema)
      requires Valid() && semField in schema && idField in schema
      modifies this
      ensures Valid() && Bound()
      ensures tables == CreateTable(old(tables), name, schema)
      ensures collections == SetCollection(old(collections), name)
      ensures activeCollection == Some(name) && tableName == Some(name)
      ensures semanticSearchField == Some(semField) && uniqueIdField == Some(idField)
      ensures tableSqlSchema == Some(schema) && idsIssued == old(idsIssued)
    {
      tables := CreateTable(tables, name, schema);
      collections := SetCollection(collections, name);
      activeCollection := Some(name);
      tableName := Some(name);
      tableSqlSchema := Some(schema);
      semanticSearchField := Some(semField);
      uniqueIdField := Some(idField);
    }

    /** `chunk_text_for_insert`: one row per chunk, in chunk order, each a
        copy of `metadata` with the semantic field set to the chunk. With no
        metadata the first chunk fails (`None` is not a dict). */
    method ChunkTextForInsert(text: string, metadata: Option<Row>, maxSentences: int) returns (r: Result<seq<Row>>)
      requires semanticSearchField.Some?
      ensures var chunks := backends.splitText(text, maxSentences);
              r.Err? <==> metadata.None? && |chunks| > 0
      ensures r.Err? ==> r.error == TypeError
      ensures r.Ok? ==> r.value == ChunkedRows(semanticSearchField.value, if metadata.Some? then metadata.value else map[],
                                               backends.splitText(text, maxSentences))
    {
      var chunks := backends.splitText(text, maxSentences);
      var sem := semanticSearchField.value;
      var insertable: seq<Row> := [];
      for i := 0 to |chunks|
        invariant |insertable| == i
        invariant i > 0 ==> metadata.Some?
        invariant forall j :: 0 <= j < i ==> metadata.Some? && insertable[j] == metadata.value[sem := Str(chunks[j])]
      {
        if metadata.None? {
          return Err(TypeError);
        }
        var row := metadata.value;
        row := row[sem := Str(chunks[i])];
        insertable := insertable + [row];
      }
      r := Ok(insertable);
    }

    /** `insert_text_in_chunks`: the chunk rows, inserted. */
    method InsertTextInChunks(text: string, metadata: Option<Row>, maxSentences: int, checkValidity: bool)
      returns (written: seq<Row>, r: Result<seq<Value>>)
      requires Valid() && Bound()
      modifies this
      ensures Valid() && Bound()
      ensures tableName == old(tableName) && activeCollection == old(activeCollection)
      ensures semanticSearchField == old(semanticSearchField) && uniqueIdField == old(uniqueIdField)
      ensures tableSqlSchema == old(tableSqlSchema)
      ensures metadata.None? && |backends.splitText(text, maxSentences)| > 0 ==>
                r == Err(TypeError) && written == [] && unchanged(this)
      ensures !(metadata.None? && |backends.splitText(text, maxSentences)| > 0) ==>
              var name := old(tableName.value);
              var rows := ChunkedRows(old(semanticSearchField.value), if metadata.Some? then metadata.value else map[],
                                      backends.splitText(text, maxSentences));
              var out := InsertSpec(backends, old(tableSqlSchema.value), old(semanticSearchField.value),
                                    old(uniqueIdField.value), old(tables[name].schema), old(tables[name].rows),
                                    old(collections[name]), old(idsIssued), rows, checkValidity);
              && written == out.written && r == out.result && idsIssued == out.issued
              && tables == old(tables)[name := Table(old(tables[name].schema), out.table)]
              && collections == old(collections)[name := out.collection]
    {
      var data := ChunkTextForInsert(text, metadata, maxSentences);
      if data.Err? {
        return [], Err(TypeError);
      }
      written, r := Insert(data.value, checkValidity);
    }

    /** `get(unique_id)` for one identity: the stored row, if any. Unbound,
        building the query string from `None` fails. */
    function Get(id: Value): (r: Result<seq<Row>>)
      requires Valid()
      reads this
      ensures tableName.None? ==> r == Err(TypeError)
      ensures tableName.Some? ==> r.Ok? && r.value == Lookup(tables[tableName.value].rows, id)
    {
      if tableName.None? then Err(TypeError) else Ok(Lookup(tables[tableName.value].rows, id))
    }

    /** `hybrid_query`: the identities selected by the SQL clause, first
        column of each tuple in order, become the `$in` filter of the vector
        search; the search runs even when no identity is selected. */
    method HybridQuery(queryText: string, topK: int, sqlWhere: Option<string>) returns (r: Result<seq<Hit>>)
      requires Valid() && (sqlWhere.Some? ==> Bound())
      ensures sqlWhere.None? ==> r == Err(TypeError)
      ensures sqlWhere.Some? ==>
                var tuples := backends.selectColumn(tables[tableName.value].rows, uniqueIdField.value, sqlWhere.value);
                && (r == Err(IndexError) <==> AnyEmpty(tuples))
                && (!AnyEmpty(tuples) ==>
                      r == Ok(backends.vectorSearch(collections[activeCollection.value], queryText, topK,
                                                    IdIn(uniqueIdField.value, FirstColumn(tuples)))))
    {
      if sqlWhere.None? {
        return Err(TypeError);
      }
      var idf := uniqueIdField.value;
      var tuples := backends.selectColumn(tables[tableName.value].rows, idf, sqlWhere.value);
      var idsList := CollectIds(tuples);
      if idsList.Err? {
        return Err(IndexError);
      }
      assert idsList.value == FirstColumn(tuples);
      r := Ok(backends.vectorSearch(collections[activeCollection.value], queryText, topK, IdIn(idf, idsList.value)));
    }

    /** `insert(data, check_validity)`, proved against `InsertSpec`: the rows
        as the caller sees them afterwards, the outcome, and both stores. */
    method Insert(data: seq<Row>, checkValidity: bool) returns (written: seq<Row>, r: Result<seq<Value>>)
      requires Valid() && Bound()
      modifies this
      ensures Valid() && Bound()
      ensures tableName == old(tableName) && activeCollection == old(activeCollection)
      ensures semanticSearchField == old(semanticSearchField) && uniqueIdField == old(uniqueIdField)
      ensures tableSqlSchema == old(tableSqlSchema)
      ensures var name := old(tableName.value);
              var out := InsertSpec(backends, old(tableSqlSchema.value), old(semanticSearchField.value),
                                    old(uniqueIdField.value), old(tables[name].schema), old(tables[name].rows),
                                    old(collections[name]), old(idsIssued), data, checkValidity);
              && written == out.written && r == out.result && idsIssued == out.issued
              && tables == old(tables)[name := Table(old(tables[name].schema), out.table)]
              && collections == old(collections)[name := out.collection]
    {
      var name := tableName.value;
      var table := tables[name];
      var issued, rows, coll';
      written, r, issued, rows, coll' := InsertRows(backends, tableSqlSchema.value, semanticSearchField.value,
                                                   uniqueIdField.value, table.schema, table.rows, collections[name],
                                                   idsIssued, data, checkValidity);
      idsIssued := issued;
      tables := tables[name := Table(table.schema, rows)];
      collections := collections[name := coll'];
    }
  }
}
