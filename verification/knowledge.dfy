/** The knowledge-base service: eight columns, three of them optional; the
    create binds every column in declaration order. */
module Knowledge {
  import opened Wrappers
  import opened Db
  import opened Records

  const Fields := ["date", "area", "name", "feature", "data_type", "insights", "recommendation", "responsible"]
  const Svc := Service("knowledge_base1", Fields)

  const Created := "Registro criado com sucesso"
  const Updated := "Registro atualizado com sucesso"
  const Deleted := "Registro deletado com sucesso"

  /** A create request body; the last three fields default to `None`. */
  datatype Entry = Entry(
    date: (int, int, int), area: string, name: string, feature: string, dataType: string,
    insights: Option<string>, recommendation: Option<string>, responsible: Option<string>)

  lemma SvcWellFormed()
    ensures WellFormed(Svc)
  {
    FieldsAreIdents();
    FieldsAreDistinct();
    assert Ident(Svc.table);
  }

  lemma FieldsAreIdents()
    ensures forall j :: 0 <= j < |Fields| ==> Ident(Fields[j])
  {
    assert Ident(Fields[0]) && Ident(Fields[1]);
    assert Ident(Fields[2]) && Ident(Fields[3]);
    assert Ident(Fields[4]) && Ident(Fields[5]);
    assert Ident(Fields[6]) && Ident(Fields[7]);
  }

  lemma FieldsAreDistinct()
    ensures Distinct(Fields)
  {
  }

  /** An optional text as the driver binds it: `None` as `NULL`, a text as
      itself. */
  function Optional(s: Option<string>): (v: Value)
    ensures v == Null <==> s.None?
    ensures s.Some? ==> v == Str(s.value)
  {
    if s.Some? then Str(s.value) else Null
  }

  /** The row a create request stores: one column per field, an omitted
      optional field as `NULL`. */
  function Stored(e: Entry): Row
  {
    map["date" := Date(e.date.0, e.date.1, e.date.2), "area" := Str(e.area), "name" := Str(e.name),
        "feature" := Str(e.feature), "data_type" := Str(e.dataType),
        "insights" := Optional(e.insights), "recommendation" := Optional(e.recommendation),
        "responsible" := Optional(e.responsible)]
  }

  /** The bound tuple, in the order the INSERT lists its columns. */
  function Params(e: Entry): (p: seq<Value>)
    ensures |p| == |Fields|
  {
    [Date(e.date.0, e.date.1, e.date.2), Str(e.area), Str(e.name), Str(e.feature), Str(e.dataType),
     Optional(e.insights), Optional(e.recommendation), Optional(e.responsible)]
  }

  /** Column `i` receives value `i`: zipping the columns with the tuple gives
      the intended row. */
  lemma StoredIsZip(e: Entry)
    ensures ZipRow(Fields, Params(e)) == Stored(e)
  {
    var p := Params(e);
    var m := Stored(e);
    assert Distinct(Fields);
    forall i | 0 <= i < |Fields|
      ensures Fields[i] in m && m[Fields[i]] == p[i]
    {
    }
    forall c | c in m
      ensures c in Fields
    {
    }
    ZipRowIs(Fields, p, m);
  }

  /** The create service: the entry is stored under the next id unless the
      database rejects the row or already holds that id, in which case
      nothing changes and the reply is 400. */
  function Create(t: Table, e: Entry, check: Check): (r: Outcome)
    ensures r.response.Ok? <==> check(Stored(e)).None? && t.nextId !in t.rows
    ensures r.response.HttpError? ==> r.response.status == 400 && r.table == t
    ensures check(Stored(e)).None? && t.nextId in t.rows ==> r.response == HttpError(400, DuplicateKey(Svc.table))
    ensures r.response.Ok? ==>
      && r.response.message == Created
      && r.table == Table(t.rows[t.nextId := Stored(e)], t.nextId + 1)
  {
    SvcWellFormed();
    ValuesMarkers(Svc, MarkerList(8));
    StoredIsZip(e);
    Records.Create(Svc, MarkerList(8), t, Params(e), check, Created)
  }

  /** The update service: set fields are bound as given. */
  function Update(t: Table, id: int, patch: Patch, check: Check): (r: Outcome)
    requires |patch| == |Fields|
    ensures UpdateSpec(Svc, false, t, id, patch, check, Updated, r)
  {
    SvcWellFormed();
    Records.Update(Svc, false, t, id, patch, check, Updated)
  }

  /** The delete service. */
  function Delete(t: Table, id: int): (r: Outcome)
    ensures r.response.Ok? <==> id in t.rows
    ensures r.response.Ok? ==> r == Outcome(Ok(Deleted), Table(t.rows - {id}, t.nextId))
    ensures r.response.HttpError? ==> r == Outcome(HttpError(404, NotFound), t)
  {
    Records.Delete(t, id, Deleted)
  }
}
