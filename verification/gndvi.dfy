/** The GNDVI interpretation service: unlike the NDVI service it binds the
    `indicativos` list as it is, on create and on update, and lists rows
    without decoding any column. */
module Gndvi {
  import opened Db
  import opened Records

  const Fields := ["faixa_gndvi", "interpretacao", "indicativos"]
  const Svc := Service("gndvi_interpretation", Fields)

  const Created := "Registro GNDVI criado com sucesso"
  const Updated := "Registro GNDVI atualizado com sucesso"
  const Deleted := "Registro GNDVI deletado com sucesso"

  /** A create request body. */
  datatype Entry = Entry(faixaGndvi: string, interpretacao: string, indicativos: seq<string>)

  lemma SvcWellFormed()
    ensures WellFormed(Svc)
  {
    FieldsAreIdents();
    FieldsAreDistinct();
    assert Ident(Svc.table);
  }

  lemma FieldsAreIdents()
    ensures forall j :: 0 <= j < |Fields| ==> Ident(Fields[j])
  {
    assert Ident(Fields[0]) && Ident(Fields[1]);
    assert Ident(Fields[2]);
  }

  lemma FieldsAreDistinct()
    ensures Distinct(Fields)
  {
  }

  /** The row a create request stores; the list is stored as a list. */
  function Stored(e: Entry): Row
  {
    map["faixa_gndvi" := Str(e.faixaGndvi), "interpretacao" := Str(e.interpretacao),
        "indicativos" := StrList(e.indicativos)]
  }

  function Params(e: Entry): seq<Value>
  {
    [Str(e.faixaGndvi), Str(e.interpretacao), StrList(e.indicativos)]
  }

  lemma StoredIsZip(e: Entry)
    ensures ZipRow(Fields, Params(e)) == Stored(e)
  {
    var p := Params(e);
    var m := Stored(e);
    assert Distinct(Fields);
    forall i | 0 <= i < |Fields|
      ensures Fields[i] in m && m[Fields[i]] == p[i]
    {
    }
    forall c | c in m
      ensures c in Fields
    {
    }
    ZipRowIs(Fields, p, m);
  }

  /** The create service: the entry, its list unencoded, is stored under the
      next id unless the database rejects
      the row or already holds that id. */
  function Create(t: Table, e: Entry, check: Check): (r: Outcome)
    ensures r.response.Ok? <==> check(Stored(e)).None? && t.nextId !in t.rows
    ensures r.response.HttpError? ==> r.response.status == 400 && r.table == t
    ensures check(Stored(e)).None? && t.nextId in t.rows ==> r.response == HttpError(400, DuplicateKey(Svc.table))
    ensures r.response.Ok? ==>
      && r.response.message == Created
      && r.table == Table(t.rows[t.nextId := Stored(e)], t.nextId + 1)
      && r.table.rows[t.nextId]["indicativos"] == StrList(e.indicativos)
  {
    SvcWellFormed();
    ValuesMarkers(Svc, MarkerList(3));
    StoredIsZip(e);
    Records.Create(Svc, MarkerList(3), t, Params(e), check, Created)
  }

  /** The update service: set fields, `indicativos` included, are bound as
      given. */
  function Update(t: Table, id: int, patch: Patch, check: Check): (r: Outcome)
    requires |patch| == |Fields|
    ensures UpdateSpec(Svc, false, t, id, patch, check, Updated, r)
  {
    SvcWellFormed();
    Records.Update(Svc, false, t, id, patch, check, Updated)
  }

  /** A successful update stores a set `indicativos` list unchanged. */
  lemma UpdateKeepsList(t: Table, id: int, patch: Patch, check: Check)
    requires |patch| == |Fields|
    ensures var r := Update(t, id, patch, check);
      r.response.Ok? && patch[2].Some? ==> r.table.rows[id]["indicativos"] == patch[2].value
  {
    SvcWellFormed();
    assert Position(Fields, "indicativos") == 2;
  }

  /** The delete service. */
  function Delete(t: Table, id: int): (r: Outcome)
    ensures r.response.Ok? <==> id in t.rows
    ensures r.response.Ok? ==> r == Outcome(Ok(Deleted), Table(t.rows - {id}, t.nextId))
    ensures r.response.HttpError? ==> r == Outcome(HttpError(404, NotFound), t)
  {
    Records.Delete(t, id, Deleted)
  }
}
