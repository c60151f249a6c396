/** The GNDVI insights service: three text columns, single-record create. */
module GndviInsights {
  import opened Db
  import opened Records

  const Fields := ["faixa_tendencia", "interpretacao", "acoes_recomendadas"]
  const Svc := Service("gndvi_insights", Fields)

  const Created := "Insight criado com sucesso"
  const Updated := "Insight atualizado com sucesso"
  const Deleted := "Insight deletado com sucesso"

  /** A create request body. */
  datatype Entry = Entry(faixaTendencia: string, interpretacao: string, acoesRecomendadas: string)

  lemma SvcWellFormed()
    ensures WellFormed(Svc)
  {
    FieldsAreIdents();
    FieldsAreDistinct();
    assert Ident(Svc.table);
  }

  lemma FieldsAreIdents()
    ensures forall j :: 0 <= j < |Fields| ==> Ident(Fields[j])
  {
    assert Ident(Fields[0]) && Ident(Fields[1]);
    assert Ident(Fields[2]);
  }

  lemma FieldsAreDistinct()
    ensures Distinct(Fields)
  {
  }

  function Stored(e: Entry): Row
  {
    map["faixa_tendencia" := Str(e.faixaTendencia), "interpretacao" := Str(e.interpretacao),
        "acoes_recomendadas" := Str(e.acoesRecomendadas)]
  }

  function Params(e: Entry): seq<Value>
  {
    [Str(e.faixaTendencia), Str(e.interpretacao), Str(e.acoesRecomendadas)]
  }

  /** The three values are bound to the three columns in order. */
  lemma StoredIsZip(e: Entry)
    ensures ZipRow(Fields, Params(e)) == Stored(e)
  {
    var p := Params(e);
    var m := Stored(e);
    assert Distinct(Fields);
    forall i | 0 <= i < |Fields|
      ensures Fields[i] in m && m[Fields[i]] == p[i]
    {
    }
    forall c | c in m
      ensures c in Fields
    {
    }
    ZipRowIs(Fields, p, m);
  }

  /** The create service: the entry is stored under the next id unless the
      database rejects the row or already holds that id. */
  function Create(t: Table, e: Entry, check: Check): (r: Outcome)
    ensures r.response.Ok? <==> check(Stored(e)).None? && t.nextId !in t.rows
    ensures r.response.HttpError? ==> r.response.status == 400 && r.table == t
    ensures check(Stored(e)).None? && t.nextId in t.rows ==> r.response == HttpError(400, DuplicateKey(Svc.table))
    ensures r.response.Ok? ==>
      && r.response.message == Created
      && r.table == Table(t.rows[t.nextId := Stored(e)], t.nextId + 1)
  {
    SvcWellFormed();
    ValuesMarkers(Svc, MarkerList(3));
    StoredIsZip(e);
    Records.Create(Svc, MarkerList(3), t, Params(e), check, Created)
  }

  /** The update service. */
  function Update(t: Table, id: int, patch: Patch, check: Check): (r: Outcome)
    requires |patch| == |Fields|
    ensures UpdateSpec(Svc, false, t, id, patch, check, Updated, r)
  {
    SvcWellFormed();
    Records.Update(Svc, false, t, id, patch, check, Updated)
  }

  /** The delete service. */
  function Delete(t: Table, id: int): (r: Outcome)
    ensures r.response.Ok? <==> id in t.rows
    ensures r.response.Ok? ==> r == Outcome(Ok(Deleted), Table(t.rows - {id}, t.nextId))
    ensures r.response.HttpError? ==> r == Outcome(HttpError(404, NotFound), t)
  {
    Records.Delete(t, id, Deleted)
  }
}
