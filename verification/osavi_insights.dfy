/** The OSAVI insights service: a batch create whose reply is the same
    whatever the number of records. */
module OsaviInsights {
  import opened Db
  import opened Records

  const Fields := ["faixa_tendencia", "interpretacao", "acoes_recomendadas"]
  const Svc := Service("osavi_insights", Fields)

  const Created := "Registros OSAVI criados com sucesso"
  const Updated := "Registro OSAVI atualizado com sucesso"
  const Deleted := "Registro OSAVI deletado com sucesso"

  /** One item of a create request body. */
  datatype Entry = Entry(faixaTendencia: string, interpretacao: string, acoesRecomendadas: string)

  lemma SvcWellFormed()
    ensures WellFormed(Svc)
  {
    FieldsAreIdents();
    FieldsAreDistinct();
    assert Ident(Svc.table);
  }

  lemma FieldsAreIdents()
    ensures forall j :: 0 <= j < |Fields| ==> Ident(Fields[j])
  {
    assert Ident(Fields[0]) && Ident(Fields[1]);
    assert Ident(Fields[2]);
  }

  lemma FieldsAreDistinct()
    ensures Distinct(Fields)
  {
  }

  function Stored(e: Entry): Row
  {
    map["faixa_tendencia" := Str(e.faixaTendencia), "interpretacao" := Str(e.interpretacao),
        "acoes_recomendadas" := Str(e.acoesRecomendadas)]
  }

  function Params(e: Entry): seq<Value>
  {
    [Str(e.faixaTendencia), Str(e.interpretacao), Str(e.acoesRecomendadas)]
  }

  lemma StoredIsZip(e: Entry)
    ensures ZipRow(Fields, Params(e)) == Stored(e)
  {
    var p := Params(e);
    var m := Stored(e);
    assert Distinct(Fields);
    forall i | 0 <= i < |Fields|
      ensures Fields[i] in m && m[Fields[i]] == p[i]
    {
    }
    forall c | c in m
      ensures c in Fields
    {
    }
    ZipRowIs(Fields, p, m);
  }

  /** The bound tuples of a batch, one per item. */
  function Items(entries: seq<Entry>): (items: seq<seq<Value>>)
    ensures |items| == |entries|
    ensures forall i :: 0 <= i < |entries| ==> ZipRow(Fields, items[i]) == Stored(entries[i])
  {
    forall e | e in entries
      ensures ZipRow(Fields, Params(e)) == Stored(e)
    {
      StoredIsZip(e);
    }
    seq(|entries|, i requires 0 <= i < |entries| => Params(entries[i]))
  }

  /** The batch create service: every item stored under consecutive ids and
      committed once, or, when the database rejects any of them, nothing
      stored and a 400 reply. */
  function Create(t: Table, entries: seq<Entry>, check: Check): (r: Outcome)
    requires Valid(t)
    ensures r.response.Ok? <==> forall i :: 0 <= i < |entries| ==> check(Stored(entries[i])).None?
    ensures r.response.HttpError? ==> r.response.status == 400 && r.table == t
    ensures r.response.Ok? ==>
      && r.response.message == Created
      && Valid(r.table)
      && r.table.nextId == t.nextId + |entries|
      && (forall k :: k in r.table.rows <==> k in t.rows || t.nextId <= k < t.nextId + |entries|)
      && (forall k :: t.nextId <= k < t.nextId + |entries| ==> r.table.rows[k] == Stored(entries[k - t.nextId]))
      && (forall k :: k in t.rows ==> r.table.rows[k] == t.rows[k])
  {
    SvcWellFormed();
    ValuesMarkers(Svc, MarkerList(3));
    CreateBatch(Svc, MarkerList(3), t, Items(entries), check, Created)
  }

  /** The update service. */
  function Update(t: Table, id: int, patch: Patch, check: Check): (r: Outcome)
    requires |patch| == |Fields|
    ensures UpdateSpec(Svc, false, t, id, patch, check, Updated, r)
  {
    SvcWellFormed();
    Records.Update(Svc, false, t, id, patch, check, Updated)
  }

  /** The delete service. */
  function Delete(t: Table, id: int): (r: Outcome)
    ensures r.response.Ok? <==> id in t.rows
    ensures r.response.Ok? ==> r == Outcome(Ok(Deleted), Table(t.rows - {id}, t.nextId))
    ensures r.response.HttpError? ==> r == Outcome(HttpError(404, NotFound), t)
  {
    Records.Delete(t, id, Deleted)
  }
}
