/** The OSAVI phenological-stage service: a batch create whose reply counts
    the records it stored. */
module OsaviFenologico {
  import opened Text
  import opened Db
  import opened Records

  const Fields := ["estagio_fenologico", "faixa_osavi", "interpretacao", "aplicacoes_praticas"]
  const Svc := Service("osavi_fenologico", Fields)

  const CreatedSuffix := " registro(s) criados com sucesso"
  const Updated := "Registro atualizado com sucesso"
  const Deleted := "Registro deletado com sucesso"

  /** One item of a create request body. */
  datatype Entry = Entry(estagioFenologico: string, faixaOsavi: string, interpretacao: string, aplicacoesPraticas: string)

  lemma SvcWellFormed()
    ensures WellFormed(Svc)
  {
    FieldsAreIdents();
    FieldsAreDistinct();
    assert Ident(Svc.table);
  }

  lemma FieldsAreIdents()
    ensures forall j :: 0 <= j < |Fields| ==> Ident(Fields[j])
  {
    assert Ident(Fields[0]) && Ident(Fields[1]);
    assert Ident(Fields[2]) && Ident(Fields[3]);
  }

  lemma FieldsAreDistinct()
    ensures Distinct(Fields)
  {
  }

  function Stored(e: Entry): Row
  {
    map["estagio_fenologico" := Str(e.estagioFenologico), "faixa_osavi" := Str(e.faixaOsavi),
        "interpretacao" := Str(e.interpretacao), "aplicacoes_praticas" := Str(e.aplicacoesPraticas)]
  }

  function Params(e: Entry): seq<Value>
  {
    [Str(e.estagioFenologico), Str(e.faixaOsavi), Str(e.interpretacao), Str(e.aplicacoesPraticas)]
  }

  lemma StoredIsZip(e: Entry)
    ensures ZipRow(Fields, Params(e)) == Stored(e)
  {
    var p := Params(e);
    var m := Stored(e);
    assert Distinct(Fields);
    forall i | 0 <= i < |Fields|
      ensures Fields[i] in m && m[Fields[i]] == p[i]
    {
    }
    forall c | c in m
      ensures c in Fields
    {
    }
    ZipRowIs(Fields, p, m);
  }

  /** The bound tuples of a batch, one per item. */
  function Items(entries: seq<Entry>): (items: seq<seq<Value>>)
    ensures |items| == |entries|
    ensures forall i :: 0 <= i < |entries| ==> ZipRow(Fields, items[i]) == Stored(entries[i])
  {
    forall e | e in entries
      ensures ZipRow(Fields, Params(e)) == Stored(e)
    {
      StoredIsZip(e);
    }
    seq(|entries|, i requires 0 <= i < |entries| => Params(entries[i]))
  }

  /** `f"{len(lista)} registro(s) criados com sucesso"`. */
  function CreatedMessage(n: nat): string
  {
    NatToString(n) + CreatedSuffix
  }

  /** The count a reader takes from the reply is the number of items sent. */
  lemma CreatedMessageCount(n: nat)
    ensures LeadingCount(CreatedMessage(n)) == n
  {
    CountThenText(n, CreatedSuffix);
  }

  /** The batch create service: every item stored under consecutive ids and
      committed once, or, when the database rejects any of them, nothing
      stored and a 400 reply. */
  function Create(t: Table, entries: seq<Entry>, check: Check): (r: Outcome)
    requires Valid(t)
    ensures r.response.Ok? <==> forall i :: 0 <= i < |entries| ==> check(Stored(entries[i])).None?
    ensures r.response.HttpError? ==> r.response.status == 400 && r.table == t
    ensures r.response.Ok? ==>
      && r.response.message == CreatedMessage(|entries|)
      && Valid(r.table)
      && r.table.nextId == t.nextId + |entries|
      && (forall k :: k in r.table.rows <==> k in t.rows || t.nextId <= k < t.nextId + |entries|)
      && (forall k :: t.nextId <= k < t.nextId + |entries| ==> r.table.rows[k] == Stored(entries[k - t.nextId]))
      && (forall k :: k in t.rows ==> r.table.rows[k] == t.rows[k])
  {
    SvcWellFormed();
    ValuesMarkers(Svc, MarkerList(4));
    CreateBatch(Svc, MarkerList(4), t, Items(entries), check, CreatedMessage(|entries|))
  }

  /** The update service. */
  function Update(t: Table, id: int, patch: Patch, check: Check): (r: Outcome)
    requires |patch| == |Fields|
    ensures UpdateSpec(Svc, false, t, id, patch, check, Updated, r)
  {
    SvcWellFormed();
    Records.Update(Svc, false, t, id, patch, check, Updated)
  }

  /** The delete service. */
  function Delete(t: Table, id: int): (r: Outcome)
    ensures r.response.Ok? <==> id in t.rows
    ensures r.response.Ok? ==> r == Outcome(Ok(Deleted), Table(t.rows - {id}, t.nextId))
    ensures r.response.HttpError? ==> r == Outcome(HttpError(404, NotFound), t)
  {
    Records.Delete(t, id, Deleted)
  }
}
