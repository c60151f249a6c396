/** The NDVI interpretation service: `indicativos` is a list in the API and
    newline-joined text in the table, decoded again on listing. Its create
    binds three values against four markers and therefore always fails. */
module Ndvi {
  import opened Wrappers
  import opened Text
  import opened Db
  import opened Records

  const Fields := ["faixa_ndvi", "vigor_vegetativo", "indicativos", "recomendacao"]
  const Svc := Service("ndvi_interpretation", Fields)

  const Created := "Registro NDVI criado com sucesso"
  const Updated := "Registro NDVI atualizado com sucesso"
  const Deleted := "Registro NDVI deletado com sucesso"

  /** The error psycopg2 raises when a statement has more markers than the
      tuple has values. */
  const MissingParameter := "tuple index out of range"

  /** A create request body. */
  datatype Entry = Entry(faixaNdvi: string, vigorVegetativo: string, indicativos: seq<string>, recomendacao: string)

  lemma SvcWellFormed()
    ensures WellFormed(Svc)
  {
    FieldsAreIdents();
    FieldsAreDistinct();
    assert Ident(Svc.table);
  }

  lemma FieldsAreIdents()
    ensures forall j :: 0 <= j < |Fields| ==> Ident(Fields[j])
  {
    assert Ident(Fields[0]) && Ident(Fields[1]);
    assert Ident(Fields[2]) && Ident(Fields[3]);
  }

  lemma FieldsAreDistinct()
    ensures Distinct(Fields)
  {
  }

  /** `"\n".join(indicativos)`, the stored form of the list. */
  function Encode(xs: seq<string>): Value
  {
    Str(Join(xs, "\n"))
  }

  /** Python truthiness of a fetched value. */
  predicate Truthy(v: Value) {
    match v
    case Null => false
    case Str(s) => |s| > 0
    case Int(n) => n != 0
    case Date(_, _, _) => true
    case StrList(xs) => |xs| > 0
  }

  /** `v.split("\n") if v else []`; `None` when a truthy non-string value
      has no `split`. */
  function Decode(v: Value): (r: Option<seq<string>>)
    ensures r.Some? <==> !Truthy(v) || v.Str?
    ensures v == Null || v == Str("") ==> r == Some([])
    ensures r.Some? ==> forall i :: 0 <= i < |r.value| ==> '\n' !in r.value[i]
    ensures r.Some? && v.Str? ==> Join(r.value, "\n") == v.text
  {
    if !Truthy(v) then Some([])
    else if v.Str? then
      JoinSplit(v.text, '\n');
      Some(Split(v.text, '\n'))
    else None
  }

  /** Listing gives back exactly the stored list when no element holds a line
      break and the list is not `[""]`, whose stored text `""` reads as `[]`. */
  lemma CodecRoundTrip(xs: seq<string>)
    ensures Decode(Encode(xs)) == Some(xs) <==>
      xs != [""] && forall i :: 0 <= i < |xs| ==> '\n' !in xs[i]
  {
    var s := Join(xs, "\n");
    JoinEmpty(xs, "\n");
    if xs != [""] && forall i :: 0 <= i < |xs| ==> '\n' !in xs[i] {
      if |xs| > 0 {
        SplitJoin(xs, '\n');
      }
    }
  }

  /** Every stored text survives a decode followed by an encode. */
  lemma StoredRoundTrip(s: string)
    ensures Decode(Str(s)).Some? && Encode(Decode(Str(s)).value) == Str(s)
  {
  }

  /** The VALUES list as written: four markers, the last without a space. */
  function ValuesAsWritten(): (s: string)
    ensures Markers(s) == 4
  {
    MarkersConcat(MarkerList(3), ",%s");
    MarkerTail(",");
    MarkerList(3) + ",%s"
  }

  /** The tuple the create binds as written: the intended tuple without its
      last value, `recomendacao`. */
  function ParamsAsWritten(e: Entry): (p: seq<Value>)
    ensures |p| == 3 && p == Params(e)[..3]
  {
    [Str(e.faixaNdvi), Str(e.vigorVegetativo), Encode(e.indicativos)]
  }

  /** The create as written: interpolation fails on every request, the
      transaction is rolled back and the reply is 400. */
  function CreateAsWritten(t: Table, e: Entry, check: Check): (r: Outcome)
    ensures r == Outcome(HttpError(400, MissingParameter), t)
  {
    SvcWellFormed();
    ValuesMarkers(Svc, ValuesAsWritten());
    Create(Svc, ValuesAsWritten(), t, ParamsAsWritten(e), check, Created)
  }

  /** The row a create request is meant to store. */
  function Stored(e: Entry): Row
  {
    map["faixa_ndvi" := Str(e.faixaNdvi), "vigor_vegetativo" := Str(e.vigorVegetativo),
        "indicativos" := Encode(e.indicativos), "recomendacao" := Str(e.recomendacao)]
  }

  function Params(e: Entry): seq<Value>
  {
    [Str(e.faixaNdvi), Str(e.vigorVegetativo), Encode(e.indicativos), Str(e.recomendacao)]
  }

  /** Zipping the columns with the bound values gives the intended row. */
  lemma StoredIsZip(e: Entry)
    ensures ZipRow(Fields, Params(e)) == Stored(e)
  {
    var p := Params(e);
    var m := Stored(e);
    assert Distinct(Fields);
    forall i | 0 <= i < |Fields|
      ensures Fields[i] in m && m[Fields[i]] == p[i]
    {
    }
    forall c | c in m
      ensures c in Fields
    {
    }
    ZipRowIs(Fields, p, m);
  }

  /** The create with all four values bound: the entry is stored under the
      next id unless the database rejects
      the row or already holds that id. */
  function CreateCorrected(t: Table, e: Entry, check: Check): (r: Outcome)
    ensures r.response.Ok? <==> check(Stored(e)).None? && t.nextId !in t.rows
    ensures r.response.HttpError? ==> r.response.status == 400 && r.table == t
    ensures check(Stored(e)).None? && t.nextId in t.rows ==> r.response == HttpError(400, DuplicateKey(Svc.table))
    ensures r.response.Ok? ==>
      && r.response.message == Created
      && r.table == Table(t.rows[t.nextId := Stored(e)], t.nextId + 1)
  {
    SvcWellFormed();
    ValuesMarkers(Svc, MarkerList(4));
    StoredIsZip(e);
    Create(Svc, MarkerList(4), t, Params(e), check, Created)
  }

  /** One listed row: its `indicativos` decoded; `None` when the column is
      missing or cannot be decoded. */
  function DecodeRow(row: Row): (r: Option<Row>)
    ensures r.Some? <==> "indicativos" in row && Decode(row["indicativos"]).Some?
    ensures r.Some? ==>
      && r.value.Keys == row.Keys
      && r.value["indicativos"] == StrList(Decode(row["indicativos"]).value)
      && forall c :: c in row && c != "indicativos" ==> r.value[c] == row[c]
  {
    if "indicativos" !in row then None
    else
      match Decode(row["indicativos"])
      case None => None
      case Some(xs) => Some(row["indicativos" := StrList(xs)])
  }

  /** The list service: every fetched row zipped with the column names and
      decoded; an error on any row aborts the whole listing. */
  function List(columns: seq<string>, fetched: seq<seq<Value>>): (r: Option<seq<Row>>)
    ensures r.Some? <==> forall i :: 0 <= i < |fetched| ==> DecodeRow(ZipRow(columns, fetched[i])).Some?
    ensures r.Some? ==> |r.value| == |fetched|
    ensures r.Some? ==> forall i :: 0 <= i < |fetched| ==> DecodeRow(ZipRow(columns, fetched[i])) == Some(r.value[i])
  {
    if |fetched| == 0 then Some([])
    else
      match DecodeRow(ZipRow(columns, fetched[0]))
      case None => None
      case Some(row) =>
        match List(columns, fetched[1..])
        case None =>
          assert forall i :: 1 <= i < |fetched| ==> fetched[i] == fetched[1..][i - 1];
          None
        case Some(rest) =>
          assert forall i :: 1 <= i < |fetched| ==> fetched[i] == fetched[1..][i - 1];
          Some([row] + rest)
  }

  /** The row the corrected create stores lists with the entry's own
      `indicativos` exactly when the codec round trip holds for it. */
  lemma CreateThenDecode(e: Entry)
    ensures DecodeRow(Stored(e)) == Some(Stored(e)["indicativos" := StrList(e.indicativos)]) <==>
      e.indicativos != [""] && forall i :: 0 <= i < |e.indicativos| ==> '\n' !in e.indicativos[i]
  {
    CodecRoundTrip(e.indicativos);
    var row := Stored(e);
    if DecodeRow(row) == Some(row["indicativos" := StrList(e.indicativos)]) {
      assert row["indicativos" := StrList(e.indicativos)]["indicativos"] == StrList(e.indicativos);
    }
  }

  /** The update service: a set `indicativos` list is newline-joined before
      it is bound. */
  function Update(t: Table, id: int, patch: Patch, check: Check): (r: Outcome)
    requires |patch| == |Fields|
    ensures UpdateSpec(Svc, true, t, id, patch, check, Updated, r)
  {
    SvcWellFormed();
    Records.Update(Svc, true, t, id, patch, check, Updated)
  }

  /** A successful update stores a set list newline-joined and an explicitly
      null `indicativos` as `NULL`. */
  lemma UpdateIndicativos(t: Table, id: int, patch: Patch, check: Check)
    requires |patch| == |Fields|
    ensures var r := Update(t, id, patch, check);
      r.response.Ok? ==>
        && (patch[2].Some? && patch[2].value.StrList? ==>
              r.table.rows[id]["indicativos"] == Encode(patch[2].value.items))
        && (patch[2] == Some(Null) ==> r.table.rows[id]["indicativos"] == Null)
        && (patch[2].None? && "indicativos" in t.rows[id] ==>
              r.table.rows[id]["indicativos"] == t.rows[id]["indicativos"])
  {
    SvcWellFormed();
    UpdateFrame(Svc, true, t, id, patch, check, Updated);
    assert Fields[2] == "indicativos";
    assert Position(Fields, "indicativos") == 2;
    assert "indicativos" in SetNames(Fields, patch) <==> patch[2].Some?;
  }

  /** The delete service. */
  function Delete(t: Table, id: int): (r: Outcome)
    ensures r.response.Ok? <==> id in t.rows
    ensures r.response.Ok? ==> r == Outcome(Ok(Deleted), Table(t.rows - {id}, t.nextId))
    ensures r.response.HttpError? ==> r == Outcome(HttpError(404, NotFound), t)
  {
    Records.Delete(t, id, Deleted)
  }
}
