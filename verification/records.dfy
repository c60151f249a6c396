/** What the record services (one FastAPI app per interpretation table) have in
    common: single and batch INSERT inside one transaction, the partial-update
    builder over the fields a client explicitly set, the status each path
    surfaces, DELETE by id, and listing rows as column maps. Each service
    module instantiates these with its table, columns and messages. */
module Records {
  import opened Wrappers
  import opened Text
  import opened Db

  /** An HTTP reply: the `{"mensagem": ...}` body of a 200, or an
      `HTTPException(status_code, detail)`. */
  datatype Response = Ok(message: string) | HttpError(status: int, detail: string)

  /** The reply together with the table after the request's transaction. */
  datatype Outcome = Outcome(response: Response, table: Table)

  const NotFound := "Registro não encontrado"
  const NothingToUpdate := "Nenhum campo para atualizar"

  /** `str(e)` of an `HTTPException`: Starlette renders it as its status code,
      a colon and its detail, so a reader finds the status as the number the
      text starts with and the detail at its end. */
  function ExceptionText(status: nat, detail: string): (r: string)
    ensures LeadingCount(r) == status
    ensures |detail| + 2 <= |r| && r[|r| - |detail| - 2..] == ": " + detail
  {
    CountThenText(status, ": " + detail);
    NatToString(status) + (": " + detail)
  }

  /** The detail an update re-raises as 400 when no row has the id: the
      rendering of the 404 raised inside its `try`. */
  function NotFoundCaught(): (r: string)
    ensures r == "404: " + NotFound
  {
    RenderNotFoundStatus();
    assert ExceptionText(404, NotFound) == "404" + (": " + NotFound);
    assert "404" + (": " + NotFound) == "404: " + NotFound;
    ExceptionText(404, NotFound)
  }

  lemma RenderNotFoundStatus()
    ensures NatToString(404) == "404"
  {
    assert NatToString(4) == "4";
    assert NatToString(40) == "40";
  }

  /** A service: its table and its columns in declaration order (the create
      model and the update model declare the same fields in the same order). */
  datatype Service = Service(table: string, fields: seq<string>)

  predicate IdentChar(c: char) {
    'a' <= c <= 'z' || '0' <= c <= '9' || c == '_'
  }

  /** A lower-case SQL identifier, as every table and column name here is. */
  predicate Ident(s: string) {
    |s| > 0 && forall i :: 0 <= i < |s| ==> IdentChar(s[i])
  }

  predicate WellFormed(svc: Service) {
    && Ident(svc.table)
    && (forall j :: 0 <= j < |svc.fields| ==> Ident(svc.fields[j]))
    && Distinct(svc.fields)
  }

  lemma IdentWithoutPercent(s: string)
    requires Ident(s)
    ensures '%' !in s
  {
  }

  /** The marker count of a service's INSERT is that of its VALUES list. */
  lemma ValuesMarkers(svc: Service, values: string)
    requires WellFormed(svc) && !EndsWithPercent(values)
    ensures Markers(InsertSql(svc.table, svc.fields, values)) == Markers(values)
  {
    IdentWithoutPercent(svc.table);
    forall i | 0 <= i < |svc.fields|
      ensures '%' !in svc.fields[i]
    {
      IdentWithoutPercent(svc.fields[i]);
    }
    InsertSqlMarkers(svc.table, svc.fields, values);
  }

  /** The row a successful INSERT of `params` stores, as a row the database
      accepts: marker count, column count and constraints all agree. */
  predicate Accepted(sql: string, columns: seq<string>, params: seq<Value>, check: Check) {
    Markers(sql) == |params| && |columns| == |params| && check(ZipRow(columns, params)).None?
  }

  /** A single-record create: one INSERT, committed; any error, a taken
      serial id included, is rolled back and reported as 400 with the error's
      text. */
  function Create(svc: Service, values: string, t: Table, params: seq<Value>, check: Check, message: string): (r: Outcome)
    ensures r.response.Ok? <==>
      Accepted(InsertSql(svc.table, svc.fields, values), svc.fields, params, check) && t.nextId !in t.rows
    ensures r.response.HttpError? ==> r.response.status == 400 && r.table == t
    ensures Accepted(InsertSql(svc.table, svc.fields, values), svc.fields, params, check) && t.nextId in t.rows ==>
      r.response == HttpError(400, DuplicateKey(svc.table))
    ensures r.response.Ok? ==>
      && r.response.message == message
      && r.table == Table(t.rows[t.nextId := ZipRow(svc.fields, params)], t.nextId + 1)
  {
    match ExecInsert(t, svc.table, InsertSql(svc.table, svc.fields, values), svc.fields, params, check)
    case Failure(e) => Outcome(HttpError(400, e), t)
    case Success(x) => Outcome(Ok(message), x.table)
  }

  /** The INSERT loop of a batch create, before the single commit: the first
      failing item aborts the rest. */
  function InsertAll(t: Table, table: string, sql: string, columns: seq<string>, items: seq<seq<Value>>, check: Check): (r: Result<Table, string>)
    requires Valid(t)
    ensures r.Success? <==> forall i :: 0 <= i < |items| ==> Accepted(sql, columns, items[i], check)
    ensures r.Success? ==> StoredAll(t, columns, items, r.value)
    decreases |items|
  {
    if |items| == 0 then Success(t)
    else
      match ExecInsert(t, table, sql, columns, items[0], check)
      case Failure(e) => Failure(e)
      case Success(x) =>
        var rest := InsertAll(x.table, table, sql, columns, items[1..], check);
        assert forall i :: 1 <= i < |items| ==> items[i] == items[1..][i - 1];
        if rest.Success? then
          StoredAllStep(t, x.table, columns, items, rest.value);
          rest
        else
          rest
  }

  /** `after` is `before` with `items` stored under consecutive fresh ids and
      every earlier row untouched. */
  ghost predicate StoredAll(before: Table, columns: seq<string>, items: seq<seq<Value>>, after: Table) {
    && Valid(after)
    && after.nextId == before.nextId + |items|
    && (forall k :: k in after.rows <==> k in before.rows || before.nextId <= k < before.nextId + |items|)
    && (forall k :: before.nextId <= k < before.nextId + |items| ==>
          k in after.rows && after.rows[k] == ZipRow(columns, items[k - before.nextId]))
    && (forall k :: k in before.rows ==> after.rows[k] == before.rows[k])
  }

  /** Storing the first item and then the rest stores them all. */
  lemma StoredAllStep(t: Table, t1: Table, columns: seq<string>, items: seq<seq<Value>>, t2: Table)
    requires |items| > 0 && Valid(t)
    requires t1.nextId == t.nextId + 1 && t1.rows.Keys == t.rows.Keys + {t.nextId}
    requires t1.rows[t.nextId] == ZipRow(columns, items[0])
    requires forall k :: k in t.rows && k != t.nextId ==> t1.rows[k] == t.rows[k]
    requires StoredAll(t1, columns, items[1..], t2)
    ensures StoredAll(t, columns, items, t2)
  {
    assert t.nextId !in t.rows;
    StoredKeysStep(t.rows.Keys, t.nextId, |items|, t2.rows.Keys);
    StoredItemsStep(t.nextId, columns, items, t2.rows, t1.nextId);
    KeptRowsStep(t.rows, t.nextId, t1.rows, t2.rows);
  }

  lemma KeptRowsStep(before: map<int, Row>, next: int, mid: map<int, Row>, after: map<int, Row>)
    requires next !in before
    requires forall k :: k in before && k != next ==> k in mid && mid[k] == before[k]
    requires forall k :: k in mid ==> k in after && after[k] == mid[k]
    ensures forall k :: k in before ==> k in after && after[k] == before[k]
  {
  }

  lemma StoredKeysStep(before: set<int>, next: int, n: nat, after: set<int>)
    requires n > 0
    requires forall k :: k in after <==> k in before + {next} || next + 1 <= k < next + 1 + (n - 1)
    ensures forall k :: k in after <==> k in before || next <= k < next + n
  {
    forall k
      ensures k in after <==> k in before || next <= k < next + n
    {
      if k == next {
        assert k in before + {next};
      }
    }
  }

  lemma StoredItemsStep(next: int, columns: seq<string>, items: seq<seq<Value>>, rows: map<int, Row>, next1: int)
    requires |items| > 0 && next1 == next + 1
    requires next in rows && rows[next] == ZipRow(columns, items[0])
    requires forall k :: next1 <= k < next1 + |items[1..]| ==> k in rows && rows[k] == ZipRow(columns, items[1..][k - next1])
    ensures forall k :: next <= k < next + |items| ==> k in rows && rows[k] == ZipRow(columns, items[k - next])
  {
    forall k | next <= k < next + |items|
      ensures k in rows && rows[k] == ZipRow(columns, items[k - next])
    {
      if k > next {
        assert items[1..][k - next1] == items[k - next];
      }
    }
  }

  /** A batch create: every item inserted in order inside one transaction and
      committed once, so either all of them are stored or, on any error, none
      is and the reply is 400. */
  function CreateBatch(svc: Service, values: string, t: Table, items: seq<seq<Value>>, check: Check, message: string): (r: Outcome)
    requires Valid(t)
    ensures r.response.Ok? <==>
      forall i :: 0 <= i < |items| ==> Accepted(InsertSql(svc.table, svc.fields, values), svc.fields, items[i], check)
    ensures r.response.HttpError? ==> r.response.status == 400 && r.table == t
    ensures r.response.Ok? ==> r.response.message == message && StoredAll(t, svc.fields, items, r.table)
  {
    match InsertAll(t, svc.table, InsertSql(svc.table, svc.fields, values), svc.fields, items, check)
    case Failure(e) => Outcome(HttpError(400, e), t)
    case Success(t') => Outcome(Ok(message), t')
  }

  /** An update request body: one entry per declared field, `None` when the
      client left the field unset, `Some(v)` when it set it (possibly to
      `Null`), as `dict(exclude_unset=True)` distinguishes them. */
  type Patch = seq<Option<Value>>

  predicate NothingSet(patch: Patch) {
    forall j :: 0 <= j < |patch| ==> patch[j].None?
  }

  /** The value bound for a set field: with `joinIndicativos`, a set
      `indicativos` list is stored newline-joined, as text; every other value,
      `Null` included, is bound as given. */
  function BindValue(field: string, v: Value, joinIndicativos: bool): (r: Value)
    ensures !(joinIndicativos && field == "indicativos" && v.StrList?) ==> r == v
    ensures joinIndicativos && field == "indicativos" && v.StrList? ==> r.Str?
  {
    if joinIndicativos && field == "indicativos" && v.StrList? then Str(Join(v.items, "\n"))
    else v
  }

  /** A joined `indicativos` list splits back into the list when it is
      non-empty and no element holds a line break. */
  lemma BindValueLines(v: Value)
    requires v.StrList? && |v.items| > 0
    requires forall i :: 0 <= i < |v.items| ==> '\n' !in v.items[i]
    ensures Split(BindValue("indicativos", v, true).text, '\n') == v.items
  {
    SplitJoin(v.items, '\n');
  }

  /** Positions `from..` of the fields the client set, in declaration order. */
  function SetIndices(patch: Patch, from: nat): (r: seq<nat>)
    requires from <= |patch|
    ensures forall i :: 0 <= i < |r| ==> from <= r[i] < |patch| && patch[r[i]].Some?
    ensures forall i, i' :: 0 <= i < i' < |r| ==> r[i] < r[i']
    ensures forall j :: from <= j < |patch| && patch[j].Some? ==> j in r
    decreases |patch| - from
  {
    if from == |patch| then []
    else if patch[from].Some? then [from] + SetIndices(patch, from + 1)
    else SetIndices(patch, from + 1)
  }

  /** The prepared UPDATE: assigned columns, their `"col = %s"` clauses, and
      the bound values followed by the record id. */
  datatype UpdatePlan = UpdatePlan(columns: seq<string>, clauses: seq<string>, params: seq<Value>)

  function Clauses(columns: seq<string>): (r: seq<string>)
  {
    seq(|columns|, i requires 0 <= i < |columns| => columns[i] + " = " + Marker)
  }

  /** Where `c` is declared among `fields` (`|fields|` when it is not). */
  function Position(fields: seq<string>, c: string): (j: nat)
    ensures j <= |fields|
    ensures j < |fields| <==> c in fields
    ensures j < |fields| ==> fields[j] == c
    ensures Distinct(fields) ==> forall k :: 0 <= k < |fields| && fields[k] == c ==> j == k
  {
    if |fields| == 0 then 0
    else if fields[0] == c then 0
    else 1 + Position(fields[1..], c)
  }

  /** Every earlier column was declared before every later one. */
  ghost predicate InDeclarationOrder(fields: seq<string>, columns: seq<string>) {
    forall i, i' :: 0 <= i < i' < |columns| ==> Position(fields, columns[i]) < Position(fields, columns[i'])
  }

  /** What a prepared UPDATE must be for a request: one clause per set field
      and no other, in declaration order, each bound to that field's value,
      with the id as the last parameter. */
  ghost predicate PlanFor(svc: Service, joinIndicativos: bool, id: int, patch: Patch, p: UpdatePlan)
    requires |patch| == |svc.fields|
  {
    && |p.clauses| == |p.columns|
    && |p.params| == |p.columns| + 1
    && p.params[|p.columns|] == Int(id)
    && (forall i :: 0 <= i < |p.columns| ==> p.clauses[i] == p.columns[i] + " = " + Marker)
    && (forall i :: 0 <= i < |p.columns| ==> p.columns[i] in svc.fields)
    && (forall j :: 0 <= j < |svc.fields| ==> (patch[j].Some? <==> svc.fields[j] in p.columns))
    && (forall i, j :: 0 <= i < |p.columns| && 0 <= j < |svc.fields| && p.columns[i] == svc.fields[j] ==>
          patch[j].Some? && p.params[i] == BindValue(svc.fields[j], patch[j].value, joinIndicativos))
    && InDeclarationOrder(svc.fields, p.columns)
  }

  /** The SET-clause builder: fails with 400 before any connection when the
      client set no field; otherwise the plan for the request, whose text has
      exactly as many markers as it has parameters. */
  function BuildUpdate(svc: Service, joinIndicativos: bool, id: int, patch: Patch): (r: Result<UpdatePlan, Response>)
    requires WellFormed(svc) && |patch| == |svc.fields|
    ensures r.Failure? <==> NothingSet(patch)
    ensures r.Failure? ==> r.error == HttpError(400, NothingToUpdate)
    ensures r.Success? ==> PlanFor(svc, joinIndicativos, id, patch, r.value)
    ensures r.Success? ==> Markers(UpdateSql(svc.table, r.value.clauses)) == |r.value.params|
  {
    var idx := SetIndices(patch, 0);
    SetIndicesFacts(patch, idx);
    if |idx| == 0 then
      Failure(HttpError(400, NothingToUpdate))
    else
      MakePlanFacts(svc, joinIndicativos, id, patch, idx);
      Success(MakePlan(svc, joinIndicativos, id, patch, idx))
  }

  lemma SetIndicesFacts(patch: Patch, idx: seq<nat>)
    requires idx == SetIndices(patch, 0)
    ensures IndicesOfSet(patch, idx)
    ensures |idx| == 0 <==> NothingSet(patch)
  {
    if |idx| > 0 {
      assert patch[idx[0]].Some?;
    }
  }

  /** The plan for the set positions `idx`: their columns, their clauses, their
      bound values and the id. */
  function MakePlan(svc: Service, joinIndicativos: bool, id: int, patch: Patch, idx: seq<nat>): UpdatePlan
    requires IndicesOfSet(patch, idx) && |patch| == |svc.fields|
  {
    var columns := seq(|idx|, i requires 0 <= i < |idx| => svc.fields[idx[i]]);
    var values := seq(|idx|, i requires 0 <= i < |idx| =>
      BindValue(svc.fields[idx[i]], patch[idx[i]].value, joinIndicativos));
    UpdatePlan(columns, Clauses(columns), values + [Int(id)])
  }

  lemma MakePlanFacts(svc: Service, joinIndicativos: bool, id: int, patch: Patch, idx: seq<nat>)
    requires WellFormed(svc) && |patch| == |svc.fields|
    requires IndicesOfSet(patch, idx)
    ensures PlanFor(svc, joinIndicativos, id, patch, MakePlan(svc, joinIndicativos, id, patch, idx))
    ensures var plan := MakePlan(svc, joinIndicativos, id, patch, idx);
      Markers(UpdateSql(svc.table, plan.clauses)) == |plan.params|
  {
    var plan := MakePlan(svc, joinIndicativos, id, patch, idx);
    PlanForIndices(svc, joinIndicativos, id, patch, idx, plan);
    UpdateSqlMarkers(svc.table, plan.columns);
  }

  /** Positions that are exactly the set fields, listed in increasing order. */
  predicate IndicesOfSet(patch: Patch, idx: seq<nat>) {
    && (forall i :: 0 <= i < |idx| ==> idx[i] < |patch| && patch[idx[i]].Some?)
    && (forall i, i' :: 0 <= i < i' < |idx| ==> idx[i] < idx[i'])
    && (forall j :: 0 <= j < |patch| && patch[j].Some? ==> j in idx)
  }

  lemma PlanForIndices(svc: Service, joinIndicativos: bool, id: int, patch: Patch, idx: seq<nat>, plan: UpdatePlan)
    requires WellFormed(svc) && |patch| == |svc.fields|
    requires IndicesOfSet(patch, idx)
    requires |plan.columns| == |idx| && |plan.params| == |idx| + 1
    requires forall i :: 0 <= i < |idx| ==> plan.columns[i] == svc.fields[idx[i]]
    requires forall i :: 0 <= i < |idx| ==>
      plan.params[i] == BindValue(svc.fields[idx[i]], patch[idx[i]].value, joinIndicativos)
    requires plan.params[|idx|] == Int(id)
    requires plan.clauses == Clauses(plan.columns)
    ensures PlanFor(svc, joinIndicativos, id, patch, plan)
  {
    var fields := svc.fields;
    var cols := plan.columns;
    LocatedAt(fields, idx, cols);
    forall j | 0 <= j < |fields|
      ensures patch[j].Some? <==> fields[j] in cols
    {
      if patch[j].Some? {
        var i :| 0 <= i < |idx| && idx[i] == j;
        assert cols[i] == fields[j];
      }
      if fields[j] in cols {
        var i :| 0 <= i < |cols| && cols[i] == fields[j];
        assert Position(fields, cols[i]) == j;
      }
    }
    forall i, j | 0 <= i < |cols| && 0 <= j < |fields| && cols[i] == fields[j]
      ensures patch[j].Some? && plan.params[i] == BindValue(fields[j], patch[j].value, joinIndicativos)
    {
      assert Position(fields, cols[i]) == j;
    }
  }

  /** Each chosen column is declared at the position it was chosen from. */
  lemma LocatedAt(fields: seq<string>, idx: seq<nat>, cols: seq<string>)
    requires Distinct(fields)
    requires |cols| == |idx|
    requires forall i :: 0 <= i < |idx| ==> idx[i] < |fields| && cols[i] == fields[idx[i]]
    requires forall i, i' :: 0 <= i < i' < |idx| ==> idx[i] < idx[i']
    ensures forall i :: 0 <= i < |cols| ==> cols[i] in fields && Position(fields, cols[i]) == idx[i]
    ensures InDeclarationOrder(fields, cols)
  {
    forall i | 0 <= i < |cols|
      ensures cols[i] in fields && Position(fields, cols[i]) == idx[i]
    {
      assert fields[idx[i]] == cols[i];
    }
  }

  /** The rendered UPDATE text holds one marker per clause plus the id's. */
  lemma UpdateSqlMarkers(table: string, columns: seq<string>)
    requires Ident(table)
    requires forall i :: 0 <= i < |columns| ==> Ident(columns[i])
    ensures Markers(UpdateSql(table, Clauses(columns))) == |columns| + 1
  {
    var clauses := Clauses(columns);
    forall i | 0 <= i < |clauses|
      ensures Markers(clauses[i]) == 1 && !EndsWithPercent(clauses[i])
    {
      assert '%' !in columns[i] + " = ";
      MarkerTail(columns[i] + " = ");
    }
    MarkersJoin(clauses, ", ");
    var head := "UPDATE " + table + " SET ";
    var body := Join(clauses, ", ");
    assert '%' !in head;
    PrefixWithoutPercent(head, body + (" WHERE id = " + Marker));
    assert !EndsWithPercent(body) by {
      JoinEndsWith(clauses, ", ", 's');
    }
    MarkersConcat(body, " WHERE id = " + Marker);
    MarkerTail(" WHERE id = ");
    assert UpdateSql(table, clauses) == head + (body + (" WHERE id = " + Marker));
  }

  /** Whether column `c` is one the client set. */
  predicate IsSet(fields: seq<string>, patch: Patch, c: string)
    requires |patch| == |fields|
  {
    c in fields && patch[Position(fields, c)].Some?
  }

  /** A row after a partial update: the set columns take the client's values,
      every other column keeps its value. */
  function Patched(row: Row, fields: seq<string>, patch: Patch, joinIndicativos: bool): Row
    requires |patch| == |fields|
  {
    map c | c in row.Keys + SetNames(fields, patch) ::
      if IsSet(fields, patch, c) then BindValue(c, patch[Position(fields, c)].value, joinIndicativos) else row[c]
  }

  lemma PatchedKeys(row: Row, fields: seq<string>, patch: Patch, joinIndicativos: bool)
    requires |patch| == |fields|
    ensures Patched(row, fields, patch, joinIndicativos).Keys == row.Keys + SetNames(fields, patch)
  {
  }

  /** The columns the client set. */
  function SetNames(fields: seq<string>, patch: Patch): set<string>
    requires |patch| == |fields|
  {
    set c | c in fields && IsSet(fields, patch, c)
  }

  /** The observable behaviour of an update request, stated without the
      builder: no field set gives 400 and touches nothing; a missing id gives
      400 (the 404 raised inside the `try` is caught by the generic handler);
      a row the database rejects gives 400 and is rolled back; otherwise only
      that row changes, to its patched form. */
  ghost predicate UpdateSpec(svc: Service, joinIndicativos: bool, t: Table, id: int, patch: Patch, check: Check, message: string, r: Outcome)
    requires |patch| == |svc.fields|
  {
    if NothingSet(patch) then r == Outcome(HttpError(400, NothingToUpdate), t)
    else if id !in t.rows then r == Outcome(HttpError(400, NotFoundCaught()), t)
    else
      var row := Patched(t.rows[id], svc.fields, patch, joinIndicativos);
      match check(row)
      case Some(e) => r == Outcome(HttpError(400, e), t)
      case None => r == Outcome(Ok(message), Table(t.rows[id := row], t.nextId))
  }

  /** Columns listed in declaration order are pairwise distinct. */
  lemma OrderedDistinct(fields: seq<string>, columns: seq<string>)
    requires InDeclarationOrder(fields, columns)
    ensures Distinct(columns)
  {
    forall i, i' | 0 <= i < i' < |columns|
      ensures columns[i] != columns[i']
    {
      assert Position(fields, columns[i]) < Position(fields, columns[i']);
    }
  }

  /** Applying a plan's assignments to a row yields the patched row. */
  lemma AssignPlan(row: Row, svc: Service, joinIndicativos: bool, id: int, patch: Patch, plan: UpdatePlan)
    requires WellFormed(svc) && |patch| == |svc.fields|
    requires PlanFor(svc, joinIndicativos, id, patch, plan)
    ensures Assign(row, plan.columns, plan.params[..|plan.columns|]) == Patched(row, svc.fields, patch, joinIndicativos)
  {
    OrderedDistinct(svc.fields, plan.columns);
    AssignPatched(row, svc.fields, patch, joinIndicativos, plan.columns, plan.params[..|plan.columns|]);
  }

  lemma AssignPatched(row: Row, fields: seq<string>, patch: Patch, joinIndicativos: bool, cols: seq<string>, vals: seq<Value>)
    requires |patch| == |fields| && |cols| == |vals|
    requires Distinct(fields) && Distinct(cols)
    requires forall i :: 0 <= i < |cols| ==> cols[i] in fields
    requires forall j :: 0 <= j < |fields| ==> (patch[j].Some? <==> fields[j] in cols)
    requires forall i, j :: 0 <= i < |cols| && 0 <= j < |fields| && cols[i] == fields[j] ==>
      patch[j].Some? && vals[i] == BindValue(fields[j], patch[j].value, joinIndicativos)
    ensures Assign(row, cols, vals) == Patched(row, fields, patch, joinIndicativos)
  {
    var a := Assign(row, cols, vals);
    var p := Patched(row, fields, patch, joinIndicativos);
    ColumnsAreSetNames(fields, patch, cols);
    PatchedKeys(row, fields, patch, joinIndicativos);
    forall c | c in a.Keys
      ensures c in p && a[c] == p[c]
    {
      AssignPatchedAt(row, fields, patch, joinIndicativos, cols, vals, c);
    }
    RowsEqual(a, p);
  }

  lemma RowsEqual(a: Row, b: Row)
    requires a.Keys == b.Keys
    requires forall c :: c in a ==> a[c] == b[c]
    ensures a == b
  {
  }

  lemma AssignPatchedAt(row: Row, fields: seq<string>, patch: Patch, joinIndicativos: bool, cols: seq<string>, vals: seq<Value>, c: string)
    requires |patch| == |fields| && |cols| == |vals|
    requires Distinct(fields) && Distinct(cols)
    requires forall i, j :: 0 <= i < |cols| && 0 <= j < |fields| && cols[i] == fields[j] ==>
      patch[j].Some? && vals[i] == BindValue(fields[j], patch[j].value, joinIndicativos)
    requires (set i | 0 <= i < |cols| :: cols[i]) == SetNames(fields, patch)
    requires c in Assign(row, cols, vals)
    ensures c in Patched(row, fields, patch, joinIndicativos)
    ensures Assign(row, cols, vals)[c] == Patched(row, fields, patch, joinIndicativos)[c]
  {
    if c in SetNames(fields, patch) {
      var i :| 0 <= i < |cols| && cols[i] == c;
      var j := Position(fields, c);
      assert Assign(row, cols, vals)[c] == vals[i];
    } else {
      assert c !in cols;
    }
  }

  lemma ColumnsAreSetNames(fields: seq<string>, patch: Patch, cols: seq<string>)
    requires |patch| == |fields| && Distinct(fields)
    requires forall j :: 0 <= j < |fields| ==> (patch[j].Some? <==> fields[j] in cols)
    requires forall i :: 0 <= i < |cols| ==> cols[i] in fields
    ensures (set i | 0 <= i < |cols| :: cols[i]) == SetNames(fields, patch)
  {
    forall c | c in SetNames(fields, patch) ensures c in cols {
      assert fields[Position(fields, c)] == c;
    }
    forall i | 0 <= i < |cols| ensures cols[i] in SetNames(fields, patch) {
      var j :| 0 <= j < |fields| && fields[j] == cols[i];
      assert Position(fields, cols[i]) == j;
    }
  }

  /** The update service. The SET clause comes from the builder; the id is the
      last parameter; a 404 for a missing row is raised inside the `try` and
      therefore re-raised as 400. */
  function Update(svc: Service, joinIndicativos: bool, t: Table, id: int, patch: Patch, check: Check, message: string): (r: Outcome)
    requires WellFormed(svc) && |patch| == |svc.fields|
    ensures UpdateSpec(svc, joinIndicativos, t, id, patch, check, message, r)
  {
    match BuildUpdate(svc, joinIndicativos, id, patch)
    case Failure(resp) => Outcome(resp, t)
    case Success(plan) =>
      match BindError(UpdateSql(svc.table, plan.clauses), plan.params)
      case Some(e) => Outcome(HttpError(400, e), t)
      case None =>
        if id in t.rows then
          AssignPlan(t.rows[id], svc, joinIndicativos, id, patch, plan);
          RunUpdate(t, id, plan, check, message)
        else
          RunUpdate(t, id, plan, check, message)
  }

  /** Executing a prepared update inside the `try`: a database error or a
      zero rowcount both leave the table as it was and surface as 400. */
  function RunUpdate(t: Table, id: int, plan: UpdatePlan, check: Check, message: string): (r: Outcome)
    requires |plan.params| == |plan.columns| + 1 && plan.params[|plan.columns|] == Int(id)
    ensures r.response.HttpError? ==> r.response.status == 400 && r.table == t
    ensures r.response.Ok? <==>
      id in t.rows && check(Assign(t.rows[id], plan.columns, plan.params[..|plan.columns|])).None?
    ensures id !in t.rows ==> r.response == HttpError(400, NotFoundCaught())
    ensures r.response.Ok? ==>
      r == Outcome(Ok(message), Table(t.rows[id := Assign(t.rows[id], plan.columns, plan.params[..|plan.columns|])], t.nextId))
  {
    match ExecUpdate(t, plan.columns, plan.params, check)
    case Failure(e) => Outcome(HttpError(400, e), t)
    case Success(x) =>
      if x.rowcount == 0 then Outcome(HttpError(400, NotFoundCaught()), t)
      else Outcome(Ok(message), x.table)
  }

  /** An update never touches another row, never adds or removes a row, and
      changes no column the client left unset. */
  lemma UpdateFrame(svc: Service, joinIndicativos: bool, t: Table, id: int, patch: Patch, check: Check, message: string)
    requires WellFormed(svc) && |patch| == |svc.fields|
    ensures var r := Update(svc, joinIndicativos, t, id, patch, check, message);
      && r.table.rows.Keys == t.rows.Keys
      && r.table.nextId == t.nextId
      && (forall k :: k in t.rows && k != id ==> r.table.rows[k] == t.rows[k])
      && (r.response.HttpError? ==> r.table == t)
      && (r.response.Ok? ==>
            && (forall c :: c in t.rows[id] && c !in SetNames(svc.fields, patch) ==>
                  c in r.table.rows[id] && r.table.rows[id][c] == t.rows[id][c])
            && (forall c :: c in SetNames(svc.fields, patch) ==>
                  c in r.table.rows[id] &&
                  r.table.rows[id][c] == BindValue(c, patch[Position(svc.fields, c)].value, joinIndicativos)))
  {
    var r := Update(svc, joinIndicativos, t, id, patch, check, message);
    assert UpdateSpec(svc, joinIndicativos, t, id, patch, check, message, r);
    if !NothingSet(patch) && id in t.rows {
      var row := Patched(t.rows[id], svc.fields, patch, joinIndicativos);
      if check(row).None? {
        assert r.table == Table(t.rows[id := row], t.nextId);
        PatchedFrame(t.rows[id], svc.fields, patch, joinIndicativos);
      }
    }
  }

  /** A patched row keeps every column the client did not set and gives every
      set column the client's value. */
  lemma PatchedFrame(row: Row, fields: seq<string>, patch: Patch, joinIndicativos: bool)
    requires |patch| == |fields|
    ensures var p := Patched(row, fields, patch, joinIndicativos);
      && (forall c :: c in row && c !in SetNames(fields, patch) ==> c in p && p[c] == row[c])
      && (forall c :: c in SetNames(fields, patch) ==>
            c in p && p[c] == BindValue(c, patch[Position(fields, c)].value, joinIndicativos))
  {
  }

  /** The delete service: the DELETE is committed outside any `try`, so a
      missing id surfaces as 404. */
  function Delete(t: Table, id: int, message: string): (r: Outcome)
    ensures r.response.Ok? <==> id in t.rows
    ensures r.response.Ok? ==> r.response.message == message && r.table == Table(t.rows - {id}, t.nextId)
    ensures r.response.HttpError? ==> r.response == HttpError(404, NotFound) && r.table == t
  {
    var x := ExecDelete(t, id);
    if x.rowcount == 0 then Outcome(HttpError(404, NotFound), x.table)
    else Outcome(Ok(message), x.table)
  }

  /** The list service: one `dict(zip(colunas, linha))` per fetched row. */
  function List(columns: seq<string>, fetched: seq<seq<Value>>): (r: seq<Row>)
    ensures |r| == |fetched|
    ensures forall i :: 0 <= i < |r| ==>
      r[i].Keys == set j | 0 <= j < |columns| && j < |fetched[i]| :: columns[j]
    ensures Distinct(columns) ==> forall i, j :: 0 <= i < |r| && 0 <= j < |columns| && j < |fetched[i]| ==>
      r[i][columns[j]] == fetched[i][j]
  {
    forall i | 0 <= i < |fetched| {
      ZipRowFacts(columns, fetched[i]);
    }
    seq(|fetched|, i requires 0 <= i < |fetched| => ZipRow(columns, fetched[i]))
  }
}
