/** The relational store as the record services see it through psycopg2:
    driver values, rows as column maps, one table as a map from `id` to row,
    client-side `%s` interpolation with its two arity errors, and the effect
    of the INSERT, UPDATE and DELETE statements the services issue. */
module Db {
  import opened Wrappers
  import opened Text

  /** A value bound to or fetched from a column. `Null` is Python's `None`;
      `StrList` is a Python `list[str]`, which psycopg2 adapts to an array. */
  datatype Value =
    | Null
    | Str(text: string)
    | Int(number: int)
    | Date(year: int, month: int, day: int)
    | StrList(items: seq<string>)

  /** A row, column name to value; also the shape of `dict(zip(cols, row))`. */
  type Row = map<string, Value>

  /** One table: rows keyed by their `SERIAL` id, and the next id the serial
      sequence hands out. */
  datatype Table = Table(rows: map<int, Row>, nextId: int)

  /** Every stored id was handed out by the sequence before. */
  predicate Valid(t: Table) {
    forall k :: k in t.rows ==> k < t.nextId
  }

  /** Row-local integrity constraints (`NOT NULL`, column types): `None` when
      the database accepts the row, otherwise the text of the error it raises. */
  type Check = Row -> Option<string>

  /** A statement that ran: the table afterwards and `cursor.rowcount`. */
  datatype Executed = Executed(table: Table, rowcount: nat)

  predicate Distinct(xs: seq<string>) {
    forall i, j :: 0 <= i < j < |xs| ==> xs[i] != xs[j]
  }

  /** `dict(zip(cols, vals))`: pairs up to the shorter sequence, later
      duplicates win. */
  function ZipRow(cols: seq<string>, vals: seq<Value>): Row
  {
    if |cols| == 0 || |vals| == 0 then map[]
    else map[cols[0] := vals[0]] + ZipRow(cols[1..], vals[1..])
  }

  /** The keys of `dict(zip(cols, vals))` are the first `min(|cols|, |vals|)`
      column names and, when the names are distinct, each maps to its value. */
  lemma {:induction false} ZipRowFacts(cols: seq<string>, vals: seq<Value>)
    ensures ZipRow(cols, vals).Keys == set i | 0 <= i < |cols| && i < |vals| :: cols[i]
    ensures Distinct(cols) ==>
      forall i :: 0 <= i < |cols| && i < |vals| ==> ZipRow(cols, vals)[cols[i]] == vals[i]
    decreases |cols|
  {
    if |cols| > 0 && |vals| > 0 {
      ZipRowFacts(cols[1..], vals[1..]);
      ZipStep(cols, vals, ZipRow(cols[1..], vals[1..]));
    }
  }

  /** One step of `ZipRow`: the first pair in front of the zip of the rest. */
  lemma ZipStep(cols: seq<string>, vals: seq<Value>, rest: Row)
    requires |cols| > 0 && |vals| > 0
    requires rest.Keys == set i | 0 <= i < |cols[1..]| && i < |vals[1..]| :: cols[1..][i]
    requires Distinct(cols[1..]) ==>
      forall i :: 0 <= i < |cols[1..]| && i < |vals[1..]| ==> rest[cols[1..][i]] == vals[1..][i]
    ensures (map[cols[0] := vals[0]] + rest).Keys == set i | 0 <= i < |cols| && i < |vals| :: cols[i]
    ensures Distinct(cols) ==>
      forall i :: 0 <= i < |cols| && i < |vals| ==> (map[cols[0] := vals[0]] + rest)[cols[i]] == vals[i]
  {
    var r := map[cols[0] := vals[0]] + rest;
    var keys := set i | 0 <= i < |cols| && i < |vals| :: cols[i];
    forall c | c in keys
      ensures c in r
    {
      var i :| 0 <= i < |cols| && i < |vals| && cols[i] == c;
      if i > 0 {
        assert cols[1..][i - 1] == c;
      }
    }
    forall c | c in r
      ensures c in keys
    {
      if c != cols[0] {
        var i :| 0 <= i < |cols| - 1 && i < |vals| - 1 && cols[1..][i] == c;
        assert cols[i + 1] == c;
      }
    }
    if Distinct(cols) {
      assert Distinct(cols[1..]) by {
        forall i, j | 0 <= i < j < |cols| - 1
          ensures cols[1..][i] != cols[1..][j]
        {
          assert cols[i + 1] != cols[j + 1];
        }
      }
      forall i | 0 <= i < |cols| && i < |vals|
        ensures r[cols[i]] == vals[i]
      {
        if i > 0 {
          assert cols[i] == cols[1..][i - 1];
        }
      }
    }
  }

  /** With distinct columns and one value per column, `dict(zip(...))` is the
      map that sends each column to its value and holds nothing else. */
  lemma ZipRowIs(cols: seq<string>, vals: seq<Value>, m: Row)
    requires Distinct(cols) && |cols| == |vals|
    requires forall i :: 0 <= i < |cols| ==> cols[i] in m && m[cols[i]] == vals[i]
    requires forall c :: c in m ==> c in cols
    ensures ZipRow(cols, vals) == m
  {
    var z := ZipRow(cols, vals);
    ZipRowFacts(cols, vals);
    forall c | c in m ensures c in z {
      var i :| 0 <= i < |cols| && cols[i] == c;
    }
  }

  /** The parameter marker psycopg2 substitutes. */
  const Marker := "%s"

  predicate EndsWithPercent(s: string) {
    |s| > 0 && s[|s| - 1] == '%'
  }

  /** The number of `%s` markers in a statement's text. */
  function Markers(s: string): nat
  {
    if |s| < 2 then 0
    else (if s[0] == '%' && s[1] == 's' then 1 else 0) + Markers(s[1..])
  }

  lemma {:induction false} MarkersWithoutPercent(s: string)
    requires '%' !in s
    ensures Markers(s) == 0
  {
    if |s| >= 2 {
      assert s[0] in s;
      assert forall c :: c in s[1..] ==> c in s;
      MarkersWithoutPercent(s[1..]);
    }
  }

  /** Markers add up over a concatenation unless a `%` and an `s` meet at the
      seam. */
  lemma {:induction false} MarkersConcat(a: string, b: string)
    requires !EndsWithPercent(a)
    ensures Markers(a + b) == Markers(a) + Markers(b)
    decreases |a|
  {
    if |a| == 0 {
      assert a + b == b;
    } else if |a| == 1 {
      if |b| > 0 {
        assert (a + b)[1..] == b;
      }
    } else {
      assert (a + b)[0] == a[0] && (a + b)[1] == a[1];
      assert (a + b)[1..] == a[1..] + b;
      assert a[1..][|a[1..]| - 1] == a[|a| - 1];
      MarkersConcat(a[1..], b);
    }
  }

  lemma MarkerTail(prefix: string)
    requires '%' !in prefix
    ensures Markers(prefix + Marker) == 1
  {
    MarkersWithoutPercent(prefix);
    MarkersConcat(prefix, Marker);
  }

  /** Joining pieces that each hold one marker, with a separator that holds
      no `%`, yields one marker per piece. */
  lemma {:induction false} MarkersJoin(parts: seq<string>, sep: string)
    requires '%' !in sep
    requires forall i :: 0 <= i < |parts| ==> Markers(parts[i]) == 1 && !EndsWithPercent(parts[i])
    ensures Markers(Join(parts, sep)) == |parts|
  {
    if |parts| > 1 {
      var rest := Join(parts[1..], sep);
      MarkersJoin(parts[1..], sep);
      PlainSeparator(sep);
      MarkersConcat(sep, rest);
      MarkersConcat(parts[0], sep + rest);
      assert Join(parts, sep) == parts[0] + (sep + rest);
    }
  }

  lemma PlainSeparator(sep: string)
    requires '%' !in sep
    ensures Markers(sep) == 0 && !EndsWithPercent(sep)
  {
    MarkersWithoutPercent(sep);
    if |sep| > 0 {
      assert sep[|sep| - 1] in sep;
    }
  }

  /** The error psycopg2 raises while interpolating `params` into `sql`, if
      the marker count and the parameter count differ. */
  function BindError(sql: string, params: seq<Value>): (e: Option<string>)
    ensures e.None? <==> Markers(sql) == |params|
  {
    if Markers(sql) > |params| then Some("tuple index out of range")
    else if Markers(sql) < |params| then Some("not all arguments converted during string formatting")
    else None
  }

  /** `", ".join(["%s"] * n)`, the VALUES list of an INSERT. */
  function MarkerList(n: nat): (s: string)
    ensures Markers(s) == n
    ensures !EndsWithPercent(s)
  {
    var parts := seq(n, i => Marker);
    MarkersJoin(parts, ", ");
    JoinEndsWith(parts, ", ", 's');
    Join(parts, ", ")
  }

  /** A join of non-empty pieces all ending in `c` ends in `c`. */
  lemma {:induction false} JoinEndsWith(parts: seq<string>, sep: string, c: char)
    requires forall i :: 0 <= i < |parts| ==> |parts[i]| > 0 && parts[i][|parts[i]| - 1] == c
    ensures |parts| > 0 ==> |Join(parts, sep)| > 0 && Join(parts, sep)[|Join(parts, sep)| - 1] == c
  {
    if |parts| > 1 {
      JoinEndsWith(parts[1..], sep, c);
    }
  }

  /** `INSERT INTO table (c1, ..., cn) VALUES (values)`; whitespace and line
      breaks of the services' triple-quoted text are normalised to one space. */
  function InsertSql(table: string, columns: seq<string>, values: string): string
  {
    "INSERT INTO " + table + " (" + Join(columns, ", ") + ") VALUES (" + values + ")"
  }

  /** `UPDATE table SET clause1, ..., clausen WHERE id = %s`. */
  function UpdateSql(table: string, clauses: seq<string>): string
  {
    "UPDATE " + table + " SET " + Join(clauses, ", ") + " WHERE id = " + Marker
  }

  /** Text free of `%` adds no markers in front of a statement fragment. */
  lemma PrefixWithoutPercent(p: string, x: string)
    requires '%' !in p
    ensures Markers(p + x) == Markers(x)
  {
    MarkersWithoutPercent(p);
    if |p| > 0 { assert p[|p| - 1] in p; }
    MarkersConcat(p, x);
  }

  /** Text free of `%` adds no markers after a fragment not ending in `%`. */
  lemma SuffixWithoutPercent(x: string, q: string)
    requires '%' !in q && !EndsWithPercent(x)
    ensures Markers(x + q) == Markers(x)
  {
    MarkersWithoutPercent(q);
    MarkersConcat(x, q);
  }

  /** The INSERT text holds exactly the markers of its VALUES list when the
      table and column names hold no `%`. */
  lemma InsertSqlMarkers(table: string, columns: seq<string>, values: string)
    requires '%' !in table
    requires forall i :: 0 <= i < |columns| ==> '%' !in columns[i]
    requires !EndsWithPercent(values)
    ensures Markers(InsertSql(table, columns, values)) == Markers(values)
  {
    var head := "INSERT INTO " + table + " (";
    var cols := Join(columns, ", ");
    var tail := ") VALUES (" + values + ")";
    assert '%' !in head;
    JoinWithoutPercent(columns, ", ");
    assert '%' !in head + cols;
    assert tail == ") VALUES (" + (values + ")");
    PrefixWithoutPercent(") VALUES (", values + ")");
    SuffixWithoutPercent(values, ")");
    PrefixWithoutPercent(head + cols, tail);
    assert InsertSql(table, columns, values) == (head + cols) + tail;
  }

  /** A join of pieces free of `%`, with such a separator, is free of `%`. */
  lemma {:induction false} JoinWithoutPercent(parts: seq<string>, sep: string)
    requires '%' !in sep
    requires forall i :: 0 <= i < |parts| ==> '%' !in parts[i]
    ensures '%' !in Join(parts, sep)
  {
    if |parts| > 1 {
      JoinWithoutPercent(parts[1..], sep);
    }
  }

  /** The error Postgres raises when an INSERT takes an `id` that is already
      stored: every table's `id SERIAL PRIMARY KEY` constraint is named
      `<table>_pkey`. */
  function DuplicateKey(table: string): string
  {
    "duplicate key value violates unique constraint \"" + table + "_pkey\""
  }

  /** psycopg2 interpolation followed by the INSERT into `table`: the bound row
      is stored under the next serial id, unless a row already holds that id. */
  function ExecInsert(t: Table, table: string, sql: string, columns: seq<string>, params: seq<Value>, check: Check): (r: Result<Executed, string>)
    ensures r.Success? <==>
      Markers(sql) == |params| && |columns| == |params| && check(ZipRow(columns, params)).None? && t.nextId !in t.rows
    ensures r.Failure? && Markers(sql) == |params| && |columns| == |params| && check(ZipRow(columns, params)).None? ==>
      r.error == DuplicateKey(table)
    ensures r.Success? ==>
      && r.value.rowcount == 1
      && r.value.table.nextId == t.nextId + 1
      && r.value.table.rows.Keys == t.rows.Keys + {t.nextId}
      && r.value.table.rows[t.nextId] == ZipRow(columns, params)
      && (forall k :: k in t.rows ==> r.value.table.rows[k] == t.rows[k])
      && (Valid(t) ==> Valid(r.value.table))
  {
    match BindError(sql, params)
    case Some(e) => Failure(e)
    case None =>
      if |columns| > |params| then Failure("INSERT has more target columns than expressions")
      else if |columns| < |params| then Failure("INSERT has more expressions than target columns")
      else
        var row := ZipRow(columns, params);
        match check(row)
        case Some(e) => Failure(e)
        case None =>
          if t.nextId in t.rows then Failure(DuplicateKey(table))
          else Success(Executed(Table(t.rows[t.nextId := row], t.nextId + 1), 1))
  }

  /** The SET list applied in order: each named column takes its value. */
  function Assign(row: Row, columns: seq<string>, values: seq<Value>): (r: Row)
    requires |columns| == |values|
    ensures r.Keys == row.Keys + set i | 0 <= i < |columns| :: columns[i]
    ensures Distinct(columns) ==> forall i :: 0 <= i < |columns| ==> r[columns[i]] == values[i]
    ensures forall c :: c in row && c !in columns ==> r[c] == row[c]
    decreases |columns|
  {
    if |columns| == 0 then row
    else
      var r := Assign(row[columns[0] := values[0]], columns[1..], values[1..]);
      AssignStep(row, columns, values, r);
      r
  }

  /** One step of `Assign`: the first assignment, then the others. */
  lemma AssignStep(row: Row, columns: seq<string>, values: seq<Value>, r: Row)
    requires |columns| == |values| && |columns| > 0
    requires r.Keys == row[columns[0] := values[0]].Keys + set i | 0 <= i < |columns[1..]| :: columns[1..][i]
    requires Distinct(columns[1..]) ==> forall i :: 0 <= i < |columns[1..]| ==> r[columns[1..][i]] == values[1..][i]
    requires forall c :: c in row[columns[0] := values[0]] && c !in columns[1..] ==> r[c] == row[columns[0] := values[0]][c]
    ensures r.Keys == row.Keys + set i | 0 <= i < |columns| :: columns[i]
    ensures Distinct(columns) ==> forall i :: 0 <= i < |columns| ==> r[columns[i]] == values[i]
    ensures forall c :: c in row && c !in columns ==> r[c] == row[c]
  {
    var named := set i | 0 <= i < |columns| :: columns[i];
    forall c | c in named
      ensures c in r
    {
      var i :| 0 <= i < |columns| && columns[i] == c;
      if i > 0 {
        assert columns[1..][i - 1] == c;
      }
    }
    forall c | c in r && c !in row
      ensures c in named
    {
      if c != columns[0] {
        var i :| 0 <= i < |columns| - 1 && columns[1..][i] == c;
        assert columns[i + 1] == c;
      }
    }
    forall c | c in row && c !in columns
      ensures r[c] == row[c]
    {
      assert c !in columns[1..];
    }
    if Distinct(columns) {
      assert Distinct(columns[1..]) by {
        forall i, j | 0 <= i < j < |columns| - 1
          ensures columns[1..][i] != columns[1..][j]
        {
          assert columns[i + 1] != columns[j + 1];
        }
      }
      forall i | 0 <= i < |columns|
        ensures r[columns[i]] == values[i]
      {
        if i > 0 {
          assert columns[i] == columns[1..][i - 1];
        }
      }
    }
  }

  /** `UPDATE ... SET columns = params[..n] WHERE id = params[n]`, after
      interpolation succeeded. A missing id matches no row. */
  function ExecUpdate(t: Table, columns: seq<string>, params: seq<Value>, check: Check): (r: Result<Executed, string>)
    requires |params| == |columns| + 1 && params[|columns|].Int?
    ensures var id := params[|columns|].number;
      && (r.Success? && r.value.rowcount == 0 <==> id !in t.rows)
      && (r.Success? && r.value.rowcount == 0 ==> r.value.table == t)
      && (r.Success? ==>
            && r.value.rowcount <= 1
            && r.value.table.nextId == t.nextId
            && r.value.table.rows.Keys == t.rows.Keys
            && (forall k :: k in t.rows && k != id ==> r.value.table.rows[k] == t.rows[k]))
      && (r.Success? && r.value.rowcount == 1 ==>
            r.value.table.rows[id] == Assign(t.rows[id], columns, params[..|columns|]))
      && (r.Failure? ==> id in t.rows && check(Assign(t.rows[id], columns, params[..|columns|])) == Some(r.error))
  {
    var id := params[|columns|].number;
    if id !in t.rows then Success(Executed(t, 0))
    else
      var row := Assign(t.rows[id], columns, params[..|columns|]);
      match check(row)
      case Some(e) => Failure(e)
      case None => Success(Executed(Table(t.rows[id := row], t.nextId), 1))
  }

  /** `DELETE FROM table WHERE id = %s`. */
  function ExecDelete(t: Table, id: int): (r: Executed)
    ensures r.rowcount == 1 <==> id in t.rows
    ensures r.rowcount <= 1
    ensures r.table.rows == t.rows - {id} && r.table.nextId == t.nextId
  {
    if id in t.rows then Executed(Table(t.rows - {id}, t.nextId), 1)
    else Executed(t, 0)
  }
}
