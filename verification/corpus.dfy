/** Corpus assembly of the RAG pipeline: one document per relational row,
    one per markdown file tagged with its top-level folder, and the two
    lists concatenated before chunking. */
module Corpus {
  import opened Text

  /** A LangChain document: its text and its metadata. */
  datatype Document = Document(content: string, metadata: map<string, string>)

  /** A public table as the loader fetches it: its name, its column names and
      its rows, each cell as `str(val)` renders it in an f-string. */
  datatype PgTable = PgTable(name: string, columns: seq<string>, rows: seq<seq<string>>)

  /** A top-level folder of the knowledge base with the documents the
      directory loader read from it. */
  datatype Folder = Folder(path: string, docs: seq<Document>)

  /** The documents of several groups, group after group. */
  function Flatten(groups: seq<seq<Document>>): (r: seq<Document>)
    ensures |r| == Count(groups)
  {
    if |groups| == 0 then [] else groups[0] + Flatten(groups[1..])
  }

  /** The number of documents in all groups. */
  function Count(groups: seq<seq<Document>>): nat
  {
    if |groups| == 0 then 0 else |groups[0]| + Count(groups[1..])
  }

  lemma {:induction false} FlattenAppend(groups: seq<seq<Document>>, g: seq<Document>)
    ensures Flatten(groups + [g]) == Flatten(groups) + g
    decreases |groups|
  {
    if |groups| == 0 {
      assert groups + [g] == [g];
    } else {
      assert (groups + [g])[1..] == groups[1..] + [g];
      FlattenAppend(groups[1..], g);
    }
  }

  /** Document `i` of group `k` sits after all documents of groups `..k`:
      nothing is dropped or reordered. */
  lemma {:induction false} FlattenAt(groups: seq<seq<Document>>, k: nat, i: nat)
    requires k < |groups| && i < |groups[k]|
    ensures Count(groups[..k]) + i < |Flatten(groups)|
    ensures Flatten(groups)[Count(groups[..k]) + i] == groups[k][i]
    decreases k
  {
    if k > 0 {
      assert groups[..k][1..] == groups[1..][..k - 1];
      FlattenAt(groups[1..], k - 1, i);
    }
  }

  const PgSource := "postgresql"

  /** `f"{col}: {val}"`: the name, a colon and a space, then the value; it
      holds a line break only if the name or the value does. */
  function Pair(col: string, val: string): (r: string)
    ensures |r| == |col| + 2 + |val|
    ensures r[..|col|] == col && r[|col|..|col| + 2] == ": " && r[|col| + 2..] == val
    ensures '\n' !in col && '\n' !in val ==> '\n' !in r
  {
    col + ": " + val
  }

  /** The pairs `zip(colnames, row)` yields, rendered; `zip` stops at the
      shorter of the two. */
  function Pairs(columns: seq<string>, row: seq<string>): (r: seq<string>)
    ensures |r| == if |columns| < |row| then |columns| else |row|
    ensures forall i :: 0 <= i < |r| ==> r[i] == Pair(columns[i], row[i])
  {
    var n := if |columns| < |row| then |columns| else |row|;
    seq(n, i requires 0 <= i < n => Pair(columns[i], row[i]))
  }

  /** The content of a row's document. */
  function RowContent(columns: seq<string>, row: seq<string>): string
  {
    Join(Pairs(columns, row), "\n")
  }

  /** When neither names nor values hold a line break, the content's lines
      are exactly the `col: val` pairs, in column order. */
  lemma RowContentLines(columns: seq<string>, row: seq<string>)
    requires |columns| > 0 && |row| > 0
    requires forall i :: 0 <= i < |columns| ==> '\n' !in columns[i]
    requires forall i :: 0 <= i < |row| ==> '\n' !in row[i]
    ensures Split(RowContent(columns, row), '\n') == Pairs(columns, row)
  {
    var pairs := Pairs(columns, row);
    forall i | 0 <= i < |pairs|
      ensures '\n' !in pairs[i]
    {
      assert pairs[i] == columns[i] + ": " + row[i];
    }
    SplitJoin(pairs, '\n');
  }

  /** The document of one row of `table`. */
  function RowDocument(table: PgTable, row: seq<string>): (d: Document)
    ensures d.metadata.Keys == {"source", "doc_type"}
    ensures d.metadata["source"] == PgSource && d.metadata["doc_type"] == table.name
  {
    Document(RowContent(table.columns, row), map["source" := PgSource, "doc_type" := table.name])
  }

  /** One document per row of the table, in fetch order. */
  function TableDocs(table: PgTable): (r: seq<Document>)
    ensures |r| == |table.rows|
    ensures forall i :: 0 <= i < |r| ==> r[i] == RowDocument(table, table.rows[i])
  {
    seq(|table.rows|, i requires 0 <= i < |table.rows| => RowDocument(table, table.rows[i]))
  }

  function TableGroups(tables: seq<PgTable>): (r: seq<seq<Document>>)
    ensures |r| == |tables|
    ensures forall k :: 0 <= k < |tables| ==> r[k] == TableDocs(tables[k])
  {
    seq(|tables|, k requires 0 <= k < |tables| => TableDocs(tables[k]))
  }

  /** The number of rows of all tables. */
  function TotalRows(tables: seq<PgTable>): nat
  {
    if |tables| == 0 then 0 else |tables[0].rows| + TotalRows(tables[1..])
  }

  lemma {:induction false} CountTableGroups(tables: seq<PgTable>)
    ensures Count(TableGroups(tables)) == TotalRows(tables)
    decreases |tables|
  {
    if |tables| > 0 {
      assert TableGroups(tables)[1..] == TableGroups(tables[1..]);
      CountTableGroups(tables[1..]);
    }
  }

  /** The store documents: tables in catalog order, rows in fetch order. */
  function PgDocs(tables: seq<PgTable>): seq<Document>
  {
    Flatten(TableGroups(tables))
  }

  /** One document per row: the store contributes exactly as many documents
      as all tables have rows, and a table without rows contributes none. */
  lemma PgDocsCount(tables: seq<PgTable>)
    ensures |PgDocs(tables)| == TotalRows(tables)
  {
    CountTableGroups(tables);
  }

  /** Row `i` of table `k` becomes the document at the position after every
      row of the earlier tables, with that row's content and metadata. */
  lemma PgDocAt(tables: seq<PgTable>, k: nat, i: nat)
    requires k < |tables| && i < |tables[k].rows|
    ensures TotalRows(tables[..k]) + i < |PgDocs(tables)|
    ensures var d := PgDocs(tables)[TotalRows(tables[..k]) + i];
      && d.content == RowContent(tables[k].columns, tables[k].rows[i])
      && d.metadata == map["source" := PgSource, "doc_type" := tables[k].name]
  {
    var groups := TableGroups(tables);
    assert groups[..k] == TableGroups(tables[..k]);
    CountTableGroups(tables[..k]);
    FlattenAt(groups, k, i);
  }

  /** `load_postgres_documents` over fetched tables: the nested loops append
      one document per row. */
  method LoadPostgresDocuments(tables: seq<PgTable>) returns (docs: seq<Document>)
    ensures docs == PgDocs(tables)
    ensures |docs| == TotalRows(tables)
  {
    docs := [];
    for k := 0 to |tables|
      invariant docs == Flatten(TableGroups(tables)[..k])
    {
      var table := tables[k];
      for i := 0 to |table.rows|
        invariant docs == Flatten(TableGroups(tables)[..k]) + TableDocs(table)[..i]
      {
        docs := docs + [RowDocument(table, table.rows[i])];
        assert TableDocs(table)[..i + 1] == TableDocs(table)[..i] + [RowDocument(table, table.rows[i])];
      }
      assert TableGroups(tables)[..k + 1] == TableGroups(tables)[..k] + [TableDocs(table)];
      FlattenAppend(TableGroups(tables)[..k], TableDocs(table));
    }
    assert TableGroups(tables)[..|tables|] == TableGroups(tables);
    PgDocsCount(tables);
  }

  /** `add_metadata`: only the `doc_type` entry is set. */
  function AddMetadata(doc: Document, docType: string): (r: Document)
    ensures r.content == doc.content
    ensures r.metadata.Keys == doc.metadata.Keys + {"doc_type"}
    ensures r.metadata["doc_type"] == docType
    ensures forall key :: key in doc.metadata && key != "doc_type" ==> r.metadata[key] == doc.metadata[key]
  {
    Document(doc.content, doc.metadata["doc_type" := docType])
  }

  /** The documents of one folder, each tagged with the folder's base name. */
  function FolderDocs(folder: Folder): (r: seq<Document>)
    ensures |r| == |folder.docs|
    ensures forall i :: 0 <= i < |r| ==> r[i] == AddMetadata(folder.docs[i], Basename(folder.path))
  {
    seq(|folder.docs|, i requires 0 <= i < |folder.docs| => AddMetadata(folder.docs[i], Basename(folder.path)))
  }

  function FolderGroups(folders: seq<Folder>): (r: seq<seq<Document>>)
    ensures |r| == |folders|
    ensures forall k :: 0 <= k < |folders| ==> r[k] == FolderDocs(folders[k])
  {
    seq(|folders|, k requires 0 <= k < |folders| => FolderDocs(folders[k]))
  }

  /** The file documents: folders in glob order, each folder's documents in
      load order. */
  function MdDocs(folders: seq<Folder>): seq<Document>
  {
    Flatten(FolderGroups(folders))
  }

  /** Document `i` of folder `k` is tagged with that folder's base name, which
      for `knowledge_base/<name>` is `<name>`, and keeps its other metadata. */
  lemma MdDocAt(folders: seq<Folder>, k: nat, i: nat)
    requires k < |folders| && i < |folders[k].docs|
    ensures var groups := FolderGroups(folders);
      && Count(groups[..k]) + i < |MdDocs(folders)|
      && MdDocs(folders)[Count(groups[..k]) + i] == AddMetadata(folders[k].docs[i], Basename(folders[k].path))
    ensures forall name :: '/' !in name && folders[k].path == "knowledge_base/" + name ==>
      Basename(folders[k].path) == name
  {
    FlattenAt(FolderGroups(folders), k, i);
    forall name | '/' !in name && folders[k].path == "knowledge_base/" + name
      ensures Basename(folders[k].path) == name
    {
      assert "knowledge_base/" + name == "knowledge_base" + "/" + name;
      BasenameOfChild("knowledge_base", name);
    }
  }

  /** `load_markdown_documents` over loaded folders. */
  method LoadMarkdownDocuments(folders: seq<Folder>) returns (docs: seq<Document>)
    ensures docs == MdDocs(folders)
  {
    docs := [];
    for k := 0 to |folders|
      invariant docs == Flatten(FolderGroups(folders)[..k])
    {
      docs := docs + FolderDocs(folders[k]);
      assert FolderGroups(folders)[..k + 1] == FolderGroups(folders)[..k] + [FolderDocs(folders[k])];
      FlattenAppend(FolderGroups(folders)[..k], FolderDocs(folders[k]));
    }
    assert FolderGroups(folders)[..|folders|] == FolderGroups(folders);
  }

  /** `postgres_docs + md_docs`: every store document, then every file
      document, nothing dropped or reordered. */
  function AllDocs(tables: seq<PgTable>, folders: seq<Folder>): (r: seq<Document>)
    ensures |r| == TotalRows(tables) + Count(FolderGroups(folders))
    ensures r[..TotalRows(tables)] == PgDocs(tables)
    ensures r[TotalRows(tables)..] == MdDocs(folders)
    ensures forall i :: 0 <= i < TotalRows(tables) ==> "source" in r[i].metadata && r[i].metadata["source"] == PgSource
  {
    PgDocsCount(tables);
    var pg := PgDocs(tables);
    assert forall i :: 0 <= i < |pg| ==> "source" in pg[i].metadata && pg[i].metadata["source"] == PgSource by {
      forall i | 0 <= i < |pg|
        ensures "source" in pg[i].metadata && pg[i].metadata["source"] == PgSource
      {
        PgDocIsRowDocument(tables, i);
      }
    }
    pg + MdDocs(folders)
  }

  /** Every store document is the document of some row of some table. */
  lemma {:induction false} PgDocIsRowDocument(tables: seq<PgTable>, j: nat)
    requires j < |PgDocs(tables)|
    ensures exists k, i ::
      0 <= k < |tables| && 0 <= i < |tables[k].rows| && PgDocs(tables)[j] == RowDocument(tables[k], tables[k].rows[i])
    decreases |tables|
  {
    var groups := TableGroups(tables);
    assert |tables| > 0;
    assert PgDocs(tables) == TableDocs(tables[0]) + PgDocs(tables[1..]) by {
      assert groups[1..] == TableGroups(tables[1..]);
    }
    if j < |tables[0].rows| {
      assert PgDocs(tables)[j] == RowDocument(tables[0], tables[0].rows[j]);
    } else {
      PgDocIsRowDocument(tables[1..], j - |tables[0].rows|);
      var k, i :| 0 <= k < |tables[1..]| && 0 <= i < |tables[1..][k].rows| &&
        PgDocs(tables[1..])[j - |tables[0].rows|] == RowDocument(tables[1..][k], tables[1..][k].rows[i]);
      assert tables[1..][k] == tables[k + 1];
    }
  }
}
