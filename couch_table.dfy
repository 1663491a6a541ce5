/**
 * Couch::Row (couchdb/row.rb) and Couch::Table (couchdb/table.rb): the rows
 * of a stored query's result, each a hash of column values with the id of
 * the document it came from.
 */
module CouchTable {
  import opened Wrappers
  import opened Text
  import opened CouchXml
  import opened CouchUtils
  import OrderedHash

  /** The column values of a row: column name to value, in insertion order. */
  type Entries = seq<(string, Datum)>

  /** One `"   key = value\n"` line of Row#to_s. */
  function EntryLine(key: string, value: Datum, show: Datum -> string): string {
    "   " + key + " = " + show(value) + "\n"
  }

  /** The lines of every entry, in order. */
  function EntryLines(entries: Entries, show: Datum -> string): string
    decreases |entries|
  {
    if |entries| == 0 then ""
    else EntryLines(entries[..|entries| - 1], show) + EntryLine(entries[|entries| - 1].0, entries[|entries| - 1].1, show)
  }

  /** Row#to_s: the id line, then one line per entry. */
  function RowText(id: Option<string>, entries: Entries, show: Datum -> string): string {
    id.GetOr("") + ":\n" + EntryLines(entries, show)
  }

  /** The text starts with the id line, and an empty row is that line alone. */
  lemma RowTextHeader(id: Option<string>, entries: Entries, show: Datum -> string)
    ensures StartsWith(RowText(id, entries, show), id.GetOr("") + ":\n")
    ensures |entries| == 0 ==> RowText(id, entries, show) == id.GetOr("") + ":\n"
  {
    var header := id.GetOr("") + ":\n";
    assert RowText(id, entries, show)[..|header|] == header;
  }

  /** One more entry adds its line at the end. */
  lemma RowTextSnoc(id: Option<string>, entries: Entries, key: string, value: Datum, show: Datum -> string)
    ensures RowText(id, entries + [(key, value)], show) == RowText(id, entries, show) + EntryLine(key, value, show)
  {
    assert (entries + [(key, value)])[..|entries|] == entries;
  }

  /** When no id, key or rendered value holds a newline, the text has one line per entry plus the id line. */
  lemma {:induction false} RowTextLines(id: Option<string>, entries: Entries, show: Datum -> string)
    requires CountChar(id.GetOr(""), '\n') == 0
    requires forall i :: 0 <= i < |entries| ==> CountChar(entries[i].0, '\n') == 0 && CountChar(show(entries[i].1), '\n') == 0
    ensures CountChar(RowText(id, entries, show), '\n') == |entries| + 1
    decreases |entries|
  {
    if |entries| == 0 {
      CountCharAppend(id.GetOr(""), ":\n", '\n');
      assert RowText(id, entries, show) == id.GetOr("") + ":\n";
      assert ":\n" == ":" + "\n";
      CountCharAppend(":", "\n", '\n');
      assert CountChar("\n", '\n') == 1 + CountChar("", '\n');
    } else {
      var init, last := entries[..|entries| - 1], entries[|entries| - 1];
      RowTextLines(id, init, show);
      RowTextSnoc(id, init, last.0, last.1, show);
      assert init + [last] == entries;
      var line := EntryLine(last.0, last.1, show);
      CountCharAppend(RowText(id, init, show), line, '\n');
      assert line == ("   " + last.0) + (" = " + show(last.1)) + "\n";
      CountCharAppend("   " + last.0, " = " + show(last.1), '\n');
      CountCharAppend("   ", last.0, '\n');
      CountCharAppend(" = ", show(last.1), '\n');
      CountCharAppend(("   " + last.0) + (" = " + show(last.1)), "\n", '\n');
      assert CountChar("\n", '\n') == 1 + CountChar("", '\n');
    }
  }

  class Row {
    var id: Option<string>
    var entries: Entries

    /** Couch::Row.new: no id, no entries. */
    constructor ()
      ensures id == None && entries == []
    {
      id := None;
      entries := [];
    }

    /** `id=`: the id is kept apart from the row's entries. */
    method SetId(v: Option<string>)
      modifies this
      ensures id == v && entries == old(entries)
    {
      id := v;
    }

    /** `row[key] = value` (Hash#[]=): the id is left alone. */
    method Store(key: string, value: Datum)
      modifies this
      ensures entries == OrderedHash.Put(old(entries), key, value) && id == old(id)
      ensures OrderedHash.UniqueKeys(old(entries)) ==> OrderedHash.UniqueKeys(entries)
    {
      if OrderedHash.UniqueKeys(entries) {
        OrderedHash.PutUnique(entries, key, value);
      }
      entries := OrderedHash.Put(entries, key, value);
    }

    /** `row[key]` (Hash#[]) */
    function Lookup(key: string): (v: Datum)
      reads this
      ensures key !in OrderedHash.Keys(entries) ==> v == Nil
    {
      OrderedHash.Get(entries, key).GetOr(Nil)
    }

    /** Row#to_s: the id line, then a line per entry appended in order. */
    method ToS(show: Datum -> string) returns (v: string)
      ensures v == RowText(id, entries, show)
    {
      v := id.GetOr("") + ":\n";
      var i := 0;
      while i < |entries|
        invariant 0 <= i <= |entries|
        invariant v == RowText(id, entries[..i], show)
      {
        RowTextSnoc(id, entries[..i], entries[i].0, entries[i].1, show);
        assert entries[..i] + [(entries[i].0, entries[i].1)] == entries[..i + 1];
        v := v + EntryLine(entries[i].0, entries[i].1, show);
        i := i + 1;
      }
      assert entries[..i] == entries;
    }
  }

  /** The entries parse_tr assigns: every child element, by its id attribute, valued by parse_val; later ones overwrite. */
  function CellEntries(cells: seq<Element>, toF: string -> Float): Entries
    decreases |cells|
  {
    if |cells| == 0 then []
    else
      var td := cells[|cells| - 1];
      OrderedHash.Put(CellEntries(cells[..|cells| - 1], toF), AttributeText(td, IdTag), ParsedValue(td, toF))
  }

  /** Some cell among these has id k. */
  predicate HasCell(cells: seq<Element>, k: string) {
    exists i :: 0 <= i < |cells| && AttributeText(cells[i], IdTag) == k
  }

  /** A cell among the first ones is a cell among all of them, and the others are the last one. */
  lemma HasCellSnoc(cells: seq<Element>, k: string)
    requires |cells| > 0
    ensures HasCell(cells, k) <==> HasCell(cells[..|cells| - 1], k) || AttributeText(cells[|cells| - 1], IdTag) == k
  {
    var init, last := cells[..|cells| - 1], |cells| - 1;
    assert forall i :: 0 <= i < last ==> init[i] == cells[i];
    if AttributeText(cells[last], IdTag) == k {
      assert HasCell(cells, k);
    }
  }

  /** Every cell id becomes a column, and no other. */
  lemma {:induction false} CellColumns(cells: seq<Element>, toF: string -> Float)
    ensures forall k :: k in OrderedHash.Keys(CellEntries(cells, toF)) <==> HasCell(cells, k)
    decreases |cells|
  {
    if |cells| > 0 {
      var init := cells[..|cells| - 1];
      var td := cells[|cells| - 1];
      CellColumns(init, toF);
      OrderedHash.KeysPut(CellEntries(init, toF), AttributeText(td, IdTag), ParsedValue(td, toF));
      forall k
        ensures k in OrderedHash.Keys(CellEntries(cells, toF)) <==> HasCell(cells, k)
      {
        HasCellSnoc(cells, k);
      }
    }
  }

  /** The last cell with a given id decides that column's value. */
  lemma LastCellWins(cells: seq<Element>, td: Element, toF: string -> Float)
    ensures OrderedHash.Get(CellEntries(cells + [td], toF), AttributeText(td, IdTag)) == Some(ParsedValue(td, toF))
  {
    assert (cells + [td])[..|cells|] == cells;
    OrderedHash.GetPut(CellEntries(cells, toF), AttributeText(td, IdTag), ParsedValue(td, toF), AttributeText(td, IdTag));
  }

  /** One more cell is one more assignment. */
  lemma CellEntriesStep(cells: seq<Element>, i: nat, toF: string -> Float)
    requires i < |cells|
    ensures CellEntries(cells[..i + 1], toF) ==
      OrderedHash.Put(CellEntries(cells[..i], toF), AttributeText(cells[i], IdTag), ParsedValue(cells[i], toF))
  {
    assert cells[..i + 1][..i] == cells[..i];
  }

  /** parse_tr: a new row with the tr's id, then one assignment per child element. */
  method ParseTr(rowxml: Element, toF: string -> Float) returns (row: Row)
    ensures fresh(row)
    ensures row.id == Some(AttributeText(rowxml, IdTag))
    ensures row.entries == CellEntries(rowxml.children, toF)
  {
    row := new Row();
    row.SetId(Some(AttributeText(rowxml, IdTag)));
    var i := 0;
    while i < |rowxml.children|
      invariant 0 <= i <= |rowxml.children|
      invariant row.id == Some(AttributeText(rowxml, IdTag))
      invariant row.entries == CellEntries(rowxml.children[..i], toF)
    {
      var td := rowxml.children[i];
      CellEntriesStep(rowxml.children, i, toF);
      var val := ParseVal(td, toF);
      row.Store(AttributeText(td, IdTag), val);
      i := i + 1;
    }
    assert rowxml.children[..i] == rowxml.children;
  }

  /** The tr elements parse_table turns into rows: the table root's children named tr, in document order. */
  function RowElements(root: Element): (trs: seq<Element>)
    ensures forall i :: 0 <= i < |trs| ==> trs[i].name == TrTag
    ensures root.name != TableTag ==> trs == []
  {
    if root.name == TableTag then TrChildren(root.children) else []
  }

  function TrChildren(children: seq<Element>): (trs: seq<Element>)
    ensures |trs| <= |children|
    ensures forall i :: 0 <= i < |trs| ==> trs[i].name == TrTag
    ensures forall e :: e in children && e.name == TrTag ==> e in trs
    ensures forall e :: e in trs ==> e in children
    decreases |children|
  {
    if |children| == 0 then []
    else
      var last := children[|children| - 1];
      TrChildren(children[..|children| - 1]) + (if last.name == TrTag then [last] else [])
  }

  /** Selecting the tr children keeps document order: it distributes over concatenation, one child at a time. */
  lemma {:induction false} TrChildrenAppend(a: seq<Element>, b: seq<Element>)
    ensures TrChildren(a + b) == TrChildren(a) + TrChildren(b)
    decreases |b|
  {
    if |b| == 0 {
      assert a + b == a;
    } else {
      var init := b[..|b| - 1];
      TrChildrenAppend(a, init);
      assert (a + b)[..|a + b| - 1] == a + init;
    }
  }

  /** A single child is kept exactly when it is a tr. */
  lemma TrChildrenSingle(e: Element)
    ensures TrChildren([e]) == if e.name == TrTag then [e] else []
  {
    assert [e][..0] == [];
  }

  /** The input of Table.new. */
  datatype TableInput =
    | NoRows                        // nil
    | RowsInput(rows: seq<Row>)     // an Array of rows
    | XmlTable(root: Element)       // a parsed REXML::Document, by its root element
    | OtherTable(className: string) // anything else

  class Table {
    const name: string
    var rows: seq<Row>
    var id: Option<string>

    constructor (name: string, rows: seq<Row>, id: Option<string>)
      ensures this.name == name && this.rows == rows && this.id == id
    {
      this.name := name;
      this.rows := rows;
      this.id := id;
    }

    /** `size`: the number of rows, which is where `t[ndx]` stops finding one, counting from either end. */
    function Size(): (n: nat)
      reads this
      ensures n == |rows|
      ensures forall ndx :: 0 <= ndx ==> (At(ndx).Some? <==> ndx < n)
      ensures forall ndx :: ndx < 0 ==> (At(ndx).Some? <==> 0 <= ndx + n)
    {
      |rows|
    }

    /** `t[ndx]` (Array#[]): a negative index counts from the end; out of range gives nil. */
    function At(ndx: int): (r: Option<Row>)
      reads this
      ensures 0 <= ndx < |rows| ==> r == Some(rows[ndx])
      ensures -|rows| <= ndx < 0 ==> r == Some(rows[|rows| + ndx])
      ensures (ndx >= |rows| || ndx < -|rows|) <==> r.None?
    {
      var k := if ndx < 0 then ndx + |rows| else ndx;
      if 0 <= k < |rows| then Some(rows[k]) else None
    }
  }

  /** Each row holds what parse_tr reads from the tr element at the same position. */
  ghost predicate RowsRead(rows: seq<Row>, trs: seq<Element>, toF: string -> Float)
    reads rows
  {
    |rows| == |trs| && forall i :: 0 <= i < |rows| ==>
      rows[i].id == Some(AttributeText(trs[i], IdTag)) && rows[i].entries == CellEntries(trs[i].children, toF)
  }

  /** One more row read from the next tr element. */
  lemma RowsReadSnoc(rows: seq<Row>, trs: seq<Element>, i: nat, row: Row, toF: string -> Float)
    requires i < |trs| && RowsRead(rows, trs[..i], toF)
    requires row.id == Some(AttributeText(trs[i], IdTag)) && row.entries == CellEntries(trs[i].children, toF)
    ensures RowsRead(rows + [row], trs[..i + 1], toF)
  {
    var rows', trs' := rows + [row], trs[..i + 1];
    forall k | 0 <= k < |rows'|
      ensures rows'[k].id == Some(AttributeText(trs'[k], IdTag)) && rows'[k].entries == CellEntries(trs'[k].children, toF)
    {
      if k < |rows| {
        assert rows'[k] == rows[k] && trs'[k] == trs[..i][k];
      }
    }
  }

  /** parse_table: the table's id from the root, then one parsed row per tr element, each a new row. */
  method ParseTable(root: Element, toF: string -> Float) returns (rows: seq<Row>, id: string)
    ensures id == AttributeText(root, IdTag)
    ensures RowsRead(rows, RowElements(root), toF)
    ensures forall i :: 0 <= i < |rows| ==> fresh(rows[i])
  {
    id := AttributeText(root, IdTag);
    var trs := RowElements(root);
    rows := [];
    var i := 0;
    while i < |trs|
      invariant 0 <= i <= |trs|
      invariant RowsRead(rows, trs[..i], toF)
      invariant forall k :: 0 <= k < i ==> fresh(rows[k])
    {
      var row := ParseTr(trs[i], toF);
      RowsReadSnoc(rows, trs, i, row, toF);
      rows := rows + [row];
      i := i + 1;
    }
    assert trs[..i] == trs;
  }

  /** Table.new(name, input): nil gives no rows, an Array is used as it is, parsed XML is read, anything else raises TypeError. */
  method NewTable(name: string, input: TableInput, toF: string -> Float) returns (r: Result<Table, CouchError>)
    ensures input.OtherTable? <==> r.Failure?
    ensures input.OtherTable? ==> r.error == TypeError(input.className)
    ensures r.Success? ==> fresh(r.value) && r.value.name == name
    ensures input.NoRows? ==> r.value.rows == [] && r.value.id == None
    ensures input.RowsInput? ==> r.value.rows == input.rows && r.value.id == None
    ensures input.XmlTable? ==>
      && r.value.id == Some(AttributeText(input.root, IdTag))
      && RowsRead(r.value.rows, RowElements(input.root), toF)
  {
    match input
    case NoRows =>
      var t := new Table(name, [], None);
      return Success(t);
    case RowsInput(rows) =>
      var t := new Table(name, rows, None);
      return Success(t);
    case XmlTable(root) =>
      var rows, id := ParseTable(root, toF);
      var t := new Table(name, rows, Some(id));
      return Success(t);
    case OtherTable(className) =>
      return Failure(TypeError(className));
  }
}
