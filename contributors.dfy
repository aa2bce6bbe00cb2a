/**
 * The contributors table of a README: an HTML table with id `contributors`
 * whose rows are field categories (`info_avatar`, `info_name`,
 * `info_commit`) and whose cells carry the contributor's key as their id.
 * The table arrives already parsed; every attribute and nested element the
 * reader touches may be absent, and touching an absent one raises.
 */
module Contributors {
  import opened Wrappers
  import opened Text

  /** `<img src=…>` */
  datatype Image = Image(src: Option<string>)
  /** The first `<a>` of a cell: its `href`, its first `<img>`, its text, the text of its first `<span>`. */
  datatype Anchor = Anchor(href: Option<string>, img: Option<Image>, text: string, span: Option<string>)
  /** `<td id=…>` with its first `<a>`. */
  datatype Cell = Cell(id: Option<string>, anchor: Option<Anchor>)
  /** `<tr id=…>` with its `<td>` cells. */
  datatype Row = Row(id: Option<string>, cells: seq<Cell>)
  /** `<table id=…>` with its `<tr>` rows. */
  datatype Table = Table(id: Option<string>, rows: seq<Row>)

  /** A contributor record: its key and four fields, unset until a row sets them. */
  datatype Contributor = Contributor(key: string, name: Option<string>, role: Option<string>,
                                     avatarUrl: Option<string>, url: Option<string>)

  /** Why a read raised: an absent attribute or element, or a lookup of a key never recorded. */
  datatype Fault =
    | MissingTableId | MissingCellId | MissingRowId | UnknownKey
    | MissingAnchor | MissingHref | MissingImage | MissingSrc | MissingSpan

  /** The dictionary being built: its keys in insertion order and the records by key. */
  datatype Roster = Roster(order: seq<string>, records: map<string, Contributor>)

  /** What the reader produces: no contributors table, a roster, or a raised fault. */
  datatype Outcome = NoTable | Parsed(roster: Roster) | Crash(fault: Fault)

  /** One cell together with the id of the row it stands in. */
  datatype Entry = Entry(rowId: Option<string>, cell: Cell)

  const TableId: string := "contributors"
  const AvatarRow: string := "info_avatar"
  const NameRow: string := "info_name"
  const CommitRow: string := "info_commit"

  const EmptyRoster: Roster := Roster([], map[])

  function NewContributor(key: string): Contributor {
    Contributor(key, None, None, None, None)
  }

  /** Insertion order lists each key once, lists exactly the keys, and each record knows its key. */
  ghost predicate Valid(r: Roster) {
    (forall i, j :: 0 <= i < j < |r.order| ==> r.order[i] != r.order[j]) &&
    (forall k :: k in r.records <==> k in r.order) &&
    (forall k :: k in r.records ==> r.records[k].key == k)
  }

  /**
   * One cell of one row: record the key the first time it is seen (an empty
   * key is never recorded), then set the fields that the row's category names.
   */
  function AddCell(r: Roster, e: Entry): Result<Roster, Fault> {
    match e.cell.id
    case None => Err(MissingCellId)
    case Some(key) =>
      var r1 := if key != "" && key !in r.records
                then Roster(r.order + [key], r.records[key := NewContributor(key)])
                else r;
      match e.rowId
      case None => Err(MissingRowId)
      case Some(category) =>
        if category == AvatarRow || category == NameRow || category == CommitRow then
          if key !in r1.records then Err(UnknownKey)
          else if e.cell.anchor.None? then Err(MissingAnchor)
          else
            var a := e.cell.anchor.value;
            var c := r1.records[key];
            if category == AvatarRow then
              if a.href.None? then Err(MissingHref)
              else if a.img.None? then Err(MissingImage)
              else if a.img.value.src.None? then Err(MissingSrc)
              else Ok(Roster(r1.order, r1.records[key := c.(url := a.href, avatarUrl := a.img.value.src)]))
            else if category == NameRow then
              Ok(Roster(r1.order, r1.records[key := c.(name := Some(Strip(a.text)))]))
            else
              if a.span.None? then Err(MissingSpan)
              else Ok(Roster(r1.order, r1.records[key := c.(role := a.span)]))
        else Ok(r1)
  }

  /** The cells in row-major order, each paired with its row's id. */
  function Entries(rows: seq<Row>): seq<Entry>
    decreases |rows|
  {
    if rows == [] then [] else Entries(rows[..|rows| - 1]) + RowEntries(rows[|rows| - 1])
  }

  function RowEntries(row: Row): seq<Entry> {
    seq(|row.cells|, j requires 0 <= j < |row.cells| => Entry(row.id, row.cells[j]))
  }

  /** The cells applied one after another; the first fault stops everything. */
  function Fold(r: Roster, es: seq<Entry>): Result<Roster, Fault>
    decreases |es|
  {
    if es == [] then Ok(r)
    else match Fold(r, es[..|es| - 1])
      case Err(f) => Err(f)
      case Ok(r') => AddCell(r', es[|es| - 1])
  }

  function ParseTable(t: Table): Result<Roster, Fault> {
    Fold(EmptyRoster, Entries(t.rows))
  }

  /** The first table whose id is `contributors`; reading a table without an id raises. */
  function FindTable(tables: seq<Table>): (found: Result<Option<Table>, Fault>)
    ensures found.Ok? && found.value.Some? ==> found.value.value in tables && found.value.value.id == Some(TableId)
    ensures found.Ok? && found.value.None? ==> forall t :: t in tables ==> t.id.Some? && t.id.value != TableId
    ensures found.Err? ==> found.error == MissingTableId && exists t :: t in tables && t.id.None?
    decreases |tables|
  {
    if tables == [] then Ok(None)
    else match tables[0].id
      case None => Err(MissingTableId)
      case Some(id) => if id == TableId then Ok(Some(tables[0])) else FindTable(tables[1..])
  }

  /** The reader: the first `contributors` table, read to the end, or the fault that stopped it. */
  function ParseContributors(tables: seq<Table>): (outcome: Outcome)
    ensures outcome.Parsed? ==> exists t :: t in tables && t.id == Some(TableId) && ParseTable(t) == Ok(outcome.roster)
    ensures outcome.NoTable? ==> forall t :: t in tables ==> t.id.Some? && t.id.value != TableId
  {
    match FindTable(tables)
    case Err(f) => Crash(f)
    case Ok(None) => NoTable
    case Ok(Some(t)) =>
      match ParseTable(t)
      case Err(f) => Crash(f)
      case Ok(r) => Parsed(r)
  }

  /** The records in insertion order, as the contributors box receives them. */
  function Values(r: Roster): (cs: seq<Contributor>)
    requires Valid(r)
    ensures |cs| == |r.order|
    ensures forall i :: 0 <= i < |cs| ==> cs[i].key == r.order[i] && cs[i] in r.records.Values
    ensures forall k :: k in r.records ==> r.records[k] in cs
  {
    seq(|r.order|, i requires 0 <= i < |r.order| => r.records[r.order[i]])
  }

  /**
   * The body of the inner loop for one cell: record the key if it is new
   * and non-empty, then set the fields the row's category names, raising
   * where the source's attribute or element access would raise.
   */
  method ReadCell(order: seq<string>, records: map<string, Contributor>, rowId: Option<string>, cell: Cell)
    returns (order': seq<string>, records': map<string, Contributor>, fault: Option<Fault>)
    ensures fault.None? ==> AddCell(Roster(order, records), Entry(rowId, cell)) == Ok(Roster(order', records'))
    ensures fault.Some? ==> AddCell(Roster(order, records), Entry(rowId, cell)) == Err(fault.value)
  {
    order', records', fault := order, records, None;
    if cell.id.None? {
      fault := Some(MissingCellId);
      return;
    }
    var key := cell.id.value;
    if key != "" && key !in records' {
      order' := order' + [key];
      records' := records'[key := NewContributor(key)];
    }
    if rowId.None? {
      fault := Some(MissingRowId);
      return;
    }
    var category := rowId.value;
    if category == AvatarRow || category == NameRow || category == CommitRow {
      if key !in records' {
        fault := Some(UnknownKey);
        return;
      }
      if cell.anchor.None? {
        fault := Some(MissingAnchor);
        return;
      }
      var a := cell.anchor.value;
      ghost var c := records'[key];
      ghost var base := records';
      if category == AvatarRow {
        if a.href.None? {
          fault := Some(MissingHref);
          return;
        }
        records' := records'[key := records'[key].(url := a.href)];
        if a.img.None? {
          fault := Some(MissingImage);
          return;
        }
        if a.img.value.src.None? {
          fault := Some(MissingSrc);
          return;
        }
        records' := records'[key := records'[key].(avatarUrl := a.img.value.src)];
        assert records' == base[key := c.(url := a.href, avatarUrl := a.img.value.src)];
      } else if category == NameRow {
        records' := records'[key := records'[key].(name := Some(Strip(a.text)))];
      } else {
        if a.span.None? {
          fault := Some(MissingSpan);
          return;
        }
        records' := records'[key := records'[key].(role := a.span)];
      }
    }
  }

  /**
   * The reader: scan the tables for the first one with id `contributors`,
   * fold its rows and cells into the dictionary, and stop at that table.
   */
  method ReadContributors(tables: seq<Table>) returns (outcome: Outcome)
    ensures outcome == ParseContributors(tables)
  {
    outcome := NoTable;
    var t := 0;
    while t < |tables|
      invariant 0 <= t <= |tables|
      invariant FindTable(tables[t..]) == FindTable(tables)
    {
      var table := tables[t];
      if table.id.None? {
        return Crash(MissingTableId);
      }
      if table.id.value == TableId {
        assert FindTable(tables) == Ok(Some(table));
        var rows := table.rows;
        var order: seq<string> := [];
        var records: map<string, Contributor> := map[];
        var i := 0;
        while i < |rows|
          invariant 0 <= i <= |rows|
          invariant Fold(EmptyRoster, Entries(rows[..i])) == Ok(Roster(order, records))
        {
          var row := rows[i];
          var j := 0;
          assert Entries(rows[..i]) + RowEntries(row)[..0] == Entries(rows[..i]);
          while j < |row.cells|
            invariant 0 <= j <= |row.cells|
            invariant Fold(EmptyRoster, Entries(rows[..i]) + RowEntries(row)[..j]) == Ok(Roster(order, records))
          {
            var fault;
            order, records, fault := ReadCell(order, records, row.id, row.cells[j]);
            FoldStep(rows, i, j);
            if fault.Some? {
              CrashStopsTable(rows, i, j);
              return Crash(fault.value);
            }
            j := j + 1;
          }
          EntriesStep(rows, i);
          i := i + 1;
        }
        assert rows[..i] == rows;
        outcome := Parsed(Roster(order, records));
        break;
      }
      assert tables[t..][1..] == tables[t + 1..];
      t := t + 1;
    }
  }

  /** The folded prefix grows by the next cell of row i. */
  lemma FoldStep(rows: seq<Row>, i: nat, j: nat)
    requires i < |rows| && j < |rows[i].cells|
    ensures Fold(EmptyRoster, Entries(rows[..i]) + RowEntries(rows[i])[..j + 1])
         == match Fold(EmptyRoster, Entries(rows[..i]) + RowEntries(rows[i])[..j])
            case Err(f) => Err(f)
            case Ok(r) => AddCell(r, Entry(rows[i].id, rows[i].cells[j]))
  {
    var es := Entries(rows[..i]) + RowEntries(rows[i])[..j + 1];
    assert es[..|es| - 1] == Entries(rows[..i]) + RowEntries(rows[i])[..j];
  }

  /** All cells of row i read: the folded prefix is the rows up to i + 1. */
  lemma EntriesStep(rows: seq<Row>, i: nat)
    requires i < |rows|
    ensures Entries(rows[..i + 1]) == Entries(rows[..i]) + RowEntries(rows[i])[..|rows[i].cells|]
  {
    assert rows[..i + 1][..i] == rows[..i];
    assert RowEntries(rows[i])[..|rows[i].cells|] == RowEntries(rows[i]);
  }

  /** A prefix of the rows yields a prefix of the entries. */
  lemma {:induction false} EntriesPrefix(rows: seq<Row>, n: nat)
    requires n <= |rows|
    ensures |Entries(rows[..n])| <= |Entries(rows)|
    ensures Entries(rows)[..|Entries(rows[..n])|] == Entries(rows[..n])
    decreases |rows| - n
  {
    if n < |rows| {
      EntriesPrefix(rows, n + 1);
      assert rows[..n + 1][..n] == rows[..n];
      var big := Entries(rows[..n + 1]);
      assert big == Entries(rows[..n]) + RowEntries(rows[n]);
      assert Entries(rows)[..|big|] == big;
      assert big[..|Entries(rows[..n])|] == Entries(rows[..n]);
    } else {
      assert rows[..n] == rows;
    }
  }

  /** The number of cells of all rows. */
  function CellCount(rows: seq<Row>): nat
    decreases |rows|
  {
    if rows == [] then 0 else CellCount(rows[..|rows| - 1]) + |rows[|rows| - 1].cells|
  }

  /** One entry per cell. */
  lemma {:induction false} EntriesLength(rows: seq<Row>)
    ensures |Entries(rows)| == CellCount(rows)
    decreases |rows|
  {
    if rows != [] {
      EntriesLength(rows[..|rows| - 1]);
    }
  }

  /**
   * The entries are the cells in row-major order: cell j of row i stands
   * after all cells of the rows before it, paired with the id of row i.
   */
  lemma {:induction false} EntriesRowMajor(rows: seq<Row>, i: nat, j: nat)
    requires i < |rows| && j < |rows[i].cells|
    ensures CellCount(rows[..i]) + j < |Entries(rows)|
    ensures Entries(rows)[CellCount(rows[..i]) + j] == Entry(rows[i].id, rows[i].cells[j])
    decreases |rows|
  {
    var init := rows[..|rows| - 1];
    var last := RowEntries(rows[|rows| - 1]);
    assert Entries(rows) == Entries(init) + last;
    if i < |init| {
      assert rows[..i] == init[..i];
      assert rows[i] == init[i];
      EntriesRowMajor(init, i, j);
    } else {
      assert rows[..i] == init;
      EntriesLength(init);
      assert last[j] == Entry(rows[i].id, rows[i].cells[j]);
    }
  }

  /** Once a prefix of the cells raises, the whole fold raises the same fault. */
  lemma {:induction false} FaultIsFinal(r: Roster, es: seq<Entry>, k: nat)
    requires k <= |es| && Fold(r, es[..k]).Err?
    ensures Fold(r, es) == Fold(r, es[..k])
    decreases |es| - k
  {
    if k < |es| {
      assert es[..k + 1][..k] == es[..k];
      FaultIsFinal(r, es, k + 1);
    } else {
      assert es[..k] == es;
    }
  }

  /** A fault raised at cell j of row i is the fault of the whole table. */
  lemma CrashStopsTable(rows: seq<Row>, i: nat, j: nat)
    requires i < |rows| && j < |rows[i].cells|
    requires Fold(EmptyRoster, Entries(rows[..i]) + RowEntries(rows[i])[..j + 1]).Err?
    ensures Fold(EmptyRoster, Entries(rows))
         == Fold(EmptyRoster, Entries(rows[..i]) + RowEntries(rows[i])[..j + 1])
  {
    var done := Entries(rows[..i]) + RowEntries(rows[i])[..j + 1];
    EntriesPrefix(rows, i + 1);
    EntriesStep(rows, i);
    var all := Entries(rows);
    var upto := Entries(rows[..i + 1]);
    assert all[..|upto|] == upto;
    assert upto[..|done|] == done;
    assert all[..|done|] == done;
    FaultIsFinal(EmptyRoster, all, |done|);
  }
}
