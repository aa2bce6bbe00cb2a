/**
 * What the contributors reader promises, stated without reference to the
 * way it folds the cells: which keys it records and in which order, what
 * each field ends up holding, that no key is ever lost on the way, and
 * which table it reads.
 */
module ContributorFacts {
  import opened Wrappers
  import opened Text
  import opened Contributors

  /** The non-empty cell ids of the entries, in row-major order, repeats kept. */
  function CellKeys(es: seq<Entry>): seq<string>
    decreases |es|
  {
    if es == [] then []
    else CellKeys(es[..|es| - 1]) + KeyOf(es[|es| - 1])
  }

  function KeyOf(e: Entry): seq<string> {
    match e.cell.id
    case Some(k) => if k != "" then [k] else []
    case None => []
  }

  /** Each string of `ks` once, at the place of its first occurrence. */
  function FirstAppearances(ks: seq<string>): seq<string>
    decreases |ks|
  {
    if ks == [] then []
    else
      var p := FirstAppearances(ks[..|ks| - 1]);
      if ks[|ks| - 1] in p then p else p + [ks[|ks| - 1]]
  }

  datatype Field = Name | Role | AvatarUrl | Url

  function Get(c: Contributor, f: Field): Option<string> {
    match f
    case Name => c.name
    case Role => c.role
    case AvatarUrl => c.avatarUrl
    case Url => c.url
  }

  /**
   * The value entry `e` gives to field `f` of contributor `k`, if it gives
   * one: an `info_avatar` cell gives the url and the avatar url, an
   * `info_name` cell the stripped anchor text, an `info_commit` cell the
   * span text; cells of other rows and of other keys give nothing.
   */
  function Written(e: Entry, f: Field, k: string): Option<string> {
    if e.cell.id != Some(k) || e.rowId.None? || e.cell.anchor.None? then None
    else
      var a := e.cell.anchor.value;
      var category := e.rowId.value;
      match f
      case Url => if category == AvatarRow then a.href else None
      case AvatarUrl => if category == AvatarRow && a.img.Some? then a.img.value.src else None
      case Name => if category == NameRow then Some(Strip(a.text)) else None
      case Role => if category == CommitRow then a.span else None
  }

  /** The value of the last entry that gives field `f` of `k` a value. */
  function LastWrite(es: seq<Entry>, f: Field, k: string): Option<string>
    decreases |es|
  {
    if es == [] then None
    else match Written(es[|es| - 1], f, k)
      case Some(v) => Some(v)
      case None => LastWrite(es[..|es| - 1], f, k)
  }

  lemma {:induction false} FirstAppearancesHas(ks: seq<string>, k: string)
    ensures k in FirstAppearances(ks) <==> k in ks
    decreases |ks|
  {
    if ks != [] {
      var init := ks[..|ks| - 1];
      FirstAppearancesHas(init, k);
      assert ks == init + [ks[|ks| - 1]];
    }
  }

  /** What one successful cell does to the keys: the new key, if any, goes at the end. */
  lemma AddCellShape(r: Roster, e: Entry)
    requires AddCell(r, e).Ok?
    ensures e.cell.id.Some?
    ensures var key := e.cell.id.value; var r' := AddCell(r, e).value;
      var isNew := key != "" && key !in r.records;
      r'.order == (if isNew then r.order + [key] else r.order) &&
      r'.records.Keys == (if isNew then r.records.Keys + {key} else r.records.Keys) &&
      (forall k :: k in r'.records ==> r'.records[k].key == if k in r.records then r.records[k].key else k)
  {
  }

  /** One cell keeps the roster consistent and extends the key order as first appearances do. */
  lemma AddCellKeys(r: Roster, e: Entry, ks: seq<string>)
    requires Valid(r) && r.order == FirstAppearances(ks)
    requires AddCell(r, e).Ok?
    ensures Valid(AddCell(r, e).value)
    ensures AddCell(r, e).value.order == FirstAppearances(ks + KeyOf(e))
  {
    AddCellShape(r, e);
    KeyStep(r, AddCell(r, e).value, e.cell.id.value, ks);
    assert KeyOf(e) == if e.cell.id.value != "" then [e.cell.id.value] else [];
  }

  /** The key bookkeeping of one cell, apart from the rest of what the cell does. */
  lemma KeyStep(r: Roster, r': Roster, key: string, ks: seq<string>)
    requires Valid(r) && r.order == FirstAppearances(ks)
    requires var isNew := key != "" && key !in r.records;
      r'.order == (if isNew then r.order + [key] else r.order) &&
      r'.records.Keys == (if isNew then r.records.Keys + {key} else r.records.Keys) &&
      (forall k :: k in r'.records ==> r'.records[k].key == if k in r.records then r.records[k].key else k)
    ensures Valid(r')
    ensures r'.order == FirstAppearances(ks + if key != "" then [key] else [])
  {
    var ks' := ks + if key != "" then [key] else [];
    if key != "" {
      assert ks'[..|ks'| - 1] == ks && ks'[|ks'| - 1] == key;
      FirstAppearancesHas(ks, key);
    } else {
      assert ks' == ks;
    }
  }

  /** One cell never removes a key and only appends to the key order. */
  lemma AddCellGrows(r: Roster, e: Entry)
    requires AddCell(r, e).Ok?
    ensures r.records.Keys <= AddCell(r, e).value.records.Keys
    ensures r.order <= AddCell(r, e).value.order
  {
  }

  /**
   * The keys of a successful read are the distinct non-empty cell ids, in
   * the order of their first appearance (row by row, cell by cell), each
   * mapped to a record that carries it as its key.
   */
  lemma {:induction false} FoldKeys(es: seq<Entry>, r: Roster)
    requires Fold(EmptyRoster, es) == Ok(r)
    ensures Valid(r)
    ensures r.order == FirstAppearances(CellKeys(es))
    decreases |es|
  {
    if es != [] {
      var init := es[..|es| - 1];
      var last := es[|es| - 1];
      var r' := Fold(EmptyRoster, init).value;
      FoldKeys(init, r');
      AddCellKeys(r', last, CellKeys(init));
    }
  }

  /** A cell that raises nothing sets a field exactly when `Written` says so. */
  lemma AddCellFields(r: Roster, e: Entry, k: string, f: Field)
    requires AddCell(r, e).Ok?
    ensures var r' := AddCell(r, e).value;
      (Written(e, f, k).Some? ==> k in r'.records && Get(r'.records[k], f) == Written(e, f, k)) &&
      (Written(e, f, k).None? && k in r.records ==> k in r'.records && Get(r'.records[k], f) == Get(r.records[k], f)) &&
      (Written(e, f, k).None? && k !in r.records && k in r'.records ==> Get(r'.records[k], f).None?) &&
      (k in r'.records ==> k in r.records || e.cell.id == Some(k))
  {
  }

  /**
   * Every field of every record of a successful read holds the value of the
   * last cell of that key in a row of the field's category; a field no
   * such cell reaches stays unset, and no such cell exists for a key that
   * is not recorded. Later rows overwrite earlier ones; rows of any other
   * category set nothing.
   */
  lemma {:induction false} FoldFields(es: seq<Entry>, r: Roster, k: string, f: Field)
    requires Fold(EmptyRoster, es) == Ok(r)
    ensures k in r.records ==> Get(r.records[k], f) == LastWrite(es, f, k)
    ensures LastWrite(es, f, k).Some? ==> k in r.records
    decreases |es|
  {
    if es != [] {
      var init := es[..|es| - 1];
      var last := es[|es| - 1];
      var r' := Fold(EmptyRoster, init).value;
      FoldFields(init, r', k, f);
      AddCellFields(r', last, k, f);
    }
  }

  /** No key is ever removed: the keys and the key order of a prefix of the cells survive the rest. */
  lemma {:induction false} FoldGrows(es: seq<Entry>, n: nat, r: Roster)
    requires n <= |es| && Fold(EmptyRoster, es) == Ok(r)
    ensures Fold(EmptyRoster, es[..n]).Ok?
    ensures Fold(EmptyRoster, es[..n]).value.records.Keys <= r.records.Keys
    ensures Fold(EmptyRoster, es[..n]).value.order <= r.order
    decreases |es| - n
  {
    if n == |es| {
      assert es[..n] == es;
    } else {
      var init := es[..|es| - 1];
      var r' := Fold(EmptyRoster, init).value;
      assert init[..n] == es[..n];
      FoldGrows(init, n, r');
      AddCellGrows(r', es[|es| - 1]);
    }
  }

  /**
   * The reader takes the first table with id `contributors`: tables before
   * it with other ids are passed over and tables after it are never read.
   */
  lemma {:induction false} FirstContributorsTableOnly(pre: seq<Table>, t: Table, post: seq<Table>)
    requires forall i :: 0 <= i < |pre| ==> pre[i].id.Some? && pre[i].id.value != TableId
    requires t.id == Some(TableId)
    ensures ParseContributors(pre + [t] + post)
         == match ParseTable(t) case Err(f) => Crash(f) case Ok(r) => Parsed(r)
    decreases |pre|
  {
    TableSearch(pre, t, post);
  }

  lemma {:induction false} TableSearch(pre: seq<Table>, t: Table, post: seq<Table>)
    requires forall i :: 0 <= i < |pre| ==> pre[i].id.Some? && pre[i].id.value != TableId
    requires t.id == Some(TableId)
    ensures FindTable(pre + [t] + post) == Ok(Some(t))
    decreases |pre|
  {
    if pre == [] {
      assert (pre + [t] + post)[0] == t;
    } else {
      assert (pre + [t] + post)[1..] == pre[1..] + [t] + post;
      TableSearch(pre[1..], t, post);
    }
  }

  /** Without a table whose id is `contributors` there is nothing to show. */
  lemma {:induction false} NoContributorsTable(tables: seq<Table>)
    requires forall i :: 0 <= i < |tables| ==> tables[i].id.Some? && tables[i].id.value != TableId
    ensures ParseContributors(tables) == NoTable
    decreases |tables|
  {
    if tables != [] {
      NoContributorsTable(tables[1..]);
    }
  }

  /** A table without an id before the contributors table makes the reader raise. */
  lemma {:induction false} UnnamedTableRaises(pre: seq<Table>, t: Table, post: seq<Table>)
    requires forall i :: 0 <= i < |pre| ==> pre[i].id.Some? && pre[i].id.value != TableId
    requires t.id.None?
    ensures ParseContributors(pre + [t] + post) == Crash(MissingTableId)
    decreases |pre|
  {
    if pre == [] {
      assert (pre + [t] + post)[0] == t;
    } else {
      assert (pre + [t] + post)[1..] == pre[1..] + [t] + post;
      UnnamedTableRaises(pre[1..], t, post);
    }
  }

  /**
   * Everything a successful read of the contributors table promises: the
   * keys, one record each, in first-appearance order, and every field the
   * last value its rows gave it.
   */
  lemma TableRoster(t: Table, r: Roster)
    requires ParseTable(t) == Ok(r)
    ensures Valid(r)
    ensures r.order == FirstAppearances(CellKeys(Entries(t.rows)))
    ensures forall k :: k in r.records <==> k in CellKeys(Entries(t.rows))
    ensures forall k, f :: k in r.records ==> Get(r.records[k], f) == LastWrite(Entries(t.rows), f, k)
  {
    var es := Entries(t.rows);
    FoldKeys(es, r);
    forall k ensures k in r.records <==> k in CellKeys(es) {
      FirstAppearancesHas(CellKeys(es), k);
    }
    forall k, f | k in r.records ensures Get(r.records[k], f) == LastWrite(es, f, k) {
      FoldFields(es, r, k, f);
    }
  }

  /** The row categories whose cells fill fields of a record. */
  predicate IsInfoRow(category: string) {
    category == AvatarRow || category == NameRow || category == CommitRow
  }

  /**
   * A cell the reader gets through without raising: the cell and its row
   * have an id; in a row of a field category the cell id is non-empty (an
   * empty id is never recorded, so looking it up raises) and the cell has an
   * `<a>`; in an `info_avatar` row that anchor has an `href` and an `<img>`
   * with a `src`; in an `info_commit` row it has a `<span>`.
   */
  predicate CellReadable(e: Entry) {
    e.cell.id.Some? && e.rowId.Some? &&
    (IsInfoRow(e.rowId.value) ==>
      e.cell.id.value != "" && e.cell.anchor.Some? &&
      (e.rowId.value == AvatarRow ==>
        e.cell.anchor.value.href.Some? && e.cell.anchor.value.img.Some? && e.cell.anchor.value.img.value.src.Some?) &&
      (e.rowId.value == CommitRow ==> e.cell.anchor.value.span.Some?))
  }

  /** One cell raises exactly when it is not readable, given that no empty key was ever recorded. */
  lemma AddCellSucceeds(r: Roster, e: Entry)
    requires "" !in r.records
    ensures AddCell(r, e).Ok? <==> CellReadable(e)
    ensures AddCell(r, e).Ok? ==> "" !in AddCell(r, e).value.records
  {
  }

  /** A run of cells goes through exactly when every one of them is readable. */
  lemma {:induction false} FoldSucceeds(es: seq<Entry>)
    ensures Fold(EmptyRoster, es).Ok? <==> forall e :: e in es ==> CellReadable(e)
    ensures Fold(EmptyRoster, es).Ok? ==> "" !in Fold(EmptyRoster, es).value.records
    decreases |es|
  {
    if es != [] {
      var init := es[..|es| - 1];
      FoldSucceeds(init);
      assert es == init + [es[|es| - 1]];
      if Fold(EmptyRoster, init).Ok? {
        AddCellSucceeds(Fold(EmptyRoster, init).value, es[|es| - 1]);
      }
    }
  }

  /** Every entry comes from some cell of some row. */
  lemma {:induction false} EntryOrigin(rows: seq<Row>, k: nat)
    requires k < |Entries(rows)|
    ensures exists i, j :: 0 <= i < |rows| && 0 <= j < |rows[i].cells| && Entries(rows)[k] == Entry(rows[i].id, rows[i].cells[j])
    decreases |rows|
  {
    var init := rows[..|rows| - 1];
    var i := |rows| - 1;
    assert Entries(rows) == Entries(init) + RowEntries(rows[i]);
    if k < |Entries(init)| {
      EntryOrigin(init, k);
      var i', j' :| 0 <= i' < |init| && 0 <= j' < |init[i'].cells| && Entries(init)[k] == Entry(init[i'].id, init[i'].cells[j']);
      assert rows[i'] == init[i'];
    } else {
      var j := k - |Entries(init)|;
      assert Entries(rows)[k] == Entry(rows[i].id, rows[i].cells[j]);
    }
  }

  /**
   * Reading a table raises nothing exactly when every cell of every row is
   * readable; otherwise it raises the fault of the first unreadable cell.
   */
  lemma TableSucceeds(t: Table)
    ensures ParseTable(t).Ok? <==>
      forall i, j :: 0 <= i < |t.rows| && 0 <= j < |t.rows[i].cells| ==> CellReadable(Entry(t.rows[i].id, t.rows[i].cells[j]))
  {
    var es := Entries(t.rows);
    FoldSucceeds(es);
    if ParseTable(t).Ok? {
      forall i, j | 0 <= i < |t.rows| && 0 <= j < |t.rows[i].cells|
        ensures CellReadable(Entry(t.rows[i].id, t.rows[i].cells[j]))
      {
        EntriesRowMajor(t.rows, i, j);
        assert Entries(t.rows)[CellCount(t.rows[..i]) + j] in es;
      }
    } else {
      var e :| e in es && !CellReadable(e);
      var k :| 0 <= k < |es| && es[k] == e;
      EntryOrigin(t.rows, k);
    }
  }

  /**
   * One row of each field category, each holding one cell with the same
   * non-empty key, give one record for that key with all four fields set:
   * the url and avatar url from the `info_avatar` cell, the stripped name
   * from the `info_name` cell and the role from the `info_commit` cell.
   */
  lemma OneOfEachRow(key: string, href: string, src: string, text: string, role: string)
    requires key != ""
    ensures var avatar := Row(Some(AvatarRow), [Cell(Some(key), Some(Anchor(Some(href), Some(Image(Some(src))), "", None)))]);
      var name := Row(Some(NameRow), [Cell(Some(key), Some(Anchor(None, None, text, None)))]);
      var commit := Row(Some(CommitRow), [Cell(Some(key), Some(Anchor(None, None, "", Some(role))))]);
      ParseContributors([Table(Some(TableId), [avatar, name, commit])])
      == Parsed(Roster([key], map[key := Contributor(key, Some(Strip(text)), Some(role), Some(src), Some(href))]))
  {
    var avatar := Row(Some(AvatarRow), [Cell(Some(key), Some(Anchor(Some(href), Some(Image(Some(src))), "", None)))]);
    var name := Row(Some(NameRow), [Cell(Some(key), Some(Anchor(None, None, text, None)))]);
    var commit := Row(Some(CommitRow), [Cell(Some(key), Some(Anchor(None, None, "", Some(role))))]);
    var t := Table(Some(TableId), [avatar, name, commit]);
    assert FindTable([t]) == Ok(Some(t));
    var e0, e1, e2 := Entry(avatar.id, avatar.cells[0]), Entry(name.id, name.cells[0]), Entry(commit.id, commit.cells[0]);
    SingleCellRows(avatar, name, commit);
    FoldThree(e0, e1, e2);
    var r0 := Roster([key], map[key := NewContributor(key).(url := Some(href), avatarUrl := Some(src))]);
    var r1 := Roster([key], map[key := r0.records[key].(name := Some(Strip(text)))]);
    CategoriesDiffer();
    AvatarStep(key, href, src);
    NameStep(r0, key, text);
    CommitStep(r1, key, role);
  }

  lemma AvatarStep(key: string, href: string, src: string)
    requires key != ""
    requires AvatarRow != NameRow && AvatarRow != CommitRow && IsInfoRow(AvatarRow)
    ensures AddCell(EmptyRoster, Entry(Some(AvatarRow), Cell(Some(key), Some(Anchor(Some(href), Some(Image(Some(src))), "", None)))))
         == Ok(Roster([key], map[key := NewContributor(key).(url := Some(href), avatarUrl := Some(src))]))
  {
    var c := NewContributor(key);
    assert [] + [key] == [key];
    assert map[][key := c][key := c.(url := Some(href), avatarUrl := Some(src))] == map[key := c.(url := Some(href), avatarUrl := Some(src))];
  }

  lemma NameStep(r: Roster, key: string, text: string)
    requires r.order == [key] && r.records.Keys == {key}
    requires NameRow != AvatarRow && NameRow != CommitRow && IsInfoRow(NameRow)
    ensures AddCell(r, Entry(Some(NameRow), Cell(Some(key), Some(Anchor(None, None, text, None)))))
         == Ok(Roster([key], map[key := r.records[key].(name := Some(Strip(text)))]))
  {
    assert r.records[key := r.records[key].(name := Some(Strip(text)))] == map[key := r.records[key].(name := Some(Strip(text)))];
  }

  lemma CommitStep(r: Roster, key: string, role: string)
    requires r.order == [key] && r.records.Keys == {key}
    requires CommitRow != AvatarRow && CommitRow != NameRow && IsInfoRow(CommitRow)
    ensures AddCell(r, Entry(Some(CommitRow), Cell(Some(key), Some(Anchor(None, None, "", Some(role))))))
         == Ok(Roster([key], map[key := r.records[key].(role := Some(role))]))
  {
    assert r.records[key := r.records[key].(role := Some(role))] == map[key := r.records[key].(role := Some(role))];
  }

  /** A contributor `alice` whose name cell reads " Alice\n": the name is stored stripped. */
  lemma AliceRoster()
    ensures var avatar := Row(Some(AvatarRow), [Cell(Some("alice"), Some(Anchor(Some("https://example.org/alice"), Some(Image(Some("alice.png"))), "", None)))]);
      var name := Row(Some(NameRow), [Cell(Some("alice"), Some(Anchor(None, None, " Alice\n", None)))]);
      var commit := Row(Some(CommitRow), [Cell(Some("alice"), Some(Anchor(None, None, "", Some("maintainer"))))]);
      ParseContributors([Table(Some(TableId), [avatar, name, commit])])
      == Parsed(Roster(["alice"], map["alice" := Contributor("alice", Some("Alice"), Some("maintainer"), Some("alice.png"), Some("https://example.org/alice"))]))
  {
    OneOfEachRow("alice", "https://example.org/alice", "alice.png", " Alice\n", "maintainer");
    StripPadded();
  }

  lemma StripPadded()
    ensures Strip(" Alice\n") == "Alice"
  {
    var s := " Alice\n";
    assert SpaceRun(s[1..]) == 0;
    assert SpaceRun(s) == 1;
    assert TrailingSpaceRun(s[..6]) == 0;
    assert TrailingSpaceRun(s) == 1;
  }

  lemma CategoriesDiffer()
    ensures AvatarRow != NameRow && AvatarRow != CommitRow && NameRow != CommitRow
    ensures IsInfoRow(AvatarRow) && IsInfoRow(NameRow) && IsInfoRow(CommitRow)
  {
    assert AvatarRow[5] != NameRow[5] && AvatarRow[5] != CommitRow[5] && NameRow[5] != CommitRow[5];
  }

  lemma SingleCellRows(a: Row, b: Row, c: Row)
    requires |a.cells| == 1 && |b.cells| == 1 && |c.cells| == 1
    ensures Entries([a, b, c]) == [Entry(a.id, a.cells[0]), Entry(b.id, b.cells[0]), Entry(c.id, c.cells[0])]
  {
    var rows := [a, b, c];
    assert rows[..2][..1] == [a] && rows[..2] == [a, b] && rows[..1] == [a] && rows[..0] == [];
    assert RowEntries(a) == [Entry(a.id, a.cells[0])];
    assert RowEntries(b) == [Entry(b.id, b.cells[0])];
    assert RowEntries(c) == [Entry(c.id, c.cells[0])];
    assert Entries(rows[..1]) == [Entry(a.id, a.cells[0])];
    assert Entries(rows[..2]) == [Entry(a.id, a.cells[0]), Entry(b.id, b.cells[0])];
  }

  lemma FoldThree(e0: Entry, e1: Entry, e2: Entry)
    ensures Fold(EmptyRoster, [e0, e1, e2])
         == match AddCell(EmptyRoster, e0)
            case Err(f) => Err(f)
            case Ok(r0) =>
              match AddCell(r0, e1)
              case Err(f) => Err(f)
              case Ok(r1) => AddCell(r1, e2)
  {
    var es := [e0, e1, e2];
    assert es[..2][..1] == [e0] && es[..2] == [e0, e1] && es[..1] == [e0] && es[..0] == [];
    assert Fold(EmptyRoster, [e0]) == AddCell(EmptyRoster, e0);
    assert Fold(EmptyRoster, [e0, e1]) == match AddCell(EmptyRoster, e0) case Err(f) => Err(f) case Ok(r0) => AddCell(r0, e1);
  }

  /** A roster the reader returns is consistent, so its records can be listed in key order. */
  lemma ParsedRosterIsValid(tables: seq<Table>)
    requires ParseContributors(tables).Parsed?
    ensures Valid(ParseContributors(tables).roster)
  {
    var t := FindTable(tables).value.value;
    FoldKeys(Entries(t.rows), ParseContributors(tables).roster);
  }
}
