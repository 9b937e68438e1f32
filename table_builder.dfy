/**
 * Guava's ImmutableTable.Builder as the usage indexer uses it: cells are put
 * in order, and buildOrThrow either rejects the first cell whose (row, column)
 * pair was already put, or yields a table whose row keys keep the order in
 * which each row first appeared.
 */
module TableBuilder {
  import opened Wrappers
  import opened BzlmodTypes

  /** One put: row = extension id, column = module key, value = the usage. */
  datatype Cell = Cell(row: ModuleExtensionId, column: ModuleKey, value: ModuleExtensionUsage)

  /** ImmutableTable<ModuleExtensionId, ModuleKey, ModuleExtensionUsage>: its row key set in order, and its cells. */
  datatype UsageTable = UsageTable(
    rowKeys: seq<ModuleExtensionId>,
    cells: map<(ModuleExtensionId, ModuleKey), ModuleExtensionUsage>)

  /** No two cells share a (row, column) pair. */
  predicate NoDuplicateCells(cs: seq<Cell>)
  {
    forall a, b :: 0 <= a < b < |cs| ==> (cs[a].row, cs[a].column) != (cs[b].row, cs[b].column)
  }

  /** Some cell among the first `n` of `cs` was put to row `x`. */
  predicate Appears(cs: seq<Cell>, x: ModuleExtensionId, n: nat)
    requires n <= |cs|
  {
    exists k :: 0 <= k < n && cs[k].row == x
  }

  /**
   * `rows` lists the rows of `cs` once each, in order of first appearance:
   * distinct, covering, and every appearance of a later row is preceded by an
   * appearance of each earlier row.
   */
  predicate FirstAppearanceOrder(rows: seq<ModuleExtensionId>, cs: seq<Cell>)
  {
    && Distinct(rows)
    && (forall k :: 0 <= k < |cs| ==> cs[k].row in rows)
    && (forall a :: 0 <= a < |rows| ==> Appears(cs, rows[a], |cs|))
    && (forall a, b, k :: 0 <= a < b < |rows| && 0 <= k < |cs| && cs[k].row == rows[b] ==> Appears(cs, rows[a], k))
  }

  /** buildOrThrow over the cells put so far. */
  function BuildOrThrow(cs: seq<Cell>): (r: Result<UsageTable, Failure>)
    ensures r.Failure? ==> r.error.DuplicateTableCell?
    decreases |cs|
  {
    if cs == [] then Success(UsageTable([], map[]))
    else
      var c := cs[|cs| - 1];
      match BuildOrThrow(cs[..|cs| - 1])
      case Failure(e) => Failure(e)
      case Success(t) =>
        if (c.row, c.column) in t.cells then Failure(DuplicateTableCell(c.row, c.column))
        else Success(UsageTable(AddRow(t.rowKeys, c.row), t.cells[(c.row, c.column) := c.value]))
  }

  /** The row key set after a put to `row`. */
  function AddRow(rows: seq<ModuleExtensionId>, row: ModuleExtensionId): seq<ModuleExtensionId>
  {
    if row in rows then rows else rows + [row]
  }

  /** A built table holds, under each (row, column) put, the value put there. */
  lemma {:induction false} BuildHoldsEveryCell(cs: seq<Cell>)
    requires BuildOrThrow(cs).Success?
    ensures forall k :: 0 <= k < |cs| ==>
      (cs[k].row, cs[k].column) in BuildOrThrow(cs).value.cells &&
      BuildOrThrow(cs).value.cells[(cs[k].row, cs[k].column)] == cs[k].value
    decreases |cs|
  {
    if cs != [] {
      var init := cs[..|cs| - 1];
      BuildHoldsEveryCell(init);
      var t := BuildOrThrow(init).value;
      forall k | 0 <= k < |cs| - 1
        ensures (cs[k].row, cs[k].column) in t.cells && t.cells[(cs[k].row, cs[k].column)] == cs[k].value
      {
        assert cs[k] == init[k];
      }
    }
  }

  /** A built table holds no cell that was not put. */
  lemma {:induction false} BuildHoldsOnlyPuts(cs: seq<Cell>)
    requires BuildOrThrow(cs).Success?
    ensures forall key :: key in BuildOrThrow(cs).value.cells ==>
      exists k :: 0 <= k < |cs| && key == (cs[k].row, cs[k].column)
    decreases |cs|
  {
    if cs != [] {
      var init := cs[..|cs| - 1];
      BuildHoldsOnlyPuts(init);
      var t := BuildOrThrow(init).value;
      forall key | key in BuildOrThrow(cs).value.cells
        ensures exists k :: 0 <= k < |cs| && key == (cs[k].row, cs[k].column)
      {
        if key in t.cells {
          var k :| 0 <= k < |init| && key == (init[k].row, init[k].column);
          assert cs[k] == init[k];
        } else {
          assert key == (cs[|cs| - 1].row, cs[|cs| - 1].column);
        }
      }
    }
  }

  /** The rejection policy: the table is built exactly when no (row, column) pair is put twice. */
  lemma {:induction false} BuildSucceedsIff(cs: seq<Cell>)
    ensures BuildOrThrow(cs).Success? <==> NoDuplicateCells(cs)
    decreases |cs|
  {
    if cs != [] {
      var init := cs[..|cs| - 1];
      var c := cs[|cs| - 1];
      BuildSucceedsIff(init);
      var r := BuildOrThrow(init);
      if r.Failure? {
        var a, b :| 0 <= a < b < |init| && (init[a].row, init[a].column) == (init[b].row, init[b].column);
        assert cs[a] == init[a] && cs[b] == init[b];
      } else if (c.row, c.column) in r.value.cells {
        BuildHoldsOnlyPuts(init);
        var k :| 0 <= k < |init| && (c.row, c.column) == (init[k].row, init[k].column);
        assert cs[k] == init[k];
      } else {
        BuildHoldsEveryCell(init);
        forall a, b | 0 <= a < b < |cs|
          ensures (cs[a].row, cs[a].column) != (cs[b].row, cs[b].column)
        {
          assert cs[a] == init[a];
          if b < |cs| - 1 {
            assert cs[b] == init[b];
          }
        }
      }
    }
  }

  /** The row keys of a built table are the rows of its cells in first-appearance order. */
  lemma {:induction false} BuildRowOrder(cs: seq<Cell>)
    requires BuildOrThrow(cs).Success?
    ensures FirstAppearanceOrder(BuildOrThrow(cs).value.rowKeys, cs)
    decreases |cs|
  {
    if cs != [] {
      var init := cs[..|cs| - 1];
      var c := cs[|cs| - 1];
      BuildRowOrder(init);
      var rows := BuildOrThrow(init).value.rowKeys;
      assert BuildOrThrow(cs).value.rowKeys == AddRow(rows, c.row);
      assert cs == init + [c];
      AddRowKeepsOrder(rows, init, c);
    }
  }

  lemma AddRowKeepsOrder(rows: seq<ModuleExtensionId>, cs: seq<Cell>, c: Cell)
    requires FirstAppearanceOrder(rows, cs)
    ensures FirstAppearanceOrder(AddRow(rows, c.row), cs + [c])
  {
    AddRowCovers(rows, cs, c);
    AddRowAppears(rows, cs, c);
    var rows' := AddRow(rows, c.row);
    var cs' := cs + [c];
    forall a, b, k | 0 <= a < b < |rows'| && 0 <= k < |cs'| && cs'[k].row == rows'[b]
      ensures Appears(cs', rows'[a], k)
    {
      AddRowPrecedes(rows, cs, c, a, b, k);
    }
  }

  lemma AddRowCovers(rows: seq<ModuleExtensionId>, cs: seq<Cell>, c: Cell)
    requires FirstAppearanceOrder(rows, cs)
    ensures Distinct(AddRow(rows, c.row))
    ensures forall k :: 0 <= k < |cs + [c]| ==> (cs + [c])[k].row in AddRow(rows, c.row)
  {
    var cs' := cs + [c];
    forall k | 0 <= k < |cs'|
      ensures cs'[k].row in AddRow(rows, c.row)
    {
      if k < |cs| {
        assert cs'[k] == cs[k];
      }
    }
  }

  lemma AddRowAppears(rows: seq<ModuleExtensionId>, cs: seq<Cell>, c: Cell)
    requires FirstAppearanceOrder(rows, cs)
    ensures forall a :: 0 <= a < |AddRow(rows, c.row)| ==> Appears(cs + [c], AddRow(rows, c.row)[a], |cs| + 1)
  {
    var rows' := AddRow(rows, c.row);
    var cs' := cs + [c];
    forall a | 0 <= a < |rows'|
      ensures Appears(cs', rows'[a], |cs'|)
    {
      if a < |rows| {
        AppearsExtends(cs, c, rows[a], |cs|);
        AppearsWiden(cs', rows[a], |cs|, |cs'|);
      } else {
        assert cs'[|cs|] == c;
      }
    }
  }

  /** An appearance among the first `n` cells is one among the first `m >= n`. */
  lemma AppearsWiden(cs: seq<Cell>, x: ModuleExtensionId, n: nat, m: nat)
    requires n <= m <= |cs| && Appears(cs, x, n)
    ensures Appears(cs, x, m)
  {
  }

  /** An appearance among the first `n` cells survives a later put. */
  lemma AppearsExtends(cs: seq<Cell>, c: Cell, x: ModuleExtensionId, n: nat)
    requires n <= |cs| && Appears(cs, x, n)
    ensures Appears(cs + [c], x, n)
  {
    var k :| 0 <= k < n && cs[k].row == x;
    assert (cs + [c])[k] == cs[k];
  }

  lemma AddRowPrecedes(rows: seq<ModuleExtensionId>, cs: seq<Cell>, c: Cell, a: nat, b: nat, k: nat)
    requires FirstAppearanceOrder(rows, cs)
    requires a < b < |AddRow(rows, c.row)| && k < |cs| + 1 && (cs + [c])[k].row == AddRow(rows, c.row)[b]
    ensures Appears(cs + [c], AddRow(rows, c.row)[a], k)
  {
    var rows' := AddRow(rows, c.row);
    assert a < |rows| && rows'[a] == rows[a];
    if k < |cs| {
      assert (cs + [c])[k] == cs[k];
      assert b < |rows|;
      assert rows'[b] == rows[b];
      AppearsExtends(cs, c, rows[a], k);
    } else {
      AppearsExtends(cs, c, rows[a], |cs|);
    }
  }
}
