/**
 * The row scan of `parseExcelFile`: one pass over the sheet's rows, column 1
 * holding labels and column 2 outlet numbers or prices, with the current
 * outlet and the current screen as scan state. Every item row met while both
 * are set is appended to the list of its menu category.
 */
module Scanner {
  import opened Wrappers
  import opened Text
  import opened Categories

  /** A cell of the sheet: text, or absent (`null`). */
  type Cell = Option<string>
  type Row = seq<Cell>
  type Grid = seq<Row>

  /** `row[i]`; a cell past the end of the row reads as absent. */
  function CellAt(row: Row, i: nat): Cell
  {
    if i < |row| then row[i] else None
  }

  /** JavaScript truthiness of a cell: present and not the empty string. */
  predicate Truthy(c: Cell)
  {
    c.Some? && c.value != ""
  }

  /** `String(c)`, also the text a template literal makes: absent renders as "null". */
  function CellText(c: Cell): string
  {
    if c.Some? then c.value else "null"
  }

  function Label(row: Row): Cell { CellAt(row, 1) }
  function Value(row: Row): Cell { CellAt(row, 2) }

  /** `currentOutlet`. */
  datatype Outlet = Outlet(number: Cell, isClosed: bool)
  /** `currentScreen`. */
  datatype Screen = Screen(name: string, isExternal: bool, isRotating: bool)
  /** One recorded menu line: `{outlet, screen, isExternal, isRotating, item, price}`. */
  datatype MenuRecord = MenuRecord(
    outlet: Cell, screen: string, isExternal: bool, isRotating: bool, item: string, price: string)
  /** The scan state between rows. */
  datatype ScanState = ScanState(outlet: Option<Outlet>, screen: Option<Screen>)

  const Start := ScanState(None, None)

  /** An outlet header: the label holds "Outlets:" (case matters). */
  predicate IsOutletHeader(row: Row)
  {
    Truthy(Label(row)) && Contains(Label(row).value, "Outlets:")
  }

  /** A screen header: the label holds "screen" in any case. */
  predicate IsScreenHeader(row: Row)
  {
    Truthy(Label(row)) && Contains(Lower(Label(row).value), "screen")
  }

  /** A row the item guard lets through once an outlet and a screen are set. */
  predicate IsItemRow(row: Row)
  {
    Truthy(Label(row)) && Truthy(Value(row)) && !Contains(Lower(Label(row).value), "screen")
  }

  /** The outlet an outlet header row starts. */
  function OutletOf(row: Row): Outlet
  {
    Outlet(Value(row), Contains(Lower(CellText(Value(row))), "closed"))
  }

  /** The screen a screen header row starts. */
  function ScreenOf(row: Row): Screen
    requires Label(row).Some?
  {
    var l := Label(row).value;
    Screen(Trim(l),
      Contains(Lower(l), "external") || Contains(Lower(l), "outside"),
      Contains(Lower(l), "rotat"))
  }

  /** An outlet is closed exactly when its number cell, as text, holds "closed" in any case. */
  lemma OutletClosed(row: Row)
    ensures OutletOf(row).number == Value(row)
    ensures OutletOf(row).isClosed <==> HasIgnoringCase(CellText(Value(row)), "closed")
  {
    ContainsLower(CellText(Value(row)), "closed");
  }

  /**
   * A screen is external exactly when its label holds "external" or
   * "outside", and rotating exactly when it holds "rotat", in any case.
   */
  lemma ScreenKind(row: Row)
    requires Label(row).Some?
    ensures ScreenOf(row).name == Trim(Label(row).value)
    ensures ScreenOf(row).isExternal <==>
      HasIgnoringCase(Label(row).value, "external") || HasIgnoringCase(Label(row).value, "outside")
    ensures ScreenOf(row).isRotating <==> HasIgnoringCase(Label(row).value, "rotat")
  {
    var l := Label(row).value;
    ContainsLower(l, "external");
    ContainsLower(l, "outside");
    ContainsLower(l, "rotat");
  }

  /** The header checks of one row, in source order: outlet first, then screen. */
  function Step(st: ScanState, row: Row): ScanState
  {
    ScanState(
      if IsOutletHeader(row) then Some(OutletOf(row)) else st.outlet,
      if IsScreenHeader(row) then Some(ScreenOf(row)) else st.screen)
  }

  /** The item check of one row, made with the state its own headers just set. */
  function Emit(st: ScanState, row: Row): Option<MenuRecord>
  {
    if st.outlet.Some? && st.screen.Some? && IsItemRow(row) then
      Some(MenuRecord(st.outlet.value.number, st.screen.value.name,
        st.screen.value.isExternal, st.screen.value.isRotating,
        Trim(Label(row).value), Value(row).value))
    else None
  }

  /** `currentOutlet` after the given rows: set by each outlet header, never reset. */
  function OutletAfter(rows: Grid): Option<Outlet>
    decreases |rows|
  {
    if rows == [] then None
    else if IsOutletHeader(rows[|rows| - 1]) then Some(OutletOf(rows[|rows| - 1]))
    else OutletAfter(rows[..|rows| - 1])
  }

  /** `currentScreen` after the given rows: set by each screen header, never reset. */
  function ScreenAfter(rows: Grid): Option<Screen>
    decreases |rows|
  {
    if rows == [] then None
    else if IsScreenHeader(rows[|rows| - 1]) then Some(ScreenOf(rows[|rows| - 1]))
    else ScreenAfter(rows[..|rows| - 1])
  }

  /** The scan state after the given rows. */
  function StateAfter(rows: Grid): ScanState
  {
    ScanState(OutletAfter(rows), ScreenAfter(rows))
  }

  /** What row j records, if anything. */
  function RowRecord(rows: Grid, j: nat): Option<MenuRecord>
    requires j < |rows|
  {
    Emit(StateAfter(rows[..j + 1]), rows[j])
  }

  /** Every record the scan makes, in row order. */
  function Records(rows: Grid): seq<MenuRecord>
    decreases |rows|
  {
    if rows == [] then []
    else Records(rows[..|rows| - 1]) + ToSeq(RowRecord(rows, |rows| - 1))
  }

  /** The records that `categorizeMenuItem` puts in category c, in order. */
  function Select(recs: seq<MenuRecord>, c: Category): seq<MenuRecord>
    decreases |recs|
  {
    if recs == [] then []
    else
      var last := recs[|recs| - 1];
      Select(recs[..|recs| - 1], c) + if Categorize(last.item) == c then [last] else []
  }

  /**
   * The scan of `parseExcelFile`: `menusByCategory` starts with all five
   * lists empty, and each recorded row is pushed onto the list of its
   * category.
   */
  method ParseRows(data: Grid) returns (menus: map<Category, seq<MenuRecord>>)
    ensures forall c: Category :: c in menus
    ensures forall c: Category :: menus[c] == Select(Records(data), c)
  {
    menus := map[HotFood := [], ColdFood := [], Drinks := [], Snacks := [], Other := []];
    forall c: Category
      ensures c in menus
    {
      match c
      case HotFood =>
      case ColdFood =>
      case Drinks =>
      case Snacks =>
      case Other =>
    }
    var currentOutlet: Option<Outlet> := None;
    var currentScreen: Option<Screen> := None;
    var i := 0;
    while i < |data|
      invariant 0 <= i <= |data|
      invariant ScanState(currentOutlet, currentScreen) == StateAfter(data[..i])
      invariant forall c: Category :: c in menus
      invariant forall c: Category :: menus[c] == Select(Records(data[..i]), c)
    {
      ghost var before := ScanState(currentOutlet, currentScreen);
      ghost var recs := Records(data[..i]);
      var row := data[i];
      if IsOutletHeader(row) {
        currentOutlet := Some(OutletOf(row));
      }
      if IsScreenHeader(row) {
        currentScreen := Some(ScreenOf(row));
      }
      ScanStep(data, i);
      var recorded := Emit(ScanState(currentOutlet, currentScreen), row);
      if recorded.Some? {
        var rec := recorded.value;
        var category := Categorize(rec.item);
        assert Records(data[..i + 1]) == recs + [rec];
        forall c: Category
          ensures Select(recs + [rec], c) == Select(recs, c) + if category == c then [rec] else []
        {
          SelectAppend(recs, rec, c);
        }
        menus := menus[category := menus[category] + [rec]];
      } else {
        assert Records(data[..i + 1]) == recs;
      }
      i := i + 1;
    }
    assert data[..i] == data;
  }

  /** One more row: its header checks, then its item check. */
  lemma ScanStep(rows: Grid, i: nat)
    requires i < |rows|
    ensures StateAfter(rows[..i + 1]) == Step(StateAfter(rows[..i]), rows[i])
    ensures Records(rows[..i + 1]) ==
      Records(rows[..i]) + ToSeq(Emit(Step(StateAfter(rows[..i]), rows[i]), rows[i]))
  {
    assert rows[..i + 1][..i] == rows[..i];
    assert rows[..i + 1][..i + 1] == rows[..i + 1];
  }

  lemma SelectAppend(recs: seq<MenuRecord>, r: MenuRecord, c: Category)
    ensures Select(recs + [r], c) == Select(recs, c) + if Categorize(r.item) == c then [r] else []
  {
    assert (recs + [r])[..|recs|] == recs;
  }

  /**
   * The current outlet is the one the last outlet header started, and
   * there is none before the first outlet header.
   */
  lemma {:induction false} LastOutletHeader(rows: Grid) returns (k: int)
    ensures -1 <= k < |rows|
    ensures forall i :: k < i < |rows| ==> !IsOutletHeader(rows[i])
    ensures k == -1 ==> OutletAfter(rows) == None
    ensures k >= 0 ==> IsOutletHeader(rows[k]) && OutletAfter(rows) == Some(OutletOf(rows[k]))
    decreases |rows|
  {
    k := -1;
    if rows != [] {
      var n := |rows| - 1;
      var p := rows[..n];
      if IsOutletHeader(rows[n]) {
        k := n;
      } else {
        k := LastOutletHeader(p);
        assert OutletAfter(rows) == OutletAfter(p);
        forall i | k < i < |rows|
          ensures !IsOutletHeader(rows[i])
        {
          if i < n {
            assert p[i] == rows[i];
          }
        }
        if k >= 0 {
          assert p[k] == rows[k];
        }
      }
    }
  }

  /**
   * The current screen is the one the last screen header started, and there
   * is none before the first screen header: an outlet header does not reset it.
   */
  lemma {:induction false} LastScreenHeader(rows: Grid) returns (k: int)
    ensures -1 <= k < |rows|
    ensures forall i :: k < i < |rows| ==> !IsScreenHeader(rows[i])
    ensures k == -1 ==> ScreenAfter(rows) == None
    ensures k >= 0 ==> IsScreenHeader(rows[k]) && ScreenAfter(rows) == Some(ScreenOf(rows[k]))
    decreases |rows|
  {
    k := -1;
    if rows != [] {
      var n := |rows| - 1;
      var p := rows[..n];
      if IsScreenHeader(rows[n]) {
        k := n;
      } else {
        k := LastScreenHeader(p);
        assert ScreenAfter(rows) == ScreenAfter(p);
        forall i | k < i < |rows|
          ensures !IsScreenHeader(rows[i])
        {
          if i < n {
            assert p[i] == rows[i];
          }
        }
        if k >= 0 {
          assert p[k] == rows[k];
        }
      }
    }
  }

  /**
   * Row j is recorded exactly when it passes the item guard, an outlet header
   * occurs at or before it and a screen header strictly before it; so a screen
   * header row is never recorded. The record holds the trimmed labelCell, the
   * price cell, the number of the last outlet header and the last screen.
   */
  lemma RecordedRow(rows: Grid, j: nat)
    requires j < |rows|
    ensures RowRecord(rows, j).Some? <==>
      IsItemRow(rows[j]) &&
      (exists k :: 0 <= k <= j && IsOutletHeader(rows[k])) &&
      (exists m :: 0 <= m < j && IsScreenHeader(rows[m]))
  {
    if RowRecord(rows, j).Some? {
      RecordedAfterHeaders(rows, j);
    }
    if IsItemRow(rows[j]) &&
      (exists k :: 0 <= k <= j && IsOutletHeader(rows[k])) &&
      (exists m :: 0 <= m < j && IsScreenHeader(rows[m]))
    {
      RecordedWhenGuarded(rows, j);
    }
  }

  lemma RecordedAfterHeaders(rows: Grid, j: nat)
    requires j < |rows| && RowRecord(rows, j).Some?
    ensures IsItemRow(rows[j])
    ensures exists k :: 0 <= k <= j && IsOutletHeader(rows[k])
    ensures exists m :: 0 <= m < j && IsScreenHeader(rows[m])
  {
    var q := rows[..j + 1];
    var k := LastOutletHeader(q);
    var m := LastScreenHeader(q);
    RecordGuard(rows, j);
    ItemRowIsNoScreenHeader(rows[j]);
    assert q[j] == rows[j] && q[k] == rows[k] && q[m] == rows[m];
  }

  lemma RecordedWhenGuarded(rows: Grid, j: nat)
    requires j < |rows| && IsItemRow(rows[j])
    requires exists k :: 0 <= k <= j && IsOutletHeader(rows[k])
    requires exists m :: 0 <= m < j && IsScreenHeader(rows[m])
    ensures RowRecord(rows, j).Some?
  {
    var q := rows[..j + 1];
    var k := LastOutletHeader(q);
    var m := LastScreenHeader(q);
    RecordGuard(rows, j);
    var k' :| 0 <= k' <= j && IsOutletHeader(rows[k']);
    var m' :| 0 <= m' < j && IsScreenHeader(rows[m']);
    assert q[k'] == rows[k'] && q[m'] == rows[m'];
  }

  /** Row j is recorded exactly when the item guard passes with the state its headers left. */
  lemma RecordGuard(rows: Grid, j: nat)
    requires j < |rows|
    ensures RowRecord(rows, j).Some? <==>
      OutletAfter(rows[..j + 1]).Some? && ScreenAfter(rows[..j + 1]).Some? && IsItemRow(rows[j])
  {
  }

  /** The item guard rejects every screen header row. */
  lemma ItemRowIsNoScreenHeader(row: Row)
    ensures IsItemRow(row) ==> !IsScreenHeader(row)
  {
  }

  /**
   * A recorded row's record holds the trimmed label, the price cell, the
   * number of the last outlet header up to the row and the last screen
   * header before it.
   */
  lemma RecordContents(rows: Grid, j: nat)
    requires j < |rows| && RowRecord(rows, j).Some?
    ensures var r := RowRecord(rows, j).value;
      && r.item == Trim(Label(rows[j]).value)
      && r.price == Value(rows[j]).value
      && (exists k :: 0 <= k <= j && IsOutletHeader(rows[k]) && r.outlet == Value(rows[k]) &&
            forall k' :: k < k' <= j ==> !IsOutletHeader(rows[k']))
      && (exists m :: 0 <= m < j && IsScreenHeader(rows[m]) &&
            Screen(r.screen, r.isExternal, r.isRotating) == ScreenOf(rows[m]) &&
            forall m' :: m < m' < j ==> !IsScreenHeader(rows[m']))
  {
    var q := rows[..j + 1];
    var k := LastOutletHeader(q);
    var m := LastScreenHeader(q);
    assert StateAfter(q) == ScanState(OutletAfter(q), ScreenAfter(q));
    var r := RowRecord(rows, j).value;
    assert !IsScreenHeader(q[j]);
    assert q[k] == rows[k] && q[m] == rows[m];
    assert forall i :: 0 <= i <= j ==> q[i] == rows[i];
    assert r.outlet == Value(rows[k]);
    assert Screen(r.screen, r.isExternal, r.isRotating) == ScreenOf(rows[m]);
  }

  /** The records are exactly what the rows record; there are never more than rows. */
  lemma {:induction false} RecordsAreRecordedRows(rows: Grid)
    ensures |Records(rows)| <= |rows|
    ensures forall r :: r in Records(rows) <==> exists j :: 0 <= j < |rows| && RowRecord(rows, j) == Some(r)
    decreases |rows|
  {
    if rows != [] {
      var n := |rows| - 1;
      var p := rows[..n];
      RecordsAreRecordedRows(p);
      var last := ToSeq(RowRecord(rows, n));
      assert Records(rows) == Records(p) + last;
      RowRecordOfPrefix(rows, n);
      forall r | r in Records(rows)
        ensures exists j :: 0 <= j < |rows| && RowRecord(rows, j) == Some(r)
      {
        if r in Records(p) {
          var j :| 0 <= j < |p| && RowRecord(p, j) == Some(r);
          assert RowRecord(rows, j) == Some(r);
        } else {
          assert r in last;
          assert RowRecord(rows, n) == Some(r);
        }
      }
      forall r | exists j :: 0 <= j < |rows| && RowRecord(rows, j) == Some(r)
        ensures r in Records(rows)
      {
        var j :| 0 <= j < |rows| && RowRecord(rows, j) == Some(r);
        if j < n {
          assert RowRecord(p, j) == Some(r);
        } else {
          assert j == n;
          assert RowRecord(rows, n) == Some(r);
          assert last == [r];
        }
      }
    }
  }

  /** The values held by a list of optional records, in order. */
  function Present(os: seq<Option<MenuRecord>>): seq<MenuRecord>
    decreases |os|
  {
    if os == [] then [] else Present(os[..|os| - 1]) + ToSeq(os[|os| - 1])
  }

  /** `Present(os)` takes one value per present entry, in order. */
  lemma {:induction false} PresentIndexed(os: seq<Option<MenuRecord>>) returns (idx: seq<nat>)
    ensures |idx| == |Present(os)|
    ensures forall t, u :: 0 <= t < u < |idx| ==> idx[t] < idx[u]
    ensures forall t :: 0 <= t < |idx| ==> idx[t] < |os| && os[idx[t]] == Some(Present(os)[t])
    ensures forall j :: 0 <= j < |os| && os[j].Some? ==> j in idx
    decreases |os|
  {
    if os == [] {
      idx := [];
    } else {
      var n := |os| - 1;
      var p := os[..n];
      var prev := Present(p);
      idx := PresentIndexed(p);
      assert forall j :: 0 <= j < n ==> p[j] == os[j];
      if os[n].Some? {
        assert Present(os) == prev + [os[n].value];
        idx := idx + [n];
      } else {
        assert Present(os) == prev;
      }
    }
  }

  /** The records are the present entries of the rows' individual records. */
  lemma {:induction false} RecordsArePresent(rows: Grid, os: seq<Option<MenuRecord>>)
    requires |os| == |rows|
    requires forall j :: 0 <= j < |rows| ==> os[j] == RowRecord(rows, j)
    ensures Records(rows) == Present(os)
    decreases |rows|
  {
    if rows != [] {
      var n := |rows| - 1;
      RowRecordOfPrefix(rows, n);
      RecordsArePresent(rows[..n], os[..n]);
    }
  }

  /**
   * The records come one per recording row, in row order: `idx` lists the
   * recording rows increasingly and record t is what row `idx[t]` records.
   */
  lemma RecordsIndexed(rows: Grid) returns (idx: seq<nat>)
    ensures |idx| == |Records(rows)|
    ensures forall t, u :: 0 <= t < u < |idx| ==> idx[t] < idx[u]
    ensures forall t :: 0 <= t < |idx| ==> idx[t] < |rows| && RowRecord(rows, idx[t]) == Some(Records(rows)[t])
    ensures forall j :: 0 <= j < |rows| && RowRecord(rows, j).Some? ==> j in idx
  {
    var os := seq(|rows|, j requires 0 <= j < |rows| => RowRecord(rows, j));
    RecordsArePresent(rows, os);
    idx := PresentIndexed(os);
  }

  /** What a row records depends only on the rows up to it. */
  lemma RowRecordOfPrefix(rows: Grid, n: nat)
    requires n <= |rows|
    ensures forall j :: 0 <= j < n ==> RowRecord(rows[..n], j) == RowRecord(rows, j)
  {
    forall j | 0 <= j < n
      ensures RowRecord(rows[..n], j) == RowRecord(rows, j)
    {
      assert rows[..n][..j + 1] == rows[..j + 1];
    }
  }

  /** A record is in the list of category c exactly when `categorizeMenuItem` picks c for it. */
  lemma {:induction false} SelectMembers(recs: seq<MenuRecord>, c: Category)
    ensures forall r :: r in Select(recs, c) <==> r in recs && Categorize(r.item) == c
    decreases |recs|
  {
    if recs != [] {
      SelectMembers(recs[..|recs| - 1], c);
      assert recs == recs[..|recs| - 1] + [recs[|recs| - 1]];
    }
  }

  /**
   * Category c's list is the subsequence of the records whose category is c:
   * `idx` picks them out increasingly, so the list keeps the scan's order.
   */
  lemma {:induction false} SelectIndexed(recs: seq<MenuRecord>, c: Category) returns (idx: seq<nat>)
    ensures |idx| == |Select(recs, c)|
    ensures forall t, u :: 0 <= t < u < |idx| ==> idx[t] < idx[u]
    ensures forall t :: 0 <= t < |idx| ==> idx[t] < |recs| && Select(recs, c)[t] == recs[idx[t]]
    ensures forall i :: 0 <= i < |recs| ==> (i in idx <==> Categorize(recs[i].item) == c)
    decreases |recs|
  {
    if recs == [] {
      idx := [];
    } else {
      var n := |recs| - 1;
      var p := recs[..n];
      idx := SelectIndexed(p, c);
      if Categorize(recs[n].item) == c {
        idx := idx + [n];
      }
    }
  }

  /** Category c's list holds each record as often as the scan made it, if c is its category, else never. */
  lemma {:induction false} SelectCount(recs: seq<MenuRecord>, c: Category)
    ensures forall r :: multiset(Select(recs, c))[r] == if Categorize(r.item) == c then multiset(recs)[r] else 0
    decreases |recs|
  {
    if recs != [] {
      var p := recs[..|recs| - 1];
      var last := recs[|recs| - 1];
      SelectCount(p, c);
      assert recs == p + [last];
      assert multiset(recs) == multiset(p) + multiset{last};
    }
  }

  /** The five lists together hold every record exactly as often as the scan made it. */
  lemma SelectPartition(recs: seq<MenuRecord>)
    ensures multiset(recs) ==
      multiset(Select(recs, HotFood)) + multiset(Select(recs, ColdFood)) +
      multiset(Select(recs, Drinks)) + multiset(Select(recs, Snacks)) + multiset(Select(recs, Other))
  {
    SelectCount(recs, HotFood);
    SelectCount(recs, ColdFood);
    SelectCount(recs, Drinks);
    SelectCount(recs, Snacks);
    SelectCount(recs, Other);
    var sum := multiset(Select(recs, HotFood)) + multiset(Select(recs, ColdFood)) +
      multiset(Select(recs, Drinks)) + multiset(Select(recs, Snacks)) + multiset(Select(recs, Other));
    forall r
      ensures multiset(recs)[r] == sum[r]
    {
      match Categorize(r.item)
      case HotFood =>
      case ColdFood =>
      case Drinks =>
      case Snacks =>
      case Other =>
    }
  }

  /**
   * An outlet header whose number cell is filled, read after a screen header,
   * passes the item guard itself: it is recorded as an item of the outlet it
   * has just started, under the previous outlet's last screen.
   */
  lemma OutletHeaderRecorded(rows: Grid, j: nat)
    requires j < |rows| && IsOutletHeader(rows[j]) && Truthy(Value(rows[j]))
    requires !Contains(Lower(Label(rows[j]).value), "screen")
    requires exists m :: 0 <= m < j && IsScreenHeader(rows[m])
    ensures RowRecord(rows, j).Some?
    ensures RowRecord(rows, j).value.outlet == Value(rows[j])
    ensures RowRecord(rows, j).value.item == Trim(Label(rows[j]).value)
    ensures ScreenAfter(rows[..j]).Some?
    ensures var r := RowRecord(rows, j).value;
      Screen(r.screen, r.isExternal, r.isRotating) == ScreenAfter(rows[..j]).value
  {
    RecordedRow(rows, j);
    assert IsItemRow(rows[j]);
    var r := RowRecord(rows, j).value;
    var k :| 0 <= k <= j && IsOutletHeader(rows[k]) && r.outlet == Value(rows[k]) &&
      forall k' :: k < k' <= j ==> !IsOutletHeader(rows[k']);
    assert k == j;
    var q := rows[..j + 1];
    assert q[..j] == rows[..j] && q[j] == rows[j];
    assert !IsScreenHeader(rows[j]);
    assert ScreenAfter(q) == ScreenAfter(rows[..j]);
  }
}
