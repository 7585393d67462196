/** The feature table's data model: the list of feature objects shown as
    rows, a queue of objects waiting to be inserted, and the two flags the
    table edits on each object. Objects are known by identity; their flags
    live beside the list, so a change through one row is seen wherever the
    same object appears. The view notifications (`begin*`/`end*`,
    `dataChanged`) carry no state and are not modelled. */
module TableModel {
  import opened Wrappers
  import opened Slices

  /** A feature object, by identity. */
  type ObjId = nat

  /** `isSelected` and `isHidden` of one object. */
  datatype Flags = Flags(selected: bool, hidden: bool)

  /** `modelData`, `_addQueue`, and the flags of the objects that have had
      them set (an object not in `flags` still has both flags off, as a new
      feature object does). */
  datatype Table = Table(data: seq<ObjId>, queue: seq<ObjId>, flags: map<ObjId, Flags>)

  /** The four headers `['', '', 'Position', 'Confidence']`. */
  const ColumnCount: nat := 4

  function FlagsOf(t: Table, o: ObjId): Flags {
    if o in t.flags then t.flags[o] else Flags(false, false)
  }

  /** A new model: no rows, nothing queued. */
  function NewTable(): (t: Table)
    ensures t.data == [] && t.queue == []
    ensures forall o :: !FlagsOf(t, o).selected && !FlagsOf(t, o).hidden
  {
    Table([], [], map[])
  }

  /** `setModelData(data)`: the rows are replaced; the queue is kept. */
  function SetModelData(t: Table, data: seq<ObjId>): (t': Table)
    ensures t'.data == data && t'.queue == t.queue && t'.flags == t.flags
  {
    t.(data := data)
  }

  /** `rowCount()`: the rows `getDataObject` answers for are exactly
      `0 .. rowCount() - 1`. */
  function RowCount(t: Table): (n: nat)
    ensures forall row :: 0 <= row < n <==> GetDataObject(t, row).Some?
  {
    |t.data|
  }

  // ---------------------------------------------------------------------
  // Lookups

  /** `getDataObject(row)`: the object in that row, `None` outside the rows
      (a negative row is not read from the end). */
  function GetDataObject(t: Table, row: int): (r: Option<ObjId>)
    ensures r.Some? <==> 0 <= row < |t.data|
    ensures r.Some? ==> r.value == t.data[row]
  {
    if row >= |t.data| || row < 0 then None else Some(t.data[row])
  }

  /** `getDataObjectRow(obj)`: the first row holding the object, if any. */
  function GetDataObjectRow(t: Table, o: ObjId): (r: Option<nat>)
    ensures r.None? <==> o !in t.data
    ensures r.Some? ==> r.value < |t.data| && t.data[r.value] == o
                        && forall j :: 0 <= j < r.value ==> t.data[j] != o
  {
    IndexOf(t.data, o)
  }

  /** `list.index`: the first position of `x`, or `None` for `ValueError`. */
  function IndexOf(s: seq<ObjId>, x: ObjId): (r: Option<nat>)
    ensures r.None? <==> x !in s
    ensures r.Some? ==> r.value < |s| && s[r.value] == x && forall j :: 0 <= j < r.value ==> s[j] != x
  {
    if s == [] then None
    else if s[0] == x then Some(0)
    else
      match IndexOf(s[1..], x)
      case None => None
      case Some(k) => Some(k + 1)
  }

  /** The objects of `s` whose `isSelected` is set, in order. */
  function SelectedIn(t: Table, s: seq<ObjId>): (r: seq<ObjId>)
    ensures |r| <= |s|
  {
    if s == [] then []
    else (if FlagsOf(t, s[0]).selected then [s[0]] else []) + SelectedIn(t, s[1..])
  }

  /** The filter keeps exactly the selected objects. */
  lemma {:induction false} SelectedInMembers(t: Table, s: seq<ObjId>)
    ensures forall o :: o in SelectedIn(t, s) <==> o in s && FlagsOf(t, o).selected
  {
    if s != [] {
      SelectedInMembers(t, s[1..]);
      assert forall o :: o in s <==> o == s[0] || o in s[1..];
    }
  }

  /** `getSelectedObjects()`. */
  function GetSelectedObjects(t: Table): (r: seq<ObjId>)
    ensures forall o :: o in r <==> o in t.data && FlagsOf(t, o).selected
  {
    SelectedInMembers(t, t.data);
    SelectedIn(t, t.data)
  }

  /** The filter distributes over concatenation, so it keeps the rows'
      order. */
  lemma {:induction false} SelectedInAppend(t: Table, a: seq<ObjId>, b: seq<ObjId>)
    ensures SelectedIn(t, a + b) == SelectedIn(t, a) + SelectedIn(t, b)
  {
    if a == [] {
      assert a + b == b;
    } else {
      assert (a + b)[0] == a[0] && (a + b)[1..] == a[1..] + b;
      SelectedInAppend(t, a[1..], b);
    }
  }

  /** When every row is selected, all rows come back in order. */
  lemma {:induction false} SelectedInEvery(t: Table, s: seq<ObjId>)
    requires forall k :: 0 <= k < |s| ==> FlagsOf(t, s[k]).selected
    ensures SelectedIn(t, s) == s
  {
    if s != [] {
      var tail := s[1..];
      assert forall k :: 0 <= k < |tail| ==> tail[k] == s[k + 1];
      SelectedInEvery(t, tail);
      assert s == [s[0]] + tail;
    }
  }

  /** When no row is selected, nothing comes back. */
  lemma {:induction false} SelectedInNone(t: Table, s: seq<ObjId>)
    requires forall k :: 0 <= k < |s| ==> !FlagsOf(t, s[k]).selected
    ensures SelectedIn(t, s) == []
  {
    if s != [] {
      var tail := s[1..];
      assert forall k :: 0 <= k < |tail| ==> tail[k] == s[k + 1];
      SelectedInNone(t, tail);
    }
  }

  // ---------------------------------------------------------------------
  // Queue and splice

  /** `addDataObject(obj)`: queued only; the rows do not change. */
  function AddDataObject(t: Table, o: ObjId): (t': Table)
    ensures t'.queue == t.queue + [o] && t'.data == t.data && t'.flags == t.flags
  {
    t.(queue := t.queue + [o])
  }

  /** `insertRows(row, count)`: refused unless `count` is the queue's length;
      otherwise the whole queue goes in before `row` (a Python slice
      assignment, so a row past the end appends and a negative one counts
      from the end) and the queue is emptied. */
  function InsertRows(t: Table, row: int, count: int): (r: (Table, bool))
    ensures !r.1 <==> count != |t.queue|
    ensures !r.1 ==> r.0 == t
    ensures r.1 ==> && r.0.queue == [] && r.0.flags == t.flags
                    && |r.0.data| == |t.data| + count
                    && r.0.data == Splice(t.data, row, t.queue)
  {
    if count != |t.queue| then (t, false)
    else (t.(data := Splice(t.data, row, t.queue), queue := []), true)
  }

  /** `removeRows(row, count)`: `del modelData[row:row + count + 1]`, so
      `count` + 1 rows go, and always reports success. */
  function RemoveRows(t: Table, row: int, count: int): (r: (Table, bool))
    ensures r.1 && r.0.queue == t.queue && r.0.flags == t.flags
    ensures 0 <= row && 0 <= count && row + count + 1 <= |t.data| ==>
      r.0.data == t.data[..row] + t.data[row + count + 1..]
  {
    (t.(data := Delete(t.data, row, row + count + 1)), true)
  }

  /** The tab's way of adding one feature: queue it, insert one row. The
      feature lands at `row` and everything else keeps its order. */
  lemma AddInsertOne(t: Table, o: ObjId, row: nat)
    requires t.queue == [] && row <= |t.data|
    ensures var (t', ok) := InsertRows(AddDataObject(t, o), row, 1);
      ok && t'.data == t.data[..row] + [o] + t.data[row..] && t'.queue == []
  {
  }

  /** The tab's way of removing a feature: look up its row, remove with
      count 0. Exactly its first occurrence goes. */
  lemma RemoveFound(t: Table, o: ObjId)
    requires o in t.data
    ensures var k := GetDataObjectRow(t, o).value;
      RemoveRows(t, k, 0).0.data == t.data[..k] + t.data[k + 1..]
  {
  }

  /** Removing, with count 0, the row a single feature was inserted at
      restores the rows. */
  lemma InsertRemoveOne(t: Table, o: ObjId, row: nat)
    requires t.queue == [] && row <= |t.data|
    ensures var t' := InsertRows(AddDataObject(t, o), row, 1).0;
      RemoveRows(t', row, 0).0.data == t.data
  {
    var t' := InsertRows(AddDataObject(t, o), row, 1).0;
    assert t'.data == t.data[..row] + [o] + t.data[row..];
    assert t'.data[..row] == t.data[..row];
    assert t'.data[row + 1..] == t.data[row..];
  }

  // ---------------------------------------------------------------------
  // setData

  /** `Qt.DisplayRole`, `Qt.DecorationRole`, `Qt.EditRole`, `Qt.CheckStateRole`. */
  const DisplayRole: int := 0
  const DecorationRole: int := 1
  const EditRole: int := 2
  const CheckStateRole: int := 10

  /** `Qt.Checked`. */
  const Checked: int := 2

  /** A value passed to `setData`: a Python bool, an integer (Qt's check
      states compare equal to theirs), or anything else. */
  datatype Value = Bool(b: bool) | Int(i: int) | OtherValue

  /** A model index; a valid one names a row of the model. */
  datatype Index = Index(valid: bool, row: int, column: int)

  /** `setData(index, value, role)`: the decoration of column 1 sets
      `isHidden` to whether the value is `True`; the check state of column 0
      selects exactly when the value equals `Qt.Checked`. The result is the
      base class's, which always refuses. */
  function SetData(t: Table, index: Index, v: Value, role: int): (r: (Table, bool))
    requires index.valid ==> 0 <= index.row < |t.data|
    ensures !r.1 && r.0.data == t.data && r.0.queue == t.queue
    ensures !index.valid ==> r.0 == t
    ensures index.valid ==>
      var o := t.data[index.row];
      && (forall p :: p != o ==> FlagsOf(r.0, p) == FlagsOf(t, p))
      && FlagsOf(r.0, o).hidden ==
           (if role == DecorationRole && index.column == 1 then v == Bool(true) else FlagsOf(t, o).hidden)
      && FlagsOf(r.0, o).selected ==
           (if role == CheckStateRole && index.column == 0 then v == Int(Checked) else FlagsOf(t, o).selected)
  {
    if !index.valid then (t, false)
    else
      var o := t.data[index.row];
      var f := FlagsOf(t, o);
      var f1 := if role == DecorationRole && index.column == 1 then f.(hidden := v == Bool(true)) else f;
      var f2 := if role == CheckStateRole && index.column == 0 then f1.(selected := v == Int(Checked)) else f1;
      (t.(flags := t.flags[o := f2]), false)
  }

  /** Checking row `k` puts its object among the selected ones, unchecking
      takes it out, and every other object stays in or out as before. */
  lemma CheckSelects(t: Table, k: nat, v: Value)
    requires k < |t.data|
    ensures var t' := SetData(t, Index(true, k, 0), v, CheckStateRole).0;
      && (t.data[k] in GetSelectedObjects(t') <==> v == Int(Checked))
      && forall p :: p != t.data[k] ==> (p in GetSelectedObjects(t') <==> p in GetSelectedObjects(t))
  {
  }
}
