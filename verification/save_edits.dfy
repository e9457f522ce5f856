/** Writing an edited data frame back to the `metadata` table: the "save
    changes" button of the browsing view and the write-back of the summary
    page. Both copy the frame to a temporary table, delete the rows whose
    ids are missing from the frame, delete the rows whose ids are in it, and
    insert every row of the frame without its id. */
module SaveEdits {
  import opened Wrappers
  import opened Text
  import opened Literature

  /** A row of the edited data frame; `id` is missing for a row added in the editor. */
  datatype Edited = Edited(id: Option<int>, fields: Fields)

  /** The ids present in the frame (`edited_df['id']`, missing ids aside). */
  function EditedIds(edited: seq<Edited>): (r: set<int>)
    ensures forall id :: id in r <==> exists i :: 0 <= i < |edited| && edited[i].id == Some(id)
  {
    set i | 0 <= i < |edited| && edited[i].id.Some? :: edited[i].id.value
  }

  function FieldsOf(edited: seq<Edited>): (r: seq<Fields>)
    ensures |r| == |edited| && forall i :: 0 <= i < |edited| ==> r[i] == edited[i].fields
  {
    if |edited| == 0 then [] else [edited[0].fields] + FieldsOf(edited[1..])
  }

  /** A frame showing `rows` as they are. */
  function AsEdited(rows: seq<Row>): (r: seq<Edited>)
    ensures |r| == |rows| && forall i :: 0 <= i < |rows| ==> r[i] == Edited(Some(rows[i].id), rows[i].fields)
  {
    if |rows| == 0 then [] else [Edited(Some(rows[0].id), rows[0].fields)] + AsEdited(rows[1..])
  }

  /** `INSERT INTO metadata (...) SELECT ... FROM temp_metadata`: the rows
      inserted one after another, each with a fresh id. */
  function InsertAll(rows: seq<Row>, fs: seq<Fields>): (r: seq<Row>)
    ensures |r| == |rows| + |fs| && r[..|rows|] == rows
    ensures forall k :: 0 <= k < |fs| ==> r[|rows| + k].fields == fs[k]
    ensures UniqueIds(rows) ==> UniqueIds(r)
    decreases |fs|
  {
    if |fs| == 0 then rows
    else
      var r := InsertAll(Insert(rows, fs[0]), fs[1..]);
      assert r[..|rows| + 1][..|rows|] == r[..|rows|];
      r
  }

  /** The rows `fs` numbered 1, 2, 3, ... */
  function Numbered(fs: seq<Fields>): (r: seq<Row>)
    ensures |r| == |fs| && forall i :: 0 <= i < |fs| ==> r[i] == Row(i + 1, fs[i])
  {
    seq(|fs|, i requires 0 <= i < |fs| => Row(i + 1, fs[i]))
  }

  lemma NumberedNextId(fs: seq<Fields>)
    ensures NextId(Numbered(fs)) == |fs| + 1
  {
    if |fs| > 0 {
      var rows := Numbered(fs);
      assert rows[|fs| - 1].id == |fs|;
    }
  }

  lemma InsertAllStep(rows: seq<Row>, fs: seq<Fields>)
    requires |fs| > 0
    ensures InsertAll(rows, fs) == InsertAll(Insert(rows, fs[0]), fs[1..])
  {
  }

  /** Inserting after rows numbered 1..n gives the next row the number n + 1. */
  lemma InsertNumbered(fs: seq<Fields>, f: Fields)
    ensures Insert(Numbered(fs), f) == Numbered(fs + [f])
  {
    NumberedNextId(fs);
    var r := Insert(Numbered(fs), f);
    var n := Numbered(fs + [f]);
    assert |r| == |n|;
    forall i | 0 <= i < |r|
      ensures r[i] == n[i]
    {
      if i < |fs| {
        assert r[i] == r[..|fs|][i];
      }
    }
  }

  /** Inserting after rows numbered 1..n continues the numbering. */
  lemma {:induction false} InsertAllNumbers(done: seq<Fields>, rest: seq<Fields>)
    ensures InsertAll(Numbered(done), rest) == Numbered(done + rest)
    decreases |rest|
  {
    if |rest| == 0 {
      assert done + rest == done;
    } else {
      var next := done + [rest[0]];
      calc {
        InsertAll(Numbered(done), rest);
        { InsertAllStep(Numbered(done), rest); }
        InsertAll(Insert(Numbered(done), rest[0]), rest[1..]);
        { InsertNumbered(done, rest[0]); }
        InsertAll(Numbered(next), rest[1..]);
        { InsertAllNumbers(next, rest[1..]); }
        Numbered(next + rest[1..]);
        { assert next + rest[1..] == done + rest; }
        Numbered(done + rest);
      }
    }
  }

  lemma KeepWhereNone(xs: seq<Row>, p: Row -> bool)
    requires forall x :: x in xs ==> !p(x)
    ensures KeepWhere(xs, p) == []
  {
  }

  /** The save as written. */
  function Merge(existing: seq<Row>, edited: seq<Edited>): (r: seq<Row>)
    ensures |r| == |edited|
    ensures forall k :: 0 <= k < |edited| ==> r[k].fields == edited[k].fields
  {
    var ids := EditedIds(edited);
    var afterMissing := KeepWhere(existing, (x: Row) => x.id in ids);
    var afterListed := KeepWhere(afterMissing, (x: Row) => x.id !in ids);
    KeepWhereNone(afterMissing, (x: Row) => x.id !in ids);
    InsertAll(afterListed, FieldsOf(edited))
  }

  /** The two deletes together remove every stored row, so a save replaces
      the table by the frame's rows renumbered from 1: every id changes
      meaning, and whatever the frame did not show is gone. */
  lemma MergeRenumbers(existing: seq<Row>, edited: seq<Edited>)
    ensures Merge(existing, edited) == Numbered(FieldsOf(edited))
  {
    var ids := EditedIds(edited);
    var afterMissing := KeepWhere(existing, (x: Row) => x.id in ids);
    KeepWhereNone(afterMissing, (x: Row) => x.id !in ids);
    var fs := FieldsOf(edited);
    assert [] + fs == fs;
    InsertAllNumbers([], fs);
  }

  /** Saving the filtered view without touching it leaves only the rows the
      filter showed. */
  lemma MergeKeepsOnlyTheView(existing: seq<Row>, c: Criteria)
    requires Filter(c, existing).Ok?
    ensures var view := Filter(c, existing).value;
      |Merge(existing, AsEdited(view))| == |view|
      && forall i :: 0 <= i < |view| ==> Merge(existing, AsEdited(view))[i].fields == view[i].fields
  {
    MergeRenumbers(existing, AsEdited(Filter(c, existing).value));
  }

  /** The save as evidently intended: only the rows the editor showed
      (`visible`) and then dropped are deleted; rows the filter hid stay. */
  function SaveVisible(existing: seq<Row>, visible: set<int>, edited: seq<Edited>): (r: seq<Row>)
    ensures StoresLast(r, edited)
  {
    var r := InsertAll(Survivors(existing, visible, EditedIds(edited)), FieldsOf(edited));
    InsertAllFrameLast(Survivors(existing, visible, EditedIds(edited)), edited, r);
    r
  }

  /** The table `r` ends with the frame's rows, in the frame's order. */
  predicate StoresLast(r: seq<Row>, edited: seq<Edited>)
  {
    |r| >= |edited| && forall k :: 0 <= k < |edited| ==> r[|r| - |edited| + k].fields == edited[k].fields
  }

  /** Inserting a frame puts its rows last, in order. */
  lemma InsertAllFrameLast(rows: seq<Row>, edited: seq<Edited>, r: seq<Row>)
    requires r == InsertAll(rows, FieldsOf(edited))
    ensures StoresLast(r, edited)
  {
    forall k | 0 <= k < |edited|
      ensures r[|r| - |edited| + k].fields == edited[k].fields
    {
      assert |r| - |edited| + k == |rows| + k;
    }
  }

  /** The stored rows both deletions of the corrected save leave in place. */
  function Survivors(existing: seq<Row>, visible: set<int>, ids: set<int>): seq<Row>
  {
    var afterDropped := KeepWhere(existing, (x: Row) => x.id !in visible || x.id in ids);
    KeepWhere(afterDropped, (x: Row) => x.id !in ids)
  }

  /** A row hidden from the editor and not named by the frame survives unchanged. */
  lemma SaveVisibleKeepsHidden(existing: seq<Row>, visible: set<int>, edited: seq<Edited>, x: Row)
    requires x in existing && x.id !in visible && x.id !in EditedIds(edited)
    ensures x in SaveVisible(existing, visible, edited)
  {
    var ids := EditedIds(edited);
    var afterDropped := KeepWhere(existing, (x: Row) => x.id !in visible || x.id in ids);
    var afterListed := KeepWhere(afterDropped, (x: Row) => x.id !in ids);
    var r := InsertAll(afterListed, FieldsOf(edited));
    assert x in afterListed;
    assert r[..|afterListed|] == afterListed;
  }

  /** Before the frame's rows only stored rows survive, and none the frame names. */
  lemma SaveVisibleKeepsOnlyStored(existing: seq<Row>, visible: set<int>, edited: seq<Edited>)
    ensures var r := SaveVisible(existing, visible, edited);
      forall i :: 0 <= i < |r| - |edited| ==> r[i] in existing && r[i].id !in EditedIds(edited)
  {
    var ids := EditedIds(edited);
    var afterDropped := KeepWhere(existing, (x: Row) => x.id !in visible || x.id in ids);
    var afterListed := Survivors(existing, visible, ids);
    assert forall x :: x in afterListed ==> x in afterDropped && x.id !in ids;
    var r := InsertAll(afterListed, FieldsOf(edited));
    assert forall i :: 0 <= i < |afterListed| ==> r[i] == afterListed[i] by {
      assert r[..|afterListed|] == afterListed;
    }
  }

  /** When the editor showed every stored row, the corrected save is the
      save as written. */
  lemma SaveVisibleAllIsMerge(existing: seq<Row>, visible: set<int>, edited: seq<Edited>)
    requires Ids(existing) <= visible
    ensures SaveVisible(existing, visible, edited) == Merge(existing, edited)
  {
    var ids := EditedIds(edited);
    forall x | x in existing
      ensures (x.id !in visible || x.id in ids) == (x.id in ids)
    {
      assert x.id in Ids(existing);
    }
    KeepWhereAgree(existing, (x: Row) => x.id !in visible || x.id in ids, (x: Row) => x.id in ids);
  }

  // ------------------------------------------------------------- example

  /** A row that only differs in its read flag. */
  function Paper(read: int): Fields {
    Fields(Null, Null, Null, Null, Null, Null, Null, Null, Null, Null, Null, Str("10.1234/x"), Null, Null, Null, Int(read))
  }

  /** Two papers, one read and one unread. */
  function Shelf(): seq<Row> {
    [Row(1, Paper(1)), Row(2, Paper(0))]
  }

  /** The unchanged view of the read papers. */
  function ReadView(): seq<Edited> {
    [Edited(Some(1), Paper(1))]
  }

  /** Filtering by "read" shows the read paper only. */
  lemma ReadFilterShowsOne()
    ensures Filter(Criteria(Some(true), None, None, None, None, ""), Shelf()) == Ok([Row(1, Paper(1))])
    ensures AsEdited([Row(1, Paper(1))]) == ReadView()
  {
    var c := Criteria(Some(true), None, None, None, None, "");
    var p := (x: Row) => x.fields.read == Int(if c.status.value then 1 else 0);
    assert Shelf()[1..] == [Row(2, Paper(0))];
    assert KeepWhere([Row(2, Paper(0))], p) == [];
    assert KeepWhere(Shelf(), p) == [Row(1, Paper(1))];
  }

  /** Saving that view unchanged deletes the unread paper. */
  lemma HiddenRowLost()
    ensures Merge(Shelf(), ReadView()) == [Row(1, Paper(1))]
  {
    MergeRenumbers(Shelf(), ReadView());
    assert FieldsOf(ReadView()) == [Paper(1)];
  }

  /** The corrected save keeps it, and gives the saved row a fresh id. */
  lemma HiddenRowKept()
    ensures SaveVisible(Shelf(), {1}, ReadView()) == [Row(2, Paper(0)), Row(3, Paper(1))]
  {
    var ids := EditedIds(ReadView());
    assert ids == {1} by {
      assert ReadView()[0].id == Some(1);
    }
    KeepWhereAll(Shelf(), (x: Row) => x.id !in {1} || x.id in ids);
    assert Shelf()[1..] == [Row(2, Paper(0))];
    var kept := KeepWhere(Shelf(), (x: Row) => x.id !in ids);
    assert kept == [Row(2, Paper(0))];
    assert FieldsOf(ReadView()) == [Paper(1)];
    assert NextId(kept) == 3;
  }
}
