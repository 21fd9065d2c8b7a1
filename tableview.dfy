/** The admin UI's table viewer skeleton (admin/static/js/tableview.js): the
    StaticRowSource stub that makes id windows by arithmetic, and the
    TableViewer's load decision and row holder. */
module TableView {
  import opened Wrappers

  /** A row handed to the viewer; the stub's rows carry only an id. */
  datatype Row = Row(id: int)

  /** The part of a bounding client rectangle the viewer compares. */
  datatype Rect = Rect(top: real, bottom: real)

  /** Which row-source calls one redraw issues. */
  datatype Requests = Requests(fromStart: bool, before: bool, after: bool)

  /** The error a script raises on reading an undeclared name. */
  datatype ScriptError = ReferenceError(name: string)

  /** How many rows the stub returns per request. */
  const PageSize: nat := 10

  const RowScrollerClass: string := "TableViewerRowScroller"
  const RowHolderClass: string := "TableViewerRowHolder"

  function Max(a: int, b: int): int {
    if a < b then b else a
  }

  /** The rows with ids lo, lo + 1, ..., lo + n - 1. */
  function IdRun(lo: int, n: nat): seq<Row> {
    seq(n, i => Row(lo + i))
  }

  /** What getRowsBefore(key) resolves to. */
  function RowsBefore(key: int): seq<Row> {
    var lo := Max(0, key - PageSize);
    if lo < key then IdRun(lo, key - lo) else []
  }

  /** What getRowsAfter(key) resolves to. */
  function RowsAfter(key: int): seq<Row> {
    IdRun(key + 1, PageSize)
  }

  /** What getRowsFromStart() resolves to. */
  function RowsFromStart(): seq<Row> {
    IdRun(0, PageSize)
  }

  /** Consecutive ids in ascending order, starting at first. */
  predicate Consecutive(rows: seq<Row>, first: int) {
    forall i :: 0 <= i < |rows| ==> rows[i].id == first + i
  }

  /** getRowsBefore: at most ten rows, ascending and consecutive, holding exactly
      the ids from max(0, key - 10) up to key - 1; none when key <= 0, ten when
      key >= 10. */
  lemma RowsBeforeWindow(key: int)
    ensures |RowsBefore(key)| <= PageSize
    ensures Consecutive(RowsBefore(key), Max(0, key - PageSize))
    ensures forall id :: Row(id) in RowsBefore(key) <==> Max(0, key - PageSize) <= id < key
    ensures forall r :: r in RowsBefore(key) ==> 0 <= r.id < key
    ensures key <= 0 ==> RowsBefore(key) == []
    ensures key >= PageSize ==> |RowsBefore(key)| == PageSize
  {
    var lo := Max(0, key - PageSize);
    forall id | lo <= id < key
      ensures Row(id) in RowsBefore(key)
    {
      assert RowsBefore(key)[id - lo] == Row(id);
    }
  }

  /** getRowsAfter: exactly ten rows, ascending and consecutive, holding exactly
      the ids key + 1 up to key + 10. */
  lemma RowsAfterWindow(key: int)
    ensures |RowsAfter(key)| == PageSize
    ensures Consecutive(RowsAfter(key), key + 1)
    ensures forall id :: Row(id) in RowsAfter(key) <==> key < id <= key + PageSize
  {
    forall id | key < id <= key + PageSize
      ensures Row(id) in RowsAfter(key)
    {
      assert RowsAfter(key)[id - key - 1] == Row(id);
    }
  }

  /** getRowsFromStart: exactly the rows with ids 0..9, in order. */
  lemma RowsFromStartWindow()
    ensures |RowsFromStart()| == PageSize
    ensures Consecutive(RowsFromStart(), 0)
    ensures RowsFromStart() == RowsAfter(-1)
  {
  }

  /** Neither window contains the key itself; for key >= 10 the window before,
      the key and the window after are 21 consecutive ids. */
  lemma WindowsAroundKey(key: int)
    ensures Row(key) !in RowsBefore(key) && Row(key) !in RowsAfter(key)
    ensures key >= PageSize ==>
      |RowsBefore(key) + [Row(key)] + RowsAfter(key)| == 2 * PageSize + 1 &&
      Consecutive(RowsBefore(key) + [Row(key)] + RowsAfter(key), key - PageSize)
  {
    RowsBeforeWindow(key);
    RowsAfterWindow(key);
    if key >= PageSize {
      var s := RowsBefore(key) + [Row(key)] + RowsAfter(key);
      forall i | 0 <= i < |s|
        ensures s[i].id == key - PageSize + i
      {
        if i < PageSize {
          assert s[i] == RowsBefore(key)[i];
        } else if i > PageSize {
          assert s[i] == RowsAfter(key)[i - PageSize - 1];
        }
      }
    }
  }

  /** StaticRowSource: a stub source that makes rows from ids alone; the promise
      each call returns is modelled by the rows it resolves to. */
  class StaticRowSource {
    const jsonRows: seq<Row>

    constructor (jsonRows: seq<Row>)
      ensures this.jsonRows == jsonRows
    {
      this.jsonRows := jsonRows;
    }

    /** The ids from max(0, key - 10) while id + 0.5 < key. */
    method GetRowsBefore(key: int) returns (ret: seq<Row>)
      ensures ret == RowsBefore(key)
    {
      ret := [];
      var lo := Max(0, key - PageSize);
      var i := lo;
      // i + 0.5 < key, doubled to stay in integers
      while 2 * i + 1 < 2 * key
        invariant lo <= i && (lo < key ==> i <= key) && (key <= lo ==> i == lo)
        invariant ret == IdRun(lo, i - lo)
        decreases key - i
      {
        ret := ret + [Row(i)];
        i := i + 1;
      }
    }

    /** The ids from key + 1 while id + 0.5 < key + 11. */
    method GetRowsAfter(key: int) returns (ret: seq<Row>)
      ensures ret == RowsAfter(key)
    {
      ret := [];
      var i := key + 1;
      while 2 * i + 1 < 2 * (key + 11)
        invariant key + 1 <= i <= key + 11
        invariant ret == IdRun(key + 1, i - key - 1)
        decreases key + 11 - i
      {
        ret := ret + [Row(i)];
        i := i + 1;
      }
    }

    /** The ids 0 to 9. */
    method GetRowsFromStart() returns (ret: seq<Row>)
      ensures ret == RowsFromStart()
    {
      ret := [];
      for i := 0 to PageSize
        invariant ret == IdRun(0, i)
      {
        ret := ret + [Row(i)];
      }
    }

    /** Nothing to cancel: the stub has no pending requests. */
    method CancelPendingRequests() {
    }
  }

  /** TableViewer: the element's children, the scroller's children, the rows
      rendered in the row holder, and the underflow flag. */
  class TableViewer {
    const rowSource: StaticRowSource
    /** Class names of the children of the viewer's element. */
    var elChildren: seq<string>
    /** Class names of the children of the row scroller. */
    var scrollerChildren: seq<string>
    /** The rows rendered in the row holder, in document order. */
    var rendered: seq<Row>
    /** Set when a load came back short of filling the view. */
    var underflow: bool
    /** No column headers are built yet. */
    var hasColumnHeaders: bool

    /** Empties the element, then builds element > scroller > holder. */
    constructor (el: seq<string>, rowSource: StaticRowSource)
      ensures this.rowSource == rowSource
      ensures !underflow && !hasColumnHeaders
      ensures elChildren == [RowScrollerClass] && scrollerChildren == [RowHolderClass]
      ensures rendered == []
    {
      this.rowSource := rowSource;
      underflow := false;
      var children := el;
      while children != []
        decreases |children|
      {
        children := children[1..];
      }
      elChildren := children;
      hasColumnHeaders := false;
      elChildren := elChildren + [RowScrollerClass];
      scrollerChildren := [RowHolderClass];
      rendered := [];
    }

    /** redraw, with the rows rectangle read where the source reads its inner
        rectangle and the scroller rectangle where it reads its outer one. An
        empty holder asks for the first page unless the last load underflowed;
        otherwise rows are asked for before when the rows start below the
        scroller's top, and after when they end above its bottom and the last
        load did not underflow. */
    method Redraw(rowsRect: Rect, scrollerRect: Rect) returns (req: Requests)
      ensures rendered == [] ==> req == Requests(!underflow, false, false)
      ensures rendered != [] ==> !req.fromStart
      ensures rendered != [] ==> (req.before <==> rowsRect.top > scrollerRect.top)
      ensures rendered != [] ==>
        (req.after <==> rowsRect.bottom < scrollerRect.bottom && !underflow)
      ensures underflow ==> !req.fromStart && !req.after
      ensures rendered != [] && rowsRect.top <= scrollerRect.top && scrollerRect.bottom <= rowsRect.bottom ==>
        req == Requests(false, false, false)
    {
      if |rendered| == 0 {
        req := Requests(!underflow, false, false);
        return;
      }
      var loadPreceding := rowsRect.top > scrollerRect.top;
      var loadSubsequent := rowsRect.bottom < scrollerRect.bottom && !underflow;
      req := Requests(false, loadPreceding, loadSubsequent);
    }

    /** redraw as written: once rows are rendered it reads the undeclared
        innerBoundingRect before issuing any request, and so throws. */
    method RedrawAsWritten(rowsRect: Rect, scrollerRect: Rect) returns (r: Result<Requests, ScriptError>)
      ensures rendered == [] ==> r == Ok(Requests(!underflow, false, false))
      ensures rendered != [] ==> r == Err(ReferenceError("innerBoundingRect"))
    {
      if |rendered| == 0 {
        r := Ok(Requests(!underflow, false, false));
        return;
      }
      r := Err(ReferenceError("innerBoundingRect"));
    }

    /** Asks the row source to drop its pending requests. */
    method Cleanup() {
      rowSource.CancelPendingRequests();
    }

    /** supplyRows: one rendered row per supplied row, appended after the rows
        already rendered, in the order supplied. */
    method SupplyRows(rows: seq<Row>)
      modifies this
      ensures rendered == old(rendered) + rows
      ensures underflow == old(underflow) && hasColumnHeaders == old(hasColumnHeaders)
      ensures elChildren == old(elChildren) && scrollerChildren == old(scrollerChildren)
    {
      for k := 0 to |rows|
        invariant rendered == old(rendered) + rows[..k]
        invariant underflow == old(underflow) && hasColumnHeaders == old(hasColumnHeaders)
        invariant elChildren == old(elChildren) && scrollerChildren == old(scrollerChildren)
      {
        rendered := rendered + [rows[k]];
      }
      assert rows[..|rows|] == rows;
    }
  }

  /** A fresh viewer's first redraw asks for the first page only; once that page
      is supplied the viewer shows ids 0..9 in order, and a second redraw does not
      ask for the first page again, and asks for nothing when the rows cover the
      scroller. */
  method FirstLoad(rowsRect: Rect, scrollerRect: Rect) returns (first: Requests, shown: seq<Row>, second: Requests)
    ensures first == Requests(true, false, false)
    ensures |shown| == PageSize && Consecutive(shown, 0)
    ensures !second.fromStart
    ensures second.before <==> rowsRect.top > scrollerRect.top
    ensures second.after <==> rowsRect.bottom < scrollerRect.bottom
  {
    var source := new StaticRowSource([]);
    var viewer := new TableViewer([], source);
    first := viewer.Redraw(rowsRect, scrollerRect);
    var rows := source.GetRowsFromStart();
    viewer.SupplyRows(rows);
    shown := viewer.rendered;
    RowsFromStartWindow();
    second := viewer.Redraw(rowsRect, scrollerRect);
  }

  /** The redraw as written throws on the second call of the same first load,
      whatever the geometry: no further rows are ever requested. */
  method AsWrittenFailsAfterFirstLoad(rowsRect: Rect, scrollerRect: Rect) returns (first: Result<Requests, ScriptError>, second: Result<Requests, ScriptError>)
    ensures first == Ok(Requests(true, false, false))
    ensures second.Err?
  {
    var source := new StaticRowSource([]);
    var viewer := new TableViewer([], source);
    first := viewer.RedrawAsWritten(rowsRect, scrollerRect);
    var rows := source.GetRowsFromStart();
    viewer.SupplyRows(rows);
    second := viewer.RedrawAsWritten(rowsRect, scrollerRect);
  }
}
