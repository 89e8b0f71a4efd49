/**
  The list screen: one `CarItem` row per car, each with its own remembered
  state. A click is addressed to one row, by its position in the list.
 */
module Showroom {
  import opened Carousel
  import opened CarData
  import opened CarItem

  /** The rows' states line up with the cars, and every row's carousel index
      is a valid subscript into its own car's detail images. */
  predicate RowsValid(cars: seq<Car>, rows: seq<RowState>) {
    && |rows| == |cars|
    && forall j :: 0 <= j < |rows| ==> Valid(rows[j], ImageCount(cars[j]))
  }

  /** The screen as first composed: one fresh row per car. */
  function InitialRows(cars: seq<Car>): (rows: seq<RowState>)
    ensures |rows| == |cars|
    ensures forall j :: 0 <= j < |rows| ==> !rows[j].expanded && rows[j].index == 0
    ensures WellFormedCatalog(cars) ==> RowsValid(cars, rows)
  {
    seq(|cars|, _ => Initial)
  }

  /** A click on a button of row `i`. */
  datatype Click = Click(row: nat, event: Event)

  /** Deliver one click to its row. The rows do not share state, so every
      other row is left exactly as it was. */
  function Dispatch(cars: seq<Car>, rows: seq<RowState>, c: Click): (r: seq<RowState>)
    requires |rows| == |cars| && c.row < |rows|
    ensures |r| == |rows|
    ensures forall j :: 0 <= j < |rows| && j != c.row ==> r[j] == rows[j]
    ensures r[c.row].expanded != rows[c.row].expanded <==> c.event == Toggle
    ensures RowsValid(cars, rows) ==> RowsValid(cars, r)
  {
    rows[c.row := Step(rows[c.row], c.event, ImageCount(cars[c.row]))]
  }

  /** Every click addresses a row that is on screen. */
  predicate Addressed(rowCount: nat, cs: seq<Click>) {
    forall k :: 0 <= k < |cs| ==> cs[k].row < rowCount
  }

  /** The clicks of `cs` that address row `j`, in order. */
  function ClicksOn(cs: seq<Click>, j: nat): seq<Event>
    decreases |cs|
  {
    if cs == [] then []
    else (if cs[0].row == j then [cs[0].event] else []) + ClicksOn(cs[1..], j)
  }

  /** A row receives no click exactly when no click addresses it. */
  lemma {:induction false} ClicksOnEmptyIffUnaddressed(cs: seq<Click>, j: nat)
    ensures ClicksOn(cs, j) == [] <==> forall k :: 0 <= k < |cs| ==> cs[k].row != j
    decreases |cs|
  {
    if cs != [] {
      ClicksOnEmptyIffUnaddressed(cs[1..], j);
      assert forall k :: 1 <= k < |cs| ==> cs[1..][k - 1] == cs[k];
    }
  }

  /** The screen after a sequence of clicks. */
  function RunScreen(cars: seq<Car>, rows: seq<RowState>, cs: seq<Click>): (r: seq<RowState>)
    requires |rows| == |cars| && Addressed(|rows|, cs)
    ensures |r| == |rows|
    // a row no click addresses keeps its state
    ensures forall j :: 0 <= j < |rows| && (forall k :: 0 <= k < |cs| ==> cs[k].row != j) ==> r[j] == rows[j]
    ensures RowsValid(cars, rows) ==> RowsValid(cars, r)
    decreases |cs|
  {
    if cs == [] then rows else RunScreen(cars, Dispatch(cars, rows, cs[0]), cs[1..])
  }

  /** Row independence, in full: whatever the other rows receive, row `j` ends
      in the state its own clicks alone lead it to. */
  lemma {:induction false} RowSeesOnlyItsClicks(cars: seq<Car>, rows: seq<RowState>, cs: seq<Click>, j: nat)
    requires |rows| == |cars| && Addressed(|rows|, cs) && j < |rows|
    ensures RunScreen(cars, rows, cs)[j] == Run(rows[j], ClicksOn(cs, j), ImageCount(cars[j]))
    decreases |cs|
  {
    var n := ImageCount(cars[j]);
    if cs != [] {
      var next := Dispatch(cars, rows, cs[0]);
      assert Addressed(|next|, cs[1..]) by {
        forall k | 0 <= k < |cs[1..]|
          ensures cs[1..][k].row < |next|
        {
          assert cs[1..][k] == cs[k + 1];
        }
      }
      RowSeesOnlyItsClicks(cars, next, cs[1..], j);
      if cs[0].row == j {
        var own := [cs[0].event] + ClicksOn(cs[1..], j);
        assert own[0] == cs[0].event && own[1..] == ClicksOn(cs[1..], j);
      } else {
        assert ClicksOn(cs, j) == ClicksOn(cs[1..], j);
      }
    }
  }

  /** Every row of every screen that can arise renders without an out-of-range
      subscript: composing row `j` finds its detail image whenever it is
      expanded. */
  lemma ScreenRendersSafely(cars: seq<Car>, cs: seq<Click>, j: nat)
    requires WellFormedCatalog(cars) && Addressed(|cars|, cs) && j < |cars|
    ensures RunScreen(cars, InitialRows(cars), cs)[j].expanded ==>
      ValidIndex(RunScreen(cars, InitialRows(cars), cs)[j].index, ImageCount(cars[j]))
  {
    var rows := InitialRows(cars);
    assert RowsValid(cars, rows);
  }
}
