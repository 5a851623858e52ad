/** The point-entry table component: its `points` state and the three event
    handlers that replace it. Every handler runs to completion before the next
    event, so each one is a method that reassigns `points`. */
module Table {
  import opened Points

  /** What an edit event ends with: normally, or with the TypeError that
      `newPoints[index][field] = ...` raises when `newPoints[index]` is
      `undefined` (an index outside the list). */
  datatype ChangeOutcome = Changed | TypeError

  class PointInputTable {
    /** The rows, in insertion order (the `points` state). */
    var points: seq<Point>
    /** Every list handed to the parent's `onPointsChange`, oldest first. */
    var notified: seq<seq<Point>>

    /** A freshly mounted table holds the single default row and has told the
        parent nothing yet. */
    constructor ()
      ensures points == [DefaultPoint]
      ensures notified == []
    {
      points := [DefaultPoint];
      notified := [];
    }

    /** "+ Add Point": appends one default row at the end and does not call
        `onPointsChange`. */
    method HandleAddPoint()
      modifies this
      ensures points == Appended(old(points))
      ensures |points| == |old(points)| + 1 && points[..|old(points)|] == old(points)
      ensures points[|old(points)|] == DefaultPoint
      ensures notified == old(notified)
    {
      points := Appended(points);
    }

    /** "Remove": keeps every row whose position differs from `index` and hands
        the new list to `onPointsChange`. An index outside the list removes
        nothing, but the parent is still notified. */
    method HandleRemovePoint(index: int)
      modifies this
      ensures points == WithoutIndex(old(points), index)
      ensures 0 <= index < |old(points)| ==>
                points == old(points)[..index] + old(points)[index + 1..]
      ensures !(0 <= index < |old(points)|) ==> points == old(points)
      ensures notified == old(notified) + [points]
    {
      var newPoints := WithoutIndex(points, index);
      points := newPoints;
      notified := notified + [newPoints];
    }

    /** An edit of property `field` of row `index` to the text `text`: the
        property becomes `parseFloat(text)`, nothing else changes, and the new
        list goes to `onPointsChange`. `parseFloat` is the host's number parser,
        taken as given. For an index outside the list the assignment throws
        before any state is set or the parent is called. */
    method HandleChange(index: int, field: Field, text: string, parseFloat: string -> Number)
      returns (outcome: ChangeOutcome)
      modifies this
      ensures outcome == (if 0 <= index < |old(points)| then Changed else TypeError)
      ensures outcome == TypeError ==> points == old(points) && notified == old(notified)
      ensures outcome == Changed ==>
                && points == Updated(old(points), index, field, parseFloat(text))
                && |points| == |old(points)|
                && (forall j :: 0 <= j < |points| && j != index ==> points[j] == old(points)[j])
                && Get(points[index], field) == parseFloat(text)
                && (forall g :: g != field ==> Get(points[index], g) == Get(old(points)[index], g))
                && notified == old(notified) + [points]
    {
      if !(0 <= index < |points|) {
        return TypeError;
      }
      var newPoints := Updated(points, index, field, parseFloat(text));
      points := newPoints;
      notified := notified + [newPoints];
      outcome := Changed;
    }
  }

  /** A short session against the contracts above: after adding a row, editing
      it and removing the first row, the table holds the edited row alone and
      the parent last saw exactly that list. */
  method Session(parseFloat: string -> Number) {
    var t := new PointInputTable();
    t.HandleAddPoint();
    assert t.notified == [];
    var o := t.HandleChange(1, Y, "3", parseFloat);
    assert o == Changed;
    var edited := Point(Finite(0.0), parseFloat("3"), Finite(1.0));
    assert t.points == [DefaultPoint, edited];
    t.HandleRemovePoint(5);
    assert t.points == [DefaultPoint, edited];
    t.HandleRemovePoint(0);
    assert t.points == [edited];
    assert t.notified[|t.notified| - 1] == t.points;
    o := t.HandleChange(4, X, "7", parseFloat);
    assert o == TypeError && t.points == [edited];
  }
}
