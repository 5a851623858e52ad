/** The rows of the point-entry table: labelled 2-D sample points, and the pure
    list transformations that the table's event handlers apply to them. */
module Points {

  /** A JavaScript number as far as the table is concerned. `parseFloat` may
      produce a finite value, NaN (for text that does not start with a number)
      or an infinity; its arithmetic is never used by the table. */
  datatype Number = Finite(r: real) | NaN | Infinite(negative: bool)

  /** One row of the table: `{x, y, value}`. */
  datatype Point = Point(x: Number, y: Number, value: Number)

  /** The three property names the table's inputs edit: "x", "y" and "value". */
  datatype Field = X | Y | Value

  /** The row a fresh table starts with and the row "+ Add Point" appends:
      `{x: 0, y: 0, value: 1.0}`. */
  const DefaultPoint: Point := Point(Finite(0.0), Finite(0.0), Finite(1.0))

  /** Reads property `f` of a point, `p[f]`. */
  function Get(p: Point, f: Field): (v: Number) {
    match f
    case X => p.x
    case Y => p.y
    case Value => p.value
  }

  /** The point `p` with property `f` overwritten by `v`, `p[f] = v`: the named
      property becomes `v` and the other two keep their values. */
  function Set(p: Point, f: Field, v: Number): (q: Point)
    ensures Get(q, f) == v
    ensures forall g :: g != f ==> Get(q, g) == Get(p, g)
  {
    match f
    case X => p.(x := v)
    case Y => p.(y := v)
    case Value => p.(value := v)
  }

  /** Two points that agree on all three properties are the same point. */
  lemma PointsAgreeingOnEveryField(p: Point, q: Point)
    requires forall g :: Get(p, g) == Get(q, g)
    ensures p == q
  {
    assert Get(p, X) == Get(q, X);
    assert Get(p, Y) == Get(q, Y);
    assert Get(p, Value) == Get(q, Value);
  }

  /** `Set` is characterised by its contract: any point that has `v` at `f` and
      agrees with `p` elsewhere is `Set(p, f, v)`. */
  lemma SetIsUnique(p: Point, f: Field, v: Number, q: Point)
    requires Get(q, f) == v
    requires forall g :: g != f ==> Get(q, g) == Get(p, g)
    ensures q == Set(p, f, v)
  {
    var s := Set(p, f, v);
    forall g ensures Get(q, g) == Get(s, g) {
    }
    PointsAgreeingOnEveryField(q, s);
  }

  // ---------------------------------------------------------------------------
  // Appending a row

  /** `[...points, {x: 0, y: 0, value: 1.0}]`. */
  function Appended(ps: seq<Point>): (r: seq<Point>)
    ensures |r| == |ps| + 1
    ensures r[..|ps|] == ps && r[|ps|] == DefaultPoint
  {
    ps + [DefaultPoint]
  }

  // ---------------------------------------------------------------------------
  // Removing a row

  /** `ps.filter((_, i) => i !== index)` over the suffix `ps` of a list whose
      first element sits at position `start`: every element whose position
      differs from `index` is kept, in order, so exactly one element is
      dropped when `index` falls inside the suffix and none otherwise. */
  function FilterOutPosition(ps: seq<Point>, index: int, start: int): (r: seq<Point>)
    ensures |r| == if start <= index < start + |ps| then |ps| - 1 else |ps|
    ensures forall p :: p in r ==> p in ps
    decreases |ps|
  {
    if ps == [] then []
    else
      var rest := FilterOutPosition(ps[1..], index, start + 1);
      assert ps == [ps[0]] + ps[1..];
      if start != index then [ps[0]] + rest else rest
  }

  /** The filter drops exactly the element at position `index` when that
      position is among `start .. start + |ps| - 1`, and keeps everything
      otherwise. */
  lemma {:induction false} FilterOutPositionIsSliceRemoval(ps: seq<Point>, index: int, start: int)
    ensures start <= index < start + |ps| ==>
              FilterOutPosition(ps, index, start) == ps[..index - start] + ps[index - start + 1..]
    ensures !(start <= index < start + |ps|) ==>
              FilterOutPosition(ps, index, start) == ps
    decreases |ps|
  {
    if ps != [] {
      FilterOutPositionIsSliceRemoval(ps[1..], index, start + 1);
      if start == index {
        assert ps[..0] + ps[1..] == ps[1..];
      } else if start < index < start + |ps| {
        var k := index - start;
        calc {
          FilterOutPosition(ps, index, start);
          [ps[0]] + (ps[1..][..k - 1] + ps[1..][k..]);
          { assert [ps[0]] + ps[1..][..k - 1] == ps[..k];
            assert ps[1..][k..] == ps[k + 1..]; }
          ps[..k] + ps[k + 1..];
        }
      } else {
        assert [ps[0]] + ps[1..] == ps;
      }
    }
  }

  /** `points.filter((_, i) => i !== index)`: removing an in-range position
      deletes exactly that row and keeps the others in their order; any other
      index leaves the list as it was. */
  function WithoutIndex(ps: seq<Point>, index: int): (r: seq<Point>)
    ensures 0 <= index < |ps| ==> r == ps[..index] + ps[index + 1..]
    ensures 0 <= index < |ps| ==> |r| == |ps| - 1
    ensures !(0 <= index < |ps|) ==> r == ps
  {
    FilterOutPositionIsSliceRemoval(ps, index, 0);
    FilterOutPosition(ps, index, 0)
  }

  /** After removing position `index`, the rows before it stay where they were
      and the rows after it move up by one; as a bag, exactly one copy of the
      removed row is gone. */
  lemma WithoutIndexReindexes(ps: seq<Point>, index: int)
    requires 0 <= index < |ps|
    ensures |WithoutIndex(ps, index)| == |ps| - 1
    ensures forall j :: 0 <= j < index ==> WithoutIndex(ps, index)[j] == ps[j]
    ensures forall j :: index <= j < |ps| - 1 ==> WithoutIndex(ps, index)[j] == ps[j + 1]
    ensures multiset(WithoutIndex(ps, index)) + multiset{ps[index]} == multiset(ps)
  {
    assert ps == ps[..index] + [ps[index]] + ps[index + 1..];
  }

  /** Removing the last row undoes appending the default row. */
  lemma WithoutIndexUndoesAppended(ps: seq<Point>)
    ensures WithoutIndex(Appended(ps), |ps|) == ps
  {
  }

  // ---------------------------------------------------------------------------
  // Editing one field of one row

  /** The list with property `f` of row `index` overwritten by `v`
      (`newPoints = [...points]; newPoints[index][f] = v`, on values): the
      length is kept, no other row changes, the named property of the edited
      row becomes `v` and that row's other two properties keep their values. */
  function Updated(ps: seq<Point>, index: nat, f: Field, v: Number): (r: seq<Point>)
    requires index < |ps|
    ensures |r| == |ps|
    ensures forall j :: 0 <= j < |ps| && j != index ==> r[j] == ps[j]
    ensures Get(r[index], f) == v
    ensures forall g :: g != f ==> Get(r[index], g) == Get(ps[index], g)
  {
    ps[index := Set(ps[index], f, v)]
  }

  /** Writing a property with the value it already holds changes nothing. */
  lemma UpdatedWithCurrentValueIsIdentity(ps: seq<Point>, index: nat, f: Field)
    requires index < |ps|
    ensures Updated(ps, index, f, Get(ps[index], f)) == ps
  {
  }

  /** The last write to a property wins: editing it twice is the same as
      editing it once with the second value. */
  lemma UpdatedTwiceKeepsLast(ps: seq<Point>, index: nat, f: Field, v: Number, w: Number)
    requires index < |ps|
    ensures Updated(Updated(ps, index, f, v), index, f, w) == Updated(ps, index, f, w)
  {
  }

  /** Edits to different properties of a row commute. */
  lemma UpdatesOfDistinctFieldsCommute(ps: seq<Point>, index: nat, f: Field, v: Number, g: Field, w: Number)
    requires index < |ps| && f != g
    ensures Updated(Updated(ps, index, f, v), index, g, w) == Updated(Updated(ps, index, g, w), index, f, v)
  {
  }
}
