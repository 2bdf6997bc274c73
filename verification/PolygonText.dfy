/** Polygons as parameter strings: polygonToString and makePolygonFromString of the laser filter. */
module PolygonText {
  import opened ArrayParser
  import opened Numerals

  datatype Point32 = Point32(x: real, y: real, z: real)

  type Polygon = seq<Point32>

  /** The coordinates that are printed; z is not. */
  function Coordinates(p: Polygon): (rows: Vvf)
    ensures |rows| == |p|
  {
    seq(|p|, k requires 0 <= k < |p| => [p[k].x, p[k].y])
  }

  /** A polygon as it comes back from its text: six decimals, and z = 0. */
  function RoundedPolygon(p: Polygon): Polygon {
    seq(|p|, k requires 0 <= k < |p| => Point32(Rounded(p[k].x), Rounded(p[k].y), 0.0))
  }

  lemma {:induction false} RowsTextSnoc(rows: Vvf, n: nat)
    requires n < |rows|
    ensures RowsText(rows[..n + 1]) == RowsText(rows[..n]) + (if n == 0 then "" else ", ") + RowText(rows[n])
  {
    hide RowText;
    if n == 0 {
      assert rows[..1] == [rows[0]];
    } else {
      RowsTextSnoc(rows[1..], n - 1);
      assert rows[..n + 1][1..] == rows[1..][..n];
      assert rows[..n][1..] == rows[1..][..n - 1];
      if n == 1 {
        assert rows[1..][..0] == [];
      }
    }
  }

  method PolygonToString(polygon: Polygon) returns (polygonString: string)
    ensures polygonString == VvfText(Coordinates(polygon))
  {
    hide FixedText, RowText, RowsText;
    ghost var rows := Coordinates(polygon);
    NoRows();
    polygonString := "[";
    var first := true;
    for i := 0 to |polygon|
      invariant first == (i == 0)
      invariant polygonString == "[" + RowsText(rows[..i])
    {
      var point := polygon[i];
      assert rows[i] == [point.x, point.y];
      RowsTextSnoc(rows, i);
      RowTextOfPair(point.x, point.y);
      if !first {
        polygonString := polygonString + ", ";
      }
      first := false;
      polygonString := polygonString + ("[" + FixedText(point.x) + ", " + FixedText(point.y) + "]");
    }
    assert rows[..|polygon|] == rows;
    polygonString := polygonString + "]";
  }

  lemma NoRows()
    ensures RowsText([]) == ""
  {
  }

  lemma RowTextOfPair(x: real, y: real)
    ensures RowText([x, y]) == "[" + FixedText(x) + ", " + FixedText(y) + "]"
  {
    hide FixedText;
    assert [x, y][1..] == [y];
    assert NumbersText([y]) == FixedText(y);
    assert NumbersText([x, y]) == FixedText(x) + (", " + FixedText(y));
  }

  /** The text is taken as a polygon: no error, no vertices or at least three, and pairs only. */
  predicate Accepted(parsed: (Vvf, VvfError)) {
    parsed.1 == NoError && !(0 < |parsed.0| < 3) && forall k :: 0 <= k < |parsed.0| ==> |parsed.0[k]| == 2
  }

  function MakePolygon(text: string, last: Polygon): Polygon {
    var parsed := Parse(text);
    if Accepted(parsed)
    then seq(|parsed.0|, k requires 0 <= k < |parsed.0| => Point32(parsed.0[k][0], parsed.0[k][1], 0.0))
    else last
  }

  method MakePolygonFromString(polygonString: string, lastPolygon: Polygon) returns (polygon: Polygon)
    ensures polygon == MakePolygon(polygonString, lastPolygon)
  {
    var vvf, error := ParseVVF(polygonString);
    if error != NoError {
      return lastPolygon;
    }
    polygon := [];
    if |vvf| < 3 && |vvf| > 0 {
      return lastPolygon;
    }
    for i := 0 to |vvf|
      invariant |polygon| == i
      invariant forall k :: 0 <= k < i ==> |vvf[k]| == 2 && polygon[k] == Point32(vvf[k][0], vvf[k][1], 0.0)
    {
      if |vvf[i]| == 2 {
        polygon := polygon + [Point32(vvf[i][0], vvf[i][1], 0.0)];
      } else {
        return lastPolygon;
      }
    }
  }

  /** The parser undoes the printer up to six decimals on every polygon it can represent: one or two
      vertices are not a polygon and leave the last one in place. */
  lemma PolygonRoundTrip(p: Polygon, last: Polygon)
    ensures MakePolygon(VvfText(Coordinates(p)), last) == if 0 < |p| < 3 then last else RoundedPolygon(p)
  {
    hide Parse, VvfText, Rounded;
    ParsePrinted(Coordinates(p));
  }

  /** Printing the result again changes nothing more, and no coordinate moves by more than half a
      millionth. */
  lemma RoundedPolygonIsStable(p: Polygon)
    ensures RoundedPolygon(RoundedPolygon(p)) == RoundedPolygon(p)
    ensures forall k :: 0 <= k < |p| ==>
      -0.0000005 <= RoundedPolygon(p)[k].x - p[k].x <= 0.0000005 &&
      -0.0000005 <= RoundedPolygon(p)[k].y - p[k].y <= 0.0000005
  {
    hide Rounded;
    forall k | 0 <= k < |p|
      ensures Rounded(Rounded(p[k].x)) == Rounded(p[k].x) && Rounded(Rounded(p[k].y)) == Rounded(p[k].y)
      ensures -0.0000005 <= Rounded(p[k].x) - p[k].x <= 0.0000005 && -0.0000005 <= Rounded(p[k].y) - p[k].y <= 0.0000005
    {
      RoundedTwice(p[k].x);
      RoundedTwice(p[k].y);
      RoundedIsClose(p[k].x);
      RoundedIsClose(p[k].y);
    }
  }

  lemma RoundedTwice(x: real)
    ensures Rounded(Rounded(x)) == Rounded(x)
  {
    var n: int := if x < 0.0 then -(Micros(x) as int) else Micros(x);
    assert Rounded(x) == FromMicros(n);
    RoundedIsClose(Rounded(x));
  }
}
