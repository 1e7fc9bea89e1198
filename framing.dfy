/** getNextLargerOrRetain and the auto-framing radius of the top-down and
    edge-on views: the camera is pulled back far enough to include the orbit
    of the next planet out from the minor planet's farthest point. Doubles
    are modelled as reals; only comparisons and one scaling are involved. */
module Framing {
  predicate Ascending(table: seq<real>) {
    forall i, j :: 0 <= i < j < |table| ==> table[i] <= table[j]
  }

  /** std::upper_bound: the index of the first element strictly greater than
      `value`, or |table| when there is none. Everything before it is at most
      `value` and everything from it on is greater. */
  function UpperBound(table: seq<real>, value: real): (i: nat)
    requires Ascending(table)
    ensures i <= |table|
    ensures forall k :: 0 <= k < i ==> table[k] <= value
    ensures forall k :: i <= k < |table| ==> table[k] > value
  {
    if table == [] then 0
    else if table[0] > value then 0
    else
      var rest := table[1..];
      assert forall k :: 1 <= k < |table| ==> table[k] == rest[k - 1];
      1 + UpperBound(rest, value)
  }

  /** getNextLargerOrRetain: the element the upper bound points at, or the
      value itself when the search runs off the end of the table. */
  function NextLargerOrRetain(value: real, table: seq<real>): (r: real)
    requires Ascending(table)
    ensures r >= value
  {
    var i := UpperBound(table, value);
    if i < |table| then table[i] else value
  }

  /** The result exceeds the value exactly when some entry does, and it is
      then the least entry that does; otherwise the value is retained. */
  lemma NextLargerIsLeastAbove(value: real, table: seq<real>)
    requires Ascending(table)
    ensures var r := NextLargerOrRetain(value, table);
      (r > value <==> exists k :: 0 <= k < |table| && table[k] > value) &&
      (r > value ==> r in table && forall k :: 0 <= k < |table| && table[k] > value ==> r <= table[k]) &&
      (r == value <==> forall k :: 0 <= k < |table| ==> table[k] <= value)
  {
    var i := UpperBound(table, value);
    if i < |table| {
      assert table[i] > value;
      forall k | 0 <= k < |table| && table[k] > value
        ensures table[i] <= table[k]
      {
        assert i <= k;
      }
    }
  }

  /** The semi-major axes of Mercury through Neptune, in km, ascending. */
  const PlanetSemiMajorAxes: seq<real> :=
    [69800000.0, 108900000.0, 152100000.0, 249300000.0,
     816400000.0, 1506500000.0, 3001400000.0, 4558900000.0]

  lemma PlanetTableAscending()
    ensures Ascending(PlanetSemiMajorAxes)
  {
  }

  /** R_max: the framing radius for a minor planet whose orbit reaches out to
      distance `reach`, the next planet's orbit (or the reach itself beyond
      Neptune) with a third of margin. */
  function FramingRadius(reach: real): (r: real)
    ensures r >= reach * 1.33
  {
    PlanetTableAscending();
    NextLargerOrRetain(reach, PlanetSemiMajorAxes) * 1.33
  }

  /** The frame always encloses the minor planet's orbit with margin, and it is
      either a planet's orbit scaled by 1.33 or, beyond Neptune, the orbit's
      own reach scaled by 1.33. */
  lemma FramingEnclosesOrbit(reach: real)
    requires reach > 0.0
    ensures FramingRadius(reach) >= 1.33 * reach > reach
    ensures reach < 4558900000.0 ==>
      exists k :: 0 <= k < |PlanetSemiMajorAxes| && FramingRadius(reach) == PlanetSemiMajorAxes[k] * 1.33 &&
        PlanetSemiMajorAxes[k] > reach
    ensures reach >= 4558900000.0 ==> FramingRadius(reach) == reach * 1.33
  {
    PlanetTableAscending();
    NextLargerIsLeastAbove(reach, PlanetSemiMajorAxes);
    var s := PlanetSemiMajorAxes;
    if reach < 4558900000.0 {
      assert s[7] > reach;
      var r := NextLargerOrRetain(reach, s);
      var k :| 0 <= k < |s| && s[k] == r;
      assert r > reach;
    }
  }

  /** An orbit between Earth's and Mars's is framed by Mars's orbit. */
  lemma MarsFramesEarthCrosser(reach: real)
    requires 152100000.0 <= reach < 249300000.0
    ensures FramingRadius(reach) == 249300000.0 * 1.33
  {
    PlanetTableAscending();
    var i := UpperBound(PlanetSemiMajorAxes, reach);
    assert PlanetSemiMajorAxes[3] > reach && PlanetSemiMajorAxes[2] <= reach;
    assert i == 3;
  }
}
