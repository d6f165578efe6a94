/**
  The nearby query: check the three query parameters, then walk a full scan and
  keep, in scan order, every row whose distance from the centre is at most the
  radius.

  The geodesic distance is a foreign floating-point computation; here it is a
  parameter `dist`, always applied as dist(centre, row location). Nothing is
  assumed about it: not symmetry, not that a point is at distance 0 from itself.
 */
module Nearby {
  import opened Addresses
  import opened AddressStore

  /** The query parameter bounds: latitude in [-90, 90], longitude in [-180, 180],
      distance strictly positive. */
  function CheckQuery(lat: real, lon: real, radius: real): (errors: seq<Field>)
    ensures InFieldOrder(errors)
    ensures Latitude in errors <==> !(-90.0 <= lat <= 90.0)
    ensures Longitude in errors <==> !(-180.0 <= lon <= 180.0)
    ensures Distance in errors <==> radius <= 0.0
    ensures Name !in errors
  {
    Report(Latitude, -90.0 <= lat <= 90.0)
      + Report(Longitude, -180.0 <= lon <= 180.0)
      + Report(Distance, radius > 0.0)
  }

  /** The row lies within the radius, boundary included. */
  predicate Near(row: Row, center: Point, radius: real, dist: (Point, Point) -> real) {
    dist(center, row.addr.Location()) <= radius
  }

  /** The rows of `rows` within the radius, in their order in `rows`. */
  function Within(rows: seq<Row>, center: Point, radius: real, dist: (Point, Point) -> real): (r: seq<Row>)
    ensures forall row :: row in r <==> row in rows && Near(row, center, radius, dist)
    ensures IdsIncreasing(rows) ==> IdsIncreasing(r)
    ensures |r| <= |rows|
  {
    if |rows| == 0 then []
    else
      var init := rows[..|rows| - 1];
      var last := rows[|rows| - 1];
      var front := Within(init, center, radius, dist);
      assert forall row :: row in rows <==> row in init || row == last by {
        assert rows == init + [last];
      }
      var r := front + (if Near(last, center, radius, dist) then [last] else []);
      assert IdsIncreasing(rows) ==> IdsIncreasing(r) by {
        if IdsIncreasing(rows) {
          forall k | 0 <= k < |front|
            ensures front[k].id < last.id
          {
            assert front[k] in init;
            var m :| 0 <= m < |init| && init[m] == front[k];
            assert rows[m] == front[k];
          }
        }
      }
      r
  }

  /** The loop of the nearby handler: one pass over the scanned rows, appending each
      row within the radius. */
  method CollectNearby(rows: seq<Row>, center: Point, radius: real, dist: (Point, Point) -> real)
    returns (found: seq<Row>)
    ensures found == Within(rows, center, radius, dist)
  {
    found := [];
    var i := 0;
    while i < |rows|
      invariant 0 <= i <= |rows|
      invariant found == Within(rows[..i], center, radius, dist)
    {
      assert rows[..i + 1][..i] == rows[..i];
      if dist(center, rows[i].addr.Location()) <= radius {
        found := found + [rows[i]];
      }
      i := i + 1;
    }
    assert rows[..i] == rows;
  }

  datatype Answer = Found(rows: seq<Row>) | BadQuery(errors: seq<Field>)

  /** The nearby query against a table: rejected before the scan when a parameter is
      out of range, otherwise exactly the stored rows within the radius, ascending by id. */
  function Query(t: Table, lat: real, lon: real, radius: real, dist: (Point, Point) -> real): (r: Answer)
    requires Wf(t)
    ensures r.BadQuery? <==> !(-90.0 <= lat <= 90.0 && -180.0 <= lon <= 180.0 && radius > 0.0)
    ensures r.BadQuery? ==> r.errors == CheckQuery(lat, lon, radius)
    ensures r.Found? ==> IdsIncreasing(r.rows)
    ensures r.Found? ==> forall row :: row in r.rows <==> Holds(t.rows, row) && Near(row, Point(lat, lon), radius, dist)
  {
    var errors := CheckQuery(lat, lon, radius);
    if errors != [] then
      assert errors[0] in errors;
      BadQuery(errors)
    else
      Found(Within(Scan(t), Point(lat, lon), radius, dist))
  }

  lemma NoMembersMeansEmpty(s: seq<Row>)
    ensures (forall row :: row !in s) ==> s == []
  {
    if s != [] {
      assert s[0] in s;
    }
  }

  /** Increasing ids and membership determine a sequence of rows: so the contract of
      `Query` fixes its answer completely, order included. */
  lemma {:induction false} DeterminedByMembers(a: seq<Row>, b: seq<Row>)
    requires IdsIncreasing(a) && IdsIncreasing(b)
    requires forall row :: row in a <==> row in b
    ensures a == b
    decreases |a|
  {
    if |a| == 0 {
      NoMembersMeansEmpty(b);
    } else {
      assert b != [] by {
        assert a[0] in a;
      }
      // the first element of each has the smallest id, so they coincide
      assert a[0] == b[0] by {
        assert a[0] in b;
        var j :| 0 <= j < |b| && b[j] == a[0];
        assert b[0] in a;
        var i :| 0 <= i < |a| && a[i] == b[0];
        assert a[0].id <= a[i].id;
        assert b[0].id <= b[j].id;
      }
      forall row
        ensures row in a[1..] <==> row in b[1..]
      {
        if row in a[1..] {
          var i :| 1 <= i < |a| && a[i] == row;
          assert row != a[0] by { assert a[0].id < a[i].id; }
          assert row in b;
          var j :| 0 <= j < |b| && b[j] == row;
          assert j != 0;
          assert b[1..][j - 1] == row;
        }
        if row in b[1..] {
          var j :| 1 <= j < |b| && b[j] == row;
          assert row != b[0] by { assert b[0].id < b[j].id; }
          assert row in a;
          var i :| 0 <= i < |a| && a[i] == row;
          assert i != 0;
          assert a[1..][i - 1] == row;
        }
      }
      DeterminedByMembers(a[1..], b[1..]);
      assert a == [a[0]] + a[1..];
      assert b == [b[0]] + b[1..];
    }
  }
}
