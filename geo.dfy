/** The map view's data: the location and coordinate columns, restricted to
    the places where nuclear weapons were used in combat. */
module Geo {
  import opened Events
  import opened Seqs

  /** One row of `map_df`: the three kept columns, renamed. */
  datatype GeoPoint = GeoPoint(name: string, latitude: real, longitude: real)

  /** The fixed list of place names the map shows. */
  const CombatSites: seq<string> := ["Hiroshima", "Nagasaki"]

  /** `df.filter([...])` followed by the column renaming. */
  function MapColumns(rows: seq<Event>): (r: seq<GeoPoint>)
    ensures |r| == |rows|
    ensures forall i :: 0 <= i < |rows| ==> r[i] == GeoPoint(rows[i].location, rows[i].latitude, rows[i].longitude)
  {
    seq(|rows|, i requires 0 <= i < |rows| => GeoPoint(rows[i].location, rows[i].latitude, rows[i].longitude))
  }

  /** The mask `location_name.isin(names)`. */
  function NamedIn(names: seq<string>): GeoPoint -> bool {
    (p: GeoPoint) => p.name in names
  }

  /** The rows whose location name is one of `names`, in their original order. */
  function Locations(points: seq<GeoPoint>, names: seq<string>): (r: seq<GeoPoint>)
    ensures forall p :: p in r ==> p in points && p.name in names
    ensures forall p :: p in points && p.name in names ==> p in r
  {
    Filter(points, NamedIn(names))
  }

  /** The combat-site subset keeps exactly the matching rows, each as often as
      it occurs, in their original order; nothing matching gives an empty subset. */
  lemma {:induction false} LocationsSpec(points: seq<GeoPoint>, names: seq<string>)
    ensures IsSubsequence(Locations(points, names), points)
    ensures forall p :: multiset(Locations(points, names))[p] == if p.name in names then multiset(points)[p] else 0
    ensures Locations(points, names) == [] <==> forall i :: 0 <= i < |points| ==> points[i].name !in names
  {
    FilterIsSubsequence(points, NamedIn(names));
    FilterMultiset(points, NamedIn(names));
    if Locations(points, names) == [] {
      forall i | 0 <= i < |points| ensures points[i].name !in names {
        assert multiset(points)[points[i]] > 0;
      }
    }
  }

  /** The data path of `map_of_explosions`. */
  function MapOfExplosions(rows: seq<Event>): (r: seq<GeoPoint>)
    ensures IsSubsequence(r, MapColumns(rows))
    ensures forall p :: p in r ==> p.name in CombatSites
  {
    LocationsSpec(MapColumns(rows), CombatSites);
    Locations(MapColumns(rows), CombatSites)
  }

  /** Every point on the map is Hiroshima or Nagasaki and comes from a row of
      the table, and every row at Hiroshima or Nagasaki is on the map. */
  lemma MapOfExplosionsSpec(rows: seq<Event>)
    ensures forall p :: p in MapOfExplosions(rows) ==> (p.name == "Hiroshima" || p.name == "Nagasaki")
    ensures forall p :: p in MapOfExplosions(rows) ==>
      exists i :: 0 <= i < |rows| && p == GeoPoint(rows[i].location, rows[i].latitude, rows[i].longitude)
    ensures forall i :: 0 <= i < |rows| && rows[i].location in CombatSites ==>
      GeoPoint(rows[i].location, rows[i].latitude, rows[i].longitude) in MapOfExplosions(rows)
  {
    forall i | 0 <= i < |rows| && rows[i].location in CombatSites
      ensures GeoPoint(rows[i].location, rows[i].latitude, rows[i].longitude) in MapOfExplosions(rows)
    {
      assert MapColumns(rows)[i] in MapColumns(rows);
    }
    forall p | p in MapOfExplosions(rows)
      ensures exists i :: 0 <= i < |rows| && p == GeoPoint(rows[i].location, rows[i].latitude, rows[i].longitude)
    {
      var i :| 0 <= i < |rows| && MapColumns(rows)[i] == p;
    }
  }
}
