/**
 * `latest_minor_versions`: keeps, for each major.minor line present in a
 * collection of versions, only the greatest version of that line, and lists
 * the kept versions newest first.
 */
module LatestMinor {
  import opened Versions

  /** `v` is the greatest version of its major.minor line within `all`. */
  predicate IsLatestOfLine(v: Version, all: set<Version>) {
    v in all && forall x :: x in all && MajorMinor(x) == MajorMinor(v) ==> Le(x, v)
  }

  /**
   * `r` is what `latest_minor_versions(all)` promises: newest first without
   * repeats, only line maxima taken from `all`, no two on the same major.minor
   * line, and every line present in `all` represented.
   */
  predicate IsLatestMinorListing(r: seq<Version>, all: set<Version>) {
    && StrictlyDescending(r)
    && (forall i :: 0 <= i < |r| ==> IsLatestOfLine(r[i], all))
    && (forall i, j :: 0 <= i < j < |r| ==> MajorMinor(r[i]) != MajorMinor(r[j]))
    && (forall v :: v in all ==> exists i :: 0 <= i < |r| && MajorMinor(r[i]) == MajorMinor(v))
  }

  /** The listing holds exactly the maxima of the lines present in `all`. */
  lemma ListingElements(r: seq<Version>, all: set<Version>)
    requires IsLatestMinorListing(r, all)
    ensures forall x :: x in r <==> IsLatestOfLine(x, all)
  {
    forall x | IsLatestOfLine(x, all)
      ensures x in r
    {
      var i :| 0 <= i < |r| && MajorMinor(r[i]) == MajorMinor(x);
      assert Le(x, r[i]) && Le(r[i], x);
      LessIsStrictTotalOrder(x, r[i], x);
    }
  }

  /** There is only one such listing: the result does not depend on the order the set is walked in. */
  lemma ListingUnique(r1: seq<Version>, r2: seq<Version>, all: set<Version>)
    requires IsLatestMinorListing(r1, all) && IsLatestMinorListing(r2, all)
    ensures r1 == r2
  {
    ListingElements(r1, all);
    ListingElements(r2, all);
    DescendingUnique(r1, r2);
  }

  /**
   * `latest` is the finished `latest_versions` dictionary for `all`: it maps
   * every major.minor line present in `all` to the greatest version of that line.
   */
  predicate IsLatestTable(latest: map<Version, Version>, all: set<Version>) {
    && (forall k :: k in latest ==> latest[k] in all && MajorMinor(latest[k]) == k)
    && (forall v :: v in all ==> MajorMinor(v) in latest && Le(v, latest[MajorMinor(v)]))
  }

  /** Listing the values of a finished table in strictly descending order gives the promised result. */
  lemma TableListing(all: set<Version>, latest: map<Version, Version>, r: seq<Version>)
    requires IsLatestTable(latest, all)
    requires forall x :: x in r <==> x in latest.Values
    requires StrictlyDescending(r)
    ensures IsLatestMinorListing(r, all)
  {
    forall i | 0 <= i < |r|
      ensures IsLatestOfLine(r[i], all)
    {
      assert r[i] in latest.Values;
      var k :| k in latest && latest[k] == r[i];
      assert MajorMinor(r[i]) == k;
    }
    forall i, j | 0 <= i < j < |r|
      ensures MajorMinor(r[i]) != MajorMinor(r[j])
    {
      assert r[i] in latest.Values && r[j] in latest.Values;
      var ki :| ki in latest && latest[ki] == r[i];
      var kj :| kj in latest && latest[kj] == r[j];
      LessIsStrictTotalOrder(r[j], r[i], r[j]);
    }
    forall v | v in all
      ensures exists i :: 0 <= i < |r| && MajorMinor(r[i]) == MajorMinor(v)
    {
      var w := latest[MajorMinor(v)];
      assert w in latest.Values;
      assert w in r;
      var i :| 0 <= i < |r| && r[i] == w;
    }
  }

  /**
   * Walks `all` in an arbitrary order (a Python set has none), keeping in
   * `latest` the greatest version seen per major.minor line, then sorts the
   * kept versions newest first.
   */
  method LatestMinorVersions(all: set<Version>) returns (r: seq<Version>)
    ensures IsLatestMinorListing(r, all)
  {
    var latest: map<Version, Version> := map[];
    var rest := all;
    while rest != {}
      invariant rest <= all
      invariant forall k :: k in latest ==> latest[k] in all - rest && MajorMinor(latest[k]) == k
      invariant forall v :: v in all - rest ==> MajorMinor(v) in latest && Le(v, latest[MajorMinor(v)])
      decreases rest
    {
      var v :| v in rest;
      var majorMinor := MajorMinor(v);
      if majorMinor !in latest || Less(latest[majorMinor], v) {
        latest := latest[majorMinor := v];
      }
      rest := rest - {v};
    }
    assert IsLatestTable(latest, all);
    r := SortDescending(latest.Values);
    TableListing(all, latest, r);
  }

  /** A pre-release is dropped whenever its final release is in the collection too. */
  lemma PrereleaseLosesToFinal(r: seq<Version>, all: set<Version>, v: Version)
    requires IsLatestMinorListing(r, all)
    requires v in all && v.IsPrerelease() && Final(v) in all
    ensures v !in r
  {
    PrereleaseBelowFinal(v);
    if v in r {
      var i :| 0 <= i < |r| && r[i] == v;
      assert Le(Final(v), v);
      LessIsStrictTotalOrder(v, Final(v), v);
    }
  }
}
