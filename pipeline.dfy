/**
 * The body of `main` once the feeds are in hand: resolve the bounds, group
 * the manifest, reduce to the latest version per major.minor line, and give
 * each kept version back as the manifest spelled it, newest first.
 */
module Pipeline {
  import opened Wrappers
  import opened Versions
  import opened Platforms
  import opened Grouping
  import opened LatestMinor
  import opened Bounds

  /**
   * `semver_to_original`: parsed version to the manifest's own string. Every
   * record's version is a key, and every value parses back to its key.
   */
  function SemverToOriginal(records: seq<VersionRecord>, parse: string -> Version): (m: map<Version, string>)
    ensures forall j :: 0 <= j < |records| ==> parse(records[j].version) in m
    ensures forall v :: v in m ==> parse(m[v]) == v
    decreases |records|
  {
    if records == [] then map[]
    else
      var last := records[|records| - 1];
      var init := records[..|records| - 1];
      assert forall j :: 0 <= j < |init| ==> init[j] == records[j];
      SemverToOriginal(init, parse)[parse(last.version) := last.version]
  }

  /**
   * On duplicates the dictionary keeps the string of the LAST record with
   * that version, as later entries of a comprehension overwrite earlier ones.
   */
  lemma {:induction false} LookupIsLastRecord(records: seq<VersionRecord>, parse: string -> Version, v: Version)
    requires v in SemverToOriginal(records, parse)
    ensures exists j :: 0 <= j < |records| && records[j].version == SemverToOriginal(records, parse)[v]
                        && parse(records[j].version) == v
                        && forall t :: j < t < |records| ==> parse(records[t].version) != v
    decreases |records|
  {
    var n := |records| - 1;
    var last := records[n];
    var init := records[..n];
    var m := SemverToOriginal(records, parse);
    var m0 := SemverToOriginal(init, parse);
    assert m == m0[parse(last.version) := last.version];
    if parse(last.version) == v {
      assert records[n].version == m[v];
    } else {
      assert v in m0 && m[v] == m0[v];
      LookupIsLastRecord(init, parse, v);
      var j :| 0 <= j < |init| && init[j].version == m0[v] && parse(init[j].version) == v
               && forall t :: j < t < |init| ==> parse(init[t].version) != v;
      assert records[j] == init[j];
      forall t | j < t < |records|
        ensures parse(records[t].version) != v
      {
        if t < n {
          assert records[t] == init[t];
        }
      }
    }
  }

  /**
   * When distinct manifest strings parse to distinct versions, the lookup
   * gives every record back its own string.
   */
  lemma {:induction false} OriginalRecovered(records: seq<VersionRecord>, parse: string -> Version, j: int)
    requires forall a, b :: 0 <= a < |records| && 0 <= b < |records| && parse(records[a].version) == parse(records[b].version)
               ==> records[a].version == records[b].version
    requires 0 <= j < |records|
    ensures SemverToOriginal(records, parse)[parse(records[j].version)] == records[j].version
  {
    LookupIsLastRecord(records, parse, parse(records[j].version));
  }

  /** The versions parsed from a list of strings, in order. */
  function ParseAll(strings: seq<string>, parse: string -> Version): (vs: seq<Version>)
    ensures |vs| == |strings|
  {
    seq(|strings|, i requires 0 <= i < |strings| => parse(strings[i]))
  }

  /**
   * `[semver_to_original[v] for v in latest_versions]`: one string per
   * version, in the same order, each parsing back to its version.
   */
  function OriginalStrings(latest: seq<Version>, lookup: map<Version, string>, parse: string -> Version)
    : (out: seq<string>)
    requires forall i :: 0 <= i < |latest| ==> latest[i] in lookup
    requires forall v :: v in lookup ==> parse(lookup[v]) == v
    ensures ParseAll(out, parse) == latest
    ensures forall i :: 0 <= i < |out| ==> out[i] in lookup.Values
  {
    var out := seq(|latest|, i requires 0 <= i < |latest| => lookup[latest[i]]);
    assert forall i :: 0 <= i < |out| ==> out[i] == lookup[latest[i]];
    out
  }

  /** `{v for versions in platform_versions.values() for v in versions}` */
  function AllVersions(grouped: map<Platform, set<Version>>): (all: set<Version>)
    ensures forall v :: v in all <==> exists p :: p in grouped && v in grouped[p]
  {
    set p, v | p in grouped && v in grouped[p] :: v
  }

  /** The manifest versions that end up in some platform's set: past both filters and with at least one build file. */
  function Candidates(records: seq<VersionRecord>, parse: string -> Version, lo: LowerBound, hi: Version,
                      includePrereleases: bool): set<Version>
  {
    set j | 0 <= j < |records| && Accepted(parse(records[j].version), lo, hi, includePrereleases)
                                 && |records[j].files| > 0
          :: parse(records[j].version)
  }

  /** Grouping and then taking the union of all platforms' sets gives exactly the candidates. */
  lemma UnionIsCandidates(records: seq<VersionRecord>, parse: string -> Version, lo: LowerBound, hi: Version,
                          includePrereleases: bool, grouped: map<Platform, set<Version>>)
    requires forall p, v :: p in grouped && v in grouped[p] <==> Contributed(records, parse, lo, hi, includePrereleases, p, v)
    ensures AllVersions(grouped) == Candidates(records, parse, lo, hi, includePrereleases)
  {
    var all := AllVersions(grouped);
    var cands := Candidates(records, parse, lo, hi, includePrereleases);
    forall v | v in all
      ensures v in cands
    {
      var p :| p in grouped && v in grouped[p];
      var j :| 0 <= j < |records| && Contributes(records[j], parse, lo, hi, includePrereleases, p, v);
      var t :| 0 <= t < |records[j].files| && KeyOf(records[j].files[t]) == p;
    }
    forall v | v in cands
      ensures v in all
    {
      var j :| 0 <= j < |records| && Accepted(parse(records[j].version), lo, hi, includePrereleases)
               && |records[j].files| > 0 && v == parse(records[j].version);
      var p := KeyOf(records[j].files[0]);
      assert Names(records[j], p);
      assert Contributes(records[j], parse, lo, hi, includePrereleases, p, v);
      assert Contributed(records, parse, lo, hi, includePrereleases, p, v);
    }
  }

  /**
   * What `main` prints for the resolved bounds: it fails exactly when the
   * lower bound stayed a raw string and some record reaches the comparison
   * with it; otherwise every printed string is the manifest's own spelling of
   * a version, and the printed versions are the latest per major.minor line
   * among the candidates, newest first.
   */
  predicate IsSelection(records: seq<VersionRecord>, parse: string -> Version, lo: LowerBound, hi: Version,
                        includePrereleases: bool, out: Result<seq<string>, Error>)
  {
    && (out.Failure? <==>
          lo.Raw? && exists j :: 0 <= j < |records| && ReachesMin(parse(records[j].version), hi, includePrereleases))
    && (out.Success? ==>
          && (forall i :: 0 <= i < |out.value| ==> exists j :: 0 <= j < |records| && records[j].version == out.value[i])
          && IsLatestMinorListing(ParseAll(out.value, parse), Candidates(records, parse, lo, hi, includePrereleases)))
  }

  /** main.py from the grouping call to the JSON list, for given bounds. */
  method Select(records: seq<VersionRecord>, parse: string -> Version, lo: LowerBound, hi: Version,
                includePrereleases: bool)
    returns (out: Result<seq<string>, Error>)
    ensures IsSelection(records, parse, lo, hi, includePrereleases, out)
  {
    var grouped := GetPlatformToVersion(records, parse, lo, hi, includePrereleases);
    if grouped.Failure? {
      return Failure(grouped.error);
    }
    var lookup := SemverToOriginal(records, parse);
    var all := AllVersions(grouped.value);
    UnionIsCandidates(records, parse, lo, hi, includePrereleases, grouped.value);
    var latest := LatestMinorVersions(all);
    forall i | 0 <= i < |latest|
      ensures latest[i] in lookup
    {
      assert latest[i] in Candidates(records, parse, lo, hi, includePrereleases);
    }
    var strings := OriginalStrings(latest, lookup, parse);
    forall i | 0 <= i < |strings|
      ensures exists j :: 0 <= j < |records| && records[j].version == strings[i]
    {
      assert strings[i] == lookup[latest[i]];
      var v := latest[i];
      LookupIsLastRecord(records, parse, v);
      var j :| 0 <= j < |records| && records[j].version == lookup[v] && parse(records[j].version) == v
               && forall t :: j < t < |records| ==> parse(records[t].version) != v;
      assert records[j].version == strings[i];
    }
    out := Success(strings);
  }

  /**
   * `main(min_version, max_version, include_prereleases)` with the feeds,
   * today's day number and the version parser passed in: the bounds it
   * settles on and the list it prints.
   */
  method LatestPythonVersions(minArg: string, maxArg: string, includePrereleases: bool,
                              eolFeed: seq<EolEntry>, today: int,
                              records: seq<VersionRecord>, parse: string -> Version)
    returns (lo: LowerBound, hi: Version, out: Result<seq<string>, Error>)
    ensures IsMinResolution(minArg, eolFeed, today, parse, lo)
    ensures hi == ResolveMaxVersion(maxArg, parse)
    ensures IsSelection(records, parse, lo, hi, includePrereleases, out)
  {
    lo := ResolveMinVersion(minArg, eolFeed, today, parse);
    hi := ResolveMaxVersion(maxArg, parse);
    out := Select(records, parse, lo, hi, includePrereleases);
  }
}
