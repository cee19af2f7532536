/**
 * `get_platform_to_version`: filters the manifest's records by the
 * pre-release flag and the inclusive major.minor range, and collects each
 * surviving version under every platform its build files name.
 */
module Grouping {
  import opened Wrappers
  import opened Versions
  import opened Platforms

  /** One build file of a manifest record; `platformVersion` is absent for most platforms. */
  datatype FileObject = FileObject(platform: string, arch: string, platformVersion: Option<string>)

  /** One manifest record: the version string as published, and its build files. */
  datatype VersionRecord = VersionRecord(version: string, files: seq<FileObject>)

  /**
   * The lower bound as `main` leaves it: a parsed version, or the raw `min_version`
   * argument when "EOL" was asked for and no end-of-life entry qualified.
   */
  datatype LowerBound = Parsed(bound: Version) | Raw(text: string)

  /** Comparing a version with the raw string fails (Python raises `TypeError`). */
  datatype Error = Unorderable(raw: string)

  /** The grouping key of a build file; a missing platform version becomes "". */
  function KeyOf(f: FileObject): Platform {
    Platform(f.platform, f.arch, f.platformVersion.GetOr(""))
  }

  predicate PassesPrerelease(v: Version, includePrereleases: bool) {
    includePrereleases || !v.IsPrerelease()
  }

  /** `not major_minor > max_version` */
  predicate WithinMax(v: Version, hi: Version) {
    !Less(hi, MajorMinor(v))
  }

  /** `not major_minor < min_version` */
  predicate WithinMin(v: Version, lo: Version) {
    !Less(MajorMinor(v), lo)
  }

  /** The record's version reaches the comparison with the lower bound. */
  predicate ReachesMin(v: Version, hi: Version, includePrereleases: bool) {
    PassesPrerelease(v, includePrereleases) && WithinMax(v, hi)
  }

  /** The version survives both filters. */
  predicate Accepted(v: Version, lo: LowerBound, hi: Version, includePrereleases: bool) {
    ReachesMin(v, hi, includePrereleases) && lo.Parsed? && WithinMin(v, lo.bound)
  }

  /** Some build file of `rec` has key `p`. */
  predicate Names(rec: VersionRecord, p: Platform) {
    NamedBefore(rec.files, |rec.files|, p)
  }

  /** Record `rec` puts version `v` into the set of platform `p`. */
  predicate Contributes(rec: VersionRecord, parse: string -> Version, lo: LowerBound, hi: Version,
                        includePrereleases: bool, p: Platform, v: Version)
  {
    v == parse(rec.version) && Accepted(v, lo, hi, includePrereleases) && Names(rec, p)
  }

  /** Some record puts `v` into the set of `p`. */
  predicate Contributed(records: seq<VersionRecord>, parse: string -> Version, lo: LowerBound,
                        hi: Version, includePrereleases: bool, p: Platform, v: Version)
  {
    exists j :: 0 <= j < |records| && Contributes(records[j], parse, lo, hi, includePrereleases, p, v)
  }

  /** Some record before index `n` puts `v` into the set of `p`. */
  predicate ContributedBefore(records: seq<VersionRecord>, n: int, parse: string -> Version, lo: LowerBound,
                              hi: Version, includePrereleases: bool, p: Platform, v: Version)
    requires n <= |records|
  {
    exists j :: 0 <= j < n && Contributes(records[j], parse, lo, hi, includePrereleases, p, v)
  }

  /** Some build file before index `k` has key `p`. */
  predicate NamedBefore(files: seq<FileObject>, k: int, p: Platform)
    requires k <= |files|
  {
    exists t :: 0 <= t < k && KeyOf(files[t]) == p
  }

  /**
   * Fails exactly when the lower bound is the raw string and some record gets
   * past the pre-release and upper-bound comparisons. Otherwise `v` is in the set of
   * `p` exactly when some record with version `v` passes both filters and has a
   * build file for `p`; no key holds an empty set; no pre-release is kept
   * unless asked for; and every kept version lies in [lo, hi] at major.minor
   * granularity, both ends inclusive.
   */
  method GetPlatformToVersion(records: seq<VersionRecord>, parse: string -> Version, lo: LowerBound,
                              hi: Version, includePrereleases: bool)
    returns (r: Result<map<Platform, set<Version>>, Error>)
    ensures r.Failure? <==>
              lo.Raw? && exists j :: 0 <= j < |records| && ReachesMin(parse(records[j].version), hi, includePrereleases)
    ensures r.Failure? ==> r.error == Unorderable(lo.text)
    ensures r.Success? ==>
              forall p, v :: p in r.value && v in r.value[p] <==>
                Contributed(records, parse, lo, hi, includePrereleases, p, v)
    ensures r.Success? ==> forall p :: p in r.value ==> r.value[p] != {}
    ensures r.Success? && !includePrereleases ==>
              forall p, v :: p in r.value && v in r.value[p] ==> !v.IsPrerelease()
    ensures r.Success? ==>
              forall p, v :: p in r.value && v in r.value[p] ==>
                lo.Parsed? && Le(lo.bound, MajorMinor(v)) && Le(MajorMinor(v), hi)
  {
    var m: map<Platform, set<Version>> := map[];
    var i := 0;
    while i < |records|
      invariant 0 <= i <= |records|
      invariant lo.Raw? ==> forall j :: 0 <= j < i ==> !ReachesMin(parse(records[j].version), hi, includePrereleases)
      invariant forall p, v :: p in m && v in m[p] ==>
                  ContributedBefore(records, i, parse, lo, hi, includePrereleases, p, v)
      invariant forall p, v :: ContributedBefore(records, i, parse, lo, hi, includePrereleases, p, v) ==>
                  p in m && v in m[p]
      invariant forall p :: p in m ==> m[p] != {}
    {
      var rec := records[i];
      var v := parse(rec.version);
      var majorMinor := MajorMinor(v);
      var next := i + 1;
      if !includePrereleases && v.IsPrerelease() {
        SkipRecord(records, parse, lo, hi, includePrereleases, i, next);
        i := next;
        continue;
      }
      if Less(hi, majorMinor) {
        SkipRecord(records, parse, lo, hi, includePrereleases, i, next);
        i := next;
        continue;
      }
      if lo.Raw? {
        assert ReachesMin(parse(records[i].version), hi, includePrereleases);
        return Failure(Unorderable(lo.text));
      }
      if Less(majorMinor, lo.bound) {
        SkipRecord(records, parse, lo, hi, includePrereleases, i, next);
        i := next;
        continue;
      }
      ghost var before := m;
      m := AddToPlatforms(m, rec.files, v);
      TakeRecord(records, parse, lo, hi, includePrereleases, i, next);
      forall p, w | ContributedBefore(records, next, parse, lo, hi, includePrereleases, p, w)
        ensures p in m && w in m[p]
      {
        if ContributedBefore(records, i, parse, lo, hi, includePrereleases, p, w) {
          assert p in before && w in before[p];
        } else {
          assert w == v && NamedBefore(rec.files, |rec.files|, p);
        }
      }
      i := next;
    }
    forall p, v
      ensures Contributed(records, parse, lo, hi, includePrereleases, p, v) <==>
              ContributedBefore(records, i, parse, lo, hi, includePrereleases, p, v)
    {
    }
    r := Success(m);
  }

  /**
   * The loop over one record's build files: `v` joins the set of every
   * platform some file names (creating the set when the key is new), and
   * nothing else changes.
   */
  method AddToPlatforms(m: map<Platform, set<Version>>, files: seq<FileObject>, v: Version)
    returns (m': map<Platform, set<Version>>)
    ensures forall p, w :: p in m' && w in m'[p] ==> (p in m && w in m[p]) || (w == v && NamedBefore(files, |files|, p))
    ensures forall p, w :: p in m && w in m[p] ==> p in m' && w in m'[p]
    ensures forall p :: NamedBefore(files, |files|, p) ==> p in m' && v in m'[p]
    ensures forall p :: p in m' && m'[p] == {} ==> p in m && m[p] == {}
  {
    m' := m;
    var k := 0;
    while k < |files|
      invariant 0 <= k <= |files|
      invariant forall p, w :: p in m' && w in m'[p] ==> (p in m && w in m[p]) || (w == v && NamedBefore(files, k, p))
      invariant forall p, w :: p in m && w in m[p] ==> p in m' && w in m'[p]
      invariant forall p :: NamedBefore(files, k, p) ==> p in m' && v in m'[p]
      invariant forall p :: p in m' && m'[p] == {} ==> p in m && m[p] == {}
    {
      var p := KeyOf(files[k]);
      var current := if p in m' then m'[p] else {};
      m' := m'[p := current + {v}];
      assert forall q :: NamedBefore(files, k + 1, q) <==> NamedBefore(files, k, q) || q == p;
      k := k + 1;
    }
  }

  /**
   * Both bounds are compared with the major.minor projection, not normalised
   * themselves: a lower bound with a non-zero patch (say 3.8.1) shuts out its
   * own line, while an upper bound of the same shape keeps it.
   */
  lemma PatchedBoundsAsymmetric(v: Version, b: Version)
    requires MajorMinor(v) == MajorMinor(b) && b.patch > 0
    ensures !WithinMin(v, b)
    ensures WithinMax(v, b)
  {
  }

  /** A record that fails a filter adds nothing. */
  lemma SkipRecord(records: seq<VersionRecord>, parse: string -> Version, lo: LowerBound, hi: Version,
                   includePrereleases: bool, i: int, next: int)
    requires 0 <= i < |records| && next == i + 1
    requires !Accepted(parse(records[i].version), lo, hi, includePrereleases)
    ensures forall p, w ::
              ContributedBefore(records, next, parse, lo, hi, includePrereleases, p, w) <==>
              ContributedBefore(records, i, parse, lo, hi, includePrereleases, p, w)
  {
    forall p, w | ContributedBefore(records, next, parse, lo, hi, includePrereleases, p, w)
      ensures ContributedBefore(records, i, parse, lo, hi, includePrereleases, p, w)
    {
      var j :| 0 <= j < next && Contributes(records[j], parse, lo, hi, includePrereleases, p, w);
      assert j != i;
    }
  }

  /** A record that passes both filters adds its version under each platform it names. */
  lemma TakeRecord(records: seq<VersionRecord>, parse: string -> Version, lo: LowerBound, hi: Version,
                   includePrereleases: bool, i: int, next: int)
    requires 0 <= i < |records| && next == i + 1
    requires Accepted(parse(records[i].version), lo, hi, includePrereleases)
    ensures forall p, w ::
              ContributedBefore(records, next, parse, lo, hi, includePrereleases, p, w) <==>
              ContributedBefore(records, i, parse, lo, hi, includePrereleases, p, w)
              || (w == parse(records[i].version) && NamedBefore(records[i].files, |records[i].files|, p))
  {
    forall p, w
      ensures ContributedBefore(records, next, parse, lo, hi, includePrereleases, p, w) <==>
              ContributedBefore(records, i, parse, lo, hi, includePrereleases, p, w)
              || (w == parse(records[i].version) && NamedBefore(records[i].files, |records[i].files|, p))
    {
      if w == parse(records[i].version) && NamedBefore(records[i].files, |records[i].files|, p) {
        assert Contributes(records[i], parse, lo, hi, includePrereleases, p, w);
      }
    }
  }
}
