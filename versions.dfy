/**
 * Release versions of Python as the `packaging` library orders them (PEP 440,
 * "Pre-releases" and "Summary of permitted suffixes and relative ordering"),
 * restricted to what the manifest feed uses: three release numbers and an
 * optional pre-release tag.
 */
module Versions {
  import opened Wrappers

  /** Pre-release phases, in PEP 440 order: a < b < rc. */
  datatype PreKind = Alpha | Beta | ReleaseCandidate

  datatype PreTag = PreTag(kind: PreKind, number: nat)

  datatype Version = Version(major: nat, minor: nat, patch: nat, pre: Option<PreTag>) {
    /** `Version.is_prerelease` */
    predicate IsPrerelease() {
      pre.Some?
    }
  }

  function KindRank(k: PreKind): nat {
    match k
    case Alpha => 0
    case Beta => 1
    case ReleaseCandidate => 2
  }

  /** A pre-release sorts below the final release with the same numbers. */
  predicate PreLess(a: Option<PreTag>, b: Option<PreTag>) {
    match (a, b)
    case (Some(_), None) => true
    case (None, _) => false
    case (Some(x), Some(y)) =>
      KindRank(x.kind) < KindRank(y.kind) || (x.kind == y.kind && x.number < y.number)
  }

  /** The strict order `a < b` of two versions: lexicographic on the release numbers, then the tag. */
  predicate Less(a: Version, b: Version) {
    a.major < b.major
    || (a.major == b.major && a.minor < b.minor)
    || (a.major == b.major && a.minor == b.minor && a.patch < b.patch)
    || (a.major == b.major && a.minor == b.minor && a.patch == b.patch && PreLess(a.pre, b.pre))
  }

  predicate Le(a: Version, b: Version) {
    a == b || Less(a, b)
  }

  /** `Less` is a strict total order, which is what `<`, `>` and `sorted` rely on. */
  lemma LessIsStrictTotalOrder(a: Version, b: Version, c: Version)
    ensures !Less(a, a)
    ensures Less(a, b) ==> !Less(b, a)
    ensures Less(a, b) && Less(b, c) ==> Less(a, c)
    ensures a == b || Less(a, b) || Less(b, a)
  {
  }

  /** The final release with the same numbers as `v`. */
  function Final(v: Version): Version {
    v.(pre := None)
  }

  /** A pre-release is below the final release of the same numbers. */
  lemma PrereleaseBelowFinal(v: Version)
    requires v.IsPrerelease()
    ensures Less(v, Final(v))
  {
  }

  /**
   * The major.minor projection: the version `X.Y` made from the first two
   * release numbers. It never exceeds the version it comes from, except for a
   * pre-release of patch 0 (3.10.0rc1 < 3.10).
   */
  function MajorMinor(v: Version): (r: Version)
    ensures r.major == v.major && r.minor == v.minor
    ensures !r.IsPrerelease()
    ensures Le(r, v) || (v.patch == 0 && v.IsPrerelease())
    ensures Less(v, r) <==> v.patch == 0 && v.IsPrerelease()
  {
    Version(v.major, v.minor, 0, None)
  }

  /** Projection is monotone: a larger version never has a smaller major.minor. */
  lemma MajorMinorMonotone(a: Version, b: Version)
    requires Le(a, b)
    ensures Le(MajorMinor(a), MajorMinor(b))
  {
  }

  predicate StrictlyDescending(s: seq<Version>) {
    forall i, j :: 0 <= i < j < |s| ==> Less(s[j], s[i])
  }

  lemma LeLessTransitive(a: Version, b: Version, c: Version)
    requires Le(a, b) && Less(b, c)
    ensures Less(a, c)
  {
    LessIsStrictTotalOrder(a, b, c);
  }

  lemma NotLessIsLe(a: Version, b: Version)
    requires !Less(a, b)
    ensures Le(b, a)
  {
    LessIsStrictTotalOrder(a, b, a);
  }

  /** Every non-empty set of versions has a maximum. */
  lemma {:induction false} MaximumExists(s: set<Version>)
    requires s != {}
    ensures exists m :: m in s && forall x :: x in s ==> Le(x, m)
  {
    var y :| y in s;
    var rest := s - {y};
    if s == {y} {
      assert forall x :: x in s ==> x == y;
      assert y in s && forall x :: x in s ==> Le(x, y);
    } else {
      MaximumExists(rest);
      var m :| m in rest && forall x :: x in rest ==> Le(x, m);
      if Less(m, y) {
        forall x | x in s
          ensures Le(x, y)
        {
          if x != y {
            assert x in rest;
            LeLessTransitive(x, m, y);
          }
        }
        assert y in s && forall x :: x in s ==> Le(x, y);
      } else {
        NotLessIsLe(m, y);
        forall x | x in s
          ensures Le(x, m)
        {
          if x != y {
            assert x in rest;
          }
        }
        assert m in s && forall x :: x in s ==> Le(x, m);
      }
    }
  }

  lemma HeadIsElement(s: seq<Version>)
    ensures s != [] ==> s[0] in s
  {
  }

  /** Two strictly descending sequences with the same elements are the same sequence. */
  lemma {:induction false} DescendingUnique(a: seq<Version>, b: seq<Version>)
    requires StrictlyDescending(a) && StrictlyDescending(b)
    requires forall x :: x in a <==> x in b
    ensures a == b
  {
    HeadIsElement(a);
    HeadIsElement(b);
    if a == [] || b == [] {
    } else {
      assert a[0] in b;
      assert b[0] in a;
      var i :| 0 <= i < |a| && a[i] == b[0];
      var j :| 0 <= j < |b| && b[j] == a[0];
      if i > 0 && j > 0 {
        LessIsStrictTotalOrder(b[0], a[0], b[0]);
      }
      assert a[0] == b[0];
      forall x
        ensures x in a[1..] <==> x in b[1..]
      {
        if x in a[1..] {
          var k :| 1 <= k < |a| && a[k] == x;
          assert x in b && x != b[0];
        }
        if x in b[1..] {
          var k :| 1 <= k < |b| && b[k] == x;
          assert x in a && x != a[0];
        }
      }
      DescendingUnique(a[1..], b[1..]);
    }
  }

  /**
   * `sorted(values, reverse=True)` on a collection without duplicates: the
   * elements of `s`, each once, largest first.
   */
  method SortDescending(s: set<Version>) returns (r: seq<Version>)
    ensures StrictlyDescending(r)
    ensures forall x :: x in r <==> x in s
    ensures |r| == |s|
  {
    r := [];
    var rest := s;
    while rest != {}
      invariant rest <= s
      invariant StrictlyDescending(r)
      invariant forall x :: x in r <==> x in s && x !in rest
      invariant forall x, i :: x in rest && 0 <= i < |r| ==> Less(x, r[i])
      invariant |r| + |rest| == |s|
      decreases rest
    {
      MaximumExists(rest);
      var m :| m in rest && forall x :: x in rest ==> Le(x, m);
      r := r + [m];
      rest := rest - {m};
    }
  }
}
