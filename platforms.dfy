/**
 * The identity of a build target in the version manifest: platform name,
 * architecture and an optional platform version (an OS release such as
 * "20.04"), the empty string when the manifest gives none.
 */
module Platforms {
  import opened Wrappers

  datatype Platform = Platform(name: string, arch: string, version: string)

  /** `Platform.__str__`: "name-version-arch", or "name-arch" when the version is empty. */
  function Render(p: Platform): string {
    var name := if p.version != "" then p.name + "-" + p.version else p.name;
    name + "-" + p.arch
  }

  /** Joins the pieces with dashes between them (Python's `'-'.join(parts)`). */
  function JoinWithDash(parts: seq<string>): string
    requires |parts| >= 1
  {
    if |parts| == 1 then parts[0] else parts[0] + "-" + JoinWithDash(parts[1..])
  }

  /** The pieces of `s` between its dashes (Python's `s.split('-')`): dash-free, and joining them gives `s` back. */
  function SplitOnDash(s: string): (parts: seq<string>)
    ensures |parts| >= 1
    ensures forall i :: 0 <= i < |parts| ==> DashFree(parts[i])
    ensures JoinWithDash(parts) == s
    decreases |s|
  {
    if s == [] then [""]
    else if s[0] == '-' then [""] + SplitOnDash(s[1..])
    else
      var rest := SplitOnDash(s[1..]);
      [[s[0]] + rest[0]] + rest[1..]
  }

  predicate DashFree(s: string) {
    '-' !in s
  }

  lemma {:induction false} SplitDashFree(a: string)
    requires DashFree(a)
    ensures SplitOnDash(a) == [a]
    decreases |a|
  {
    if a != [] {
      SplitDashFree(a[1..]);
      assert [a[0]] + a[1..] == a;
    }
  }

  lemma {:induction false} SplitAfterDashFree(a: string, b: string)
    requires DashFree(a)
    ensures SplitOnDash(a + "-" + b) == [a] + SplitOnDash(b)
    decreases |a|
  {
    if a == [] {
      assert a + "-" + b == "-" + b;
      assert ("-" + b)[1..] == b;
    } else {
      var s := a + "-" + b;
      assert s[0] == a[0];
      assert s[1..] == a[1..] + "-" + b;
      SplitAfterDashFree(a[1..], b);
      assert [a[0]] + a[1..] == a;
    }
  }

  /** Reads a rendered platform back: two pieces are name and arch, three are name, version and arch. */
  function Unrender(s: string): (r: Option<Platform>)
    ensures r.Some? ==> Render(r.value) == s
  {
    var parts := SplitOnDash(s);
    if |parts| == 2 then
      assert JoinWithDash(parts[1..]) == parts[1];
      Some(Platform(parts[0], parts[1], ""))
    else if |parts| == 3 && parts[1] != "" then
      assert JoinWithDash(parts[2..]) == parts[2];
      assert JoinWithDash(parts[1..]) == parts[1] + "-" + parts[2];
      Some(Platform(parts[0], parts[2], parts[1]))
    else None
  }

  /**
   * Rendering loses nothing when no field contains a dash (true of every
   * platform the manifest names: "linux", "darwin", "win32", "x64", "20.04"),
   * so distinct platforms render to distinct strings.
   */
  lemma RenderRoundTrip(p: Platform)
    requires DashFree(p.name) && DashFree(p.arch) && DashFree(p.version)
    ensures Unrender(Render(p)) == Some(p)
  {
    if p.version == "" {
      SplitAfterDashFree(p.name, p.arch);
      SplitDashFree(p.arch);
    } else {
      assert Render(p) == p.name + "-" + (p.version + "-" + p.arch);
      SplitAfterDashFree(p.name, p.version + "-" + p.arch);
      SplitAfterDashFree(p.version, p.arch);
      SplitDashFree(p.arch);
    }
  }

  lemma RenderInjective(p: Platform, q: Platform)
    requires DashFree(p.name) && DashFree(p.arch) && DashFree(p.version)
    requires DashFree(q.name) && DashFree(q.arch) && DashFree(q.version)
    requires Render(p) == Render(q)
    ensures p == q
  {
    RenderRoundTrip(p);
    RenderRoundTrip(q);
  }

  /** With a dash inside a field, two different platforms render alike. */
  lemma RenderCollidesOnDashes()
    ensures Render(Platform("a-b", "c", "")) == Render(Platform("a", "c", "b"))
  {
  }
}
