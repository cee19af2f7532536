/**
 * How `main` turns its `min_version` and `max_version` arguments into the
 * bounds of the version range: "EOL" (any letter case) picks the release line
 * whose end of life comes soonest within the next ten years, and "latest"
 * stands for version 4.0.
 */
module Bounds {
  import opened Wrappers
  import opened Versions
  import opened Grouping

  /** One entry of the end-of-life feed; `eol` is a day number. */
  datatype EolEntry = EolEntry(cycle: string, eol: int)

  /** The search window: `datetime.timedelta(3650)`. */
  const EolWindowDays := 3650

  /** Python's `str.upper` on ASCII letters. */
  function ToUpper(c: char): char {
    if 'a' <= c <= 'z' then (c as int - 'a' as int + 'A' as int) as char else c
  }

  /** `min_version.upper() == 'EOL'` */
  predicate IsEolToken(s: string) {
    |s| == 3 && ToUpper(s[0]) == 'E' && ToUpper(s[1]) == 'O' && ToUpper(s[2]) == 'L'
  }

  /** The token is "EOL" in any mix of letter cases, and nothing else. */
  lemma EolTokenSpellings(s: string)
    ensures IsEolToken(s) <==> s in {"EOL", "EOl", "EoL", "Eol", "eOL", "eOl", "eoL", "eol"}
  {
    if IsEolToken(s) {
      assert s[0] in "Ee" && s[1] in "Oo" && s[2] in "Ll";
      assert s == [s[0], s[1], s[2]];
    }
  }

  /** The entry's end of life lies strictly after today and strictly before the window's end. */
  predicate Qualifies(e: EolEntry, today: int) {
    today < e.eol < today + EolWindowDays
  }

  /**
   * Entry `k` is the one the loop ends on: it qualifies, no qualifying entry
   * ends sooner, and every earlier qualifying entry ends strictly later (on a
   * tie the first in feed order wins).
   */
  predicate IsSoonest(feed: seq<EolEntry>, today: int, k: int) {
    && 0 <= k < |feed|
    && Qualifies(feed[k], today)
    && (forall j :: 0 <= j < |feed| && Qualifies(feed[j], today) ==> feed[k].eol <= feed[j].eol)
    && (forall j :: 0 <= j < k && Qualifies(feed[j], today) ==> feed[k].eol < feed[j].eol)
  }

  /** At most one entry is the soonest. */
  lemma SoonestUnique(feed: seq<EolEntry>, today: int, k1: int, k2: int)
    requires IsSoonest(feed, today, k1) && IsSoonest(feed, today, k2)
    ensures k1 == k2
  {
  }

  /**
   * The loop over the end-of-life feed. `future` starts at the window's end and
   * drops to each qualifying end-of-life date that beats it; the lower bound
   * is the cycle of the entry last accepted, or stays the raw argument when
   * none qualifies.
   */
  method SoonestEolCycle(minArg: string, feed: seq<EolEntry>, today: int, parse: string -> Version)
    returns (lo: LowerBound, chosen: Option<nat>)
    ensures chosen.None? <==> forall j :: 0 <= j < |feed| ==> !Qualifies(feed[j], today)
    ensures chosen.None? ==> lo == Raw(minArg)
    ensures chosen.Some? ==> IsSoonest(feed, today, chosen.value) && lo == Parsed(parse(feed[chosen.value].cycle))
  {
    var future := today + EolWindowDays;
    lo := Raw(minArg);
    chosen := None;
    var i := 0;
    while i < |feed|
      invariant 0 <= i <= |feed|
      invariant chosen.None? ==> future == today + EolWindowDays && lo == Raw(minArg)
      invariant chosen.None? ==> forall j :: 0 <= j < i ==> !Qualifies(feed[j], today)
      invariant chosen.Some? ==> chosen.value < i && Qualifies(feed[chosen.value], today)
      invariant chosen.Some? ==> future == feed[chosen.value].eol && lo == Parsed(parse(feed[chosen.value].cycle))
      invariant chosen.Some? ==> forall j :: 0 <= j < i && Qualifies(feed[j], today) ==> future <= feed[j].eol
      invariant chosen.Some? ==> forall j :: 0 <= j < chosen.value && Qualifies(feed[j], today) ==> future < feed[j].eol
    {
      var release := feed[i];
      if today < release.eol && release.eol < future {
        future := release.eol;
        lo := Parsed(parse(release.cycle));
        chosen := Some(i);
      }
      i := i + 1;
    }
  }

  /**
   * `lo` is the lower bound `main` settles on: the argument parsed, unless it
   * is "EOL", in which case the cycle of the soonest-ending entry, or the raw
   * argument exactly when the feed has no qualifying entry.
   */
  predicate IsMinResolution(minArg: string, feed: seq<EolEntry>, today: int, parse: string -> Version, lo: LowerBound) {
    && (!IsEolToken(minArg) ==> lo == Parsed(parse(minArg)))
    && (IsEolToken(minArg) && lo.Raw? ==> lo.text == minArg && forall j :: 0 <= j < |feed| ==> !Qualifies(feed[j], today))
    && (IsEolToken(minArg) && lo.Parsed? ==> exists k :: 0 <= k < |feed| && IsSoonest(feed, today, k) && lo.bound == parse(feed[k].cycle))
  }

  method ResolveMinVersion(minArg: string, feed: seq<EolEntry>, today: int, parse: string -> Version)
    returns (lo: LowerBound)
    ensures IsMinResolution(minArg, feed, today, parse, lo)
  {
    if IsEolToken(minArg) {
      var chosen;
      lo, chosen := SoonestEolCycle(minArg, feed, today, parse);
    } else {
      lo := Parsed(parse(minArg));
    }
  }

  /** The upper-bound sentinel that "latest" stands for. */
  const LatestSentinel := Version(4, 0, 0, None)

  /** `max_version`: the argument parsed, or version 4.0 for "latest" (compared case-sensitively). */
  function ResolveMaxVersion(maxArg: string, parse: string -> Version): (hi: Version)
    ensures maxArg != "latest" ==> hi == parse(maxArg)
    ensures maxArg == "latest" ==> forall v: Version :: v.major <= 3 ==> Less(MajorMinor(v), hi) && Less(v, hi)
  {
    if maxArg != "latest" then parse(maxArg) else LatestSentinel
  }

  /**
   * "latest" is a finite bound: every 3.x and 4.0.x release passes the upper
   * comparison, and anything from 4.1 on fails it.
   */
  lemma LatestIsFourPointZero(v: Version, parse: string -> Version)
    ensures WithinMax(v, ResolveMaxVersion("latest", parse)) <==> v.major < 4 || (v.major == 4 && v.minor == 0)
  {
  }
}
