# latest-python-versions, modelled in Dafny

`latest-python-versions` is a GitHub Actions helper. It reads the manifest of
Python builds published for `actions/setup-python` and the end-of-life
schedule of Python release lines. It keeps the builds whose major.minor line
lies between a lower bound (`min_version`, or "EOL" for the oldest line still
supported) and an upper bound (`max_version`, or "latest"). It then keeps the
newest release of each line and prints the result as a JSON list of the
manifest's own version strings, newest first.

This project models the logic of `main.py`:

- `versions.dfy`: the version value and its order. Pre-releases (a, b, rc)
  sort below their final release. It also holds the major.minor projection
  and `sorted(..., reverse=True)` on a set of versions.
- `platforms.dfy`: the `Platform` key of a build file and its `__str__`.
- `grouping.dfy`: `get_platform_to_version`, the filter and the
  grouping by platform. It is a loop over the records with an inner loop
  over each record's build files.
- `latest_minor.dfy`: `latest_minor_versions`, a loop over a set that keeps
  the greatest version per line, followed by the sort.
- `bounds.dfy`: how `main` resolves its two bounds. This covers the
  case-insensitive "EOL" token, the scan of the end-of-life feed for the
  soonest end of life within 3650 days, and "latest" standing for 4.0.
- `pipeline.dfy`: the rest of `main`. It maps parsed versions back to
  their original strings, takes the union over platforms, and emits the
  list in order.

Throughout the model:

- Version strings are parsed by a function parameter `parse`.
- Dates are day numbers, with today's date passed in as `today`.
- The two JSON feeds are passed in as sequences of records.

### Behaviour the model makes explicit

- **The comparisons are not normalised.** Each record's version is reduced to
  major.minor, but the bounds are compared as parsed.
  - Both bounds are inclusive at major.minor granularity.
  - A lower bound written with a non-zero patch (say `3.8.1`) excludes its
    own line.
  - An upper bound of the same shape keeps its line
    (`Grouping.PatchedBoundsAsymmetric`).
- **"EOL" can leave the bound as a string.** If no entry of the feed ends
  within the window, `min_version` stays the raw argument string (for
  example "eol", as given). Python then raises
  `TypeError` the first time a record reaches the comparison with it at
  main.py:45.
  - A record only gets there if it passes the pre-release filter and the
    upper-bound comparison, because `or` short-circuits.
  - The model returns `Failure(Unorderable(...))` in exactly that case.
- **"latest" is a finite bound.** `main`'s docstring calls `max_version` the
  major.minor upper bound or 'latest' (main.py:78). The code uses version 4.0
  for 'latest' (main.py:92), so a
  hypothetical 4.0.x release would be kept and 4.1 dropped. The model
  follows the code (`Bounds.LatestIsFourPointZero`).
- **A record with no build files is never printed.** It contributes to no
  platform's set, even when it passes both filters.
- **Duplicate spellings resolve to the last one.** Two manifest strings can
  parse to the same version. The lookup at main.py:103 then keeps the later
  one (`Pipeline.LookupIsLastRecord`).

## Model

| member | source | states |
|---|---|---|
| Versions.LessIsStrictTotalOrder | main.py:66 | Version comparison is irreflexive, asymmetric, transitive and total, so the line maximum and the descending sort are well defined |
| Versions.PrereleaseBelowFinal | main.py:66 | A pre-release is strictly below the final release with the same numbers |
| Versions.MajorMinor | main.py:40 | The projection keeps major and minor and is never a pre-release. It lies above its version exactly when that version is a pre-release of patch 0 (3.10.0rc1 < 3.10), and is at most the version otherwise |
| Versions.MajorMinorMonotone | main.py:45 | A larger version never has a smaller major.minor, so the range filter is monotone in the version |
| Versions.SortDescending | main.py:69 | The result is strictly descending and holds exactly the elements of the set, each once |
| Versions.DescendingUnique | main.py:69 | Two strictly descending sequences with the same elements are equal, so the sorted output is determined by its elements |
| Platforms.Unrender | main.py:23-27 | Whatever it reads back from a string renders to that same string |
| Platforms.RenderRoundTrip | main.py:23-27 | When no field contains a dash, the rendered string is "name-arch" for an empty platform version and "name-version-arch" otherwise; splitting it on dashes recovers the platform |
| Platforms.RenderInjective | main.py:23-27 | Platforms with dash-free fields render to different strings when they differ |
| Platforms.RenderCollidesOnDashes | main.py:23-27 | With a dash inside a field, two different platforms render to the same string |
| Grouping.GetPlatformToVersion | main.py:30-55 | Fails exactly when the lower bound is the unparsed "EOL" string and some record passes the pre-release and upper-bound comparisons. Otherwise, v is in the set of platform p exactly when some record with version v passes both filters and has a build file keyed p. No set is empty, no pre-release is kept unless asked for, and every kept version's major.minor lies within [min, max], both ends inclusive |
| Grouping.AddToPlatforms | main.py:48-54 | Every platform a build file names gains the version, a new key gets a set holding it, and nothing else is added or lost |
| Grouping.SkipRecord | main.py:42-46 | A record that fails the pre-release filter or the range filter adds nothing to any platform |
| Grouping.TakeRecord | main.py:45-54 | A record that passes both filters adds its version exactly under the platforms its build files name |
| Grouping.PatchedBoundsAsymmetric | main.py:45 | A bound with a non-zero patch shuts its own major.minor line out as a lower bound but keeps it as an upper bound |
| LatestMinor.LatestMinorVersions | main.py:58-69 | The result is strictly descending. Every element is the greatest version of its major.minor line in the input, no two share a line, and every line present in the input is represented |
| LatestMinor.TableListing | main.py:62-69 | Sorting the values of the finished per-line table in descending order yields such a listing |
| LatestMinor.ListingElements | main.py:58-61 | The listing holds exactly the line maxima of the input, e.g. [3.9.1, 3.9.2] gives [3.9.2] |
| LatestMinor.ListingUnique | main.py:63-69 | The listing is unique, so the result does not depend on the order in which the set is walked |
| LatestMinor.PrereleaseLosesToFinal | main.py:66 | A pre-release is dropped whenever its final release is also in the input |
| Bounds.EolTokenSpellings | main.py:81 | The lower bound is resolved from the end-of-life feed exactly for the eight letter-case spellings of "EOL" |
| Bounds.SoonestEolCycle | main.py:82-89 | It picks no entry exactly when no end of life lies strictly between today and today + 3650 days, and the bound then stays the raw argument. Otherwise it picks a qualifying entry whose end of life is minimal and strictly earlier than every qualifying entry before it (ties go to the first), and the bound is that entry's parsed cycle |
| Bounds.SoonestUnique | main.py:84-88 | At most one entry satisfies that choice |
| Bounds.ResolveMinVersion | main.py:81-91 | A non-"EOL" argument is parsed. "EOL" gives the cycle of the soonest-ending qualifying entry, or stays the raw string exactly when none qualifies |
| Bounds.ResolveMaxVersion | main.py:92 | Any argument other than "latest" is parsed. "latest" gives a bound above every 3.x version and above its major.minor |
| Bounds.LatestIsFourPointZero | main.py:92 | Under "latest" a version passes the upper comparison exactly when it is below 4, or 4.0.x |
| Pipeline.SemverToOriginal | main.py:103 | Every record's parsed version is a key, and every value parses back to its key |
| Pipeline.LookupIsLastRecord | main.py:103 | The string stored for a version is that of the last record parsing to it |
| Pipeline.OriginalRecovered | main.py:103 | When distinct strings parse to distinct versions, each record's version maps back to its own string |
| Pipeline.OriginalStrings | main.py:109 | One string per version, in the same order, each parsing back to its version and taken from the lookup |
| Pipeline.UnionIsCandidates | main.py:97-104 | The union of all platforms' sets is exactly the set of accepted record versions that have at least one build file |
| Pipeline.Select | main.py:97-109 | Fails exactly as the grouping does. Otherwise every printed string is a manifest version string, and the parsed list is the latest-per-line listing of the candidates, newest first |
| Pipeline.LatestPythonVersions | main.py:72-109 | The lower bound is resolved as described, the upper bound is `max_version` or 4.0, and the printed list is the selection for those bounds |

## Left out

- HTTP requests for the two feeds (main.py:83, 95): the feeds are parameters.
- Writing to the `GITHUB_ENV` and `GITHUB_OUTPUT` files and printing (main.py:111-117): these are output only. The model returns the list of strings.
- JSON encoding of the list (main.py:109): the model returns the strings that are encoded.
- `packaging.version.parse`: this is a function parameter `parse`. The model does not cover parse errors (`InvalidVersion`), epochs, dev, post or local segments, or the normalisation rules.
- Taking the major.minor projection from the string's first two dot-separated fields (main.py:40, 64): the projection is taken on the parsed version. The two agree for manifest strings such as "3.10.0-rc.1". A suffix glued to the minor number ("3.10rc1") is not modelled.
- `strtobool` (main.py:93): the flag is taken as a `bool`, and strings it rejects are not modelled.
- `date.today()` and `date.fromisoformat` (main.py:82-88): dates are day numbers and today is read once. A feed entry whose `eol` is not a date (the feed allows `false`) is not modelled.
- `str.upper` (main.py:81): modelled on ASCII letters only.
- The command-line entry point (main.py:120-121).
