# Nightly update checker

A Dafny model of the nightly-channel update repository of melonDS for Android
(`GitHubNightlyUpdatesRepository`). The repository decides when the latest nightly release
may be queried again, compares the fetched release against a stored baseline, picks the
installable package from the release's assets, and records the caller's answer (skip or
downloaded). It keeps three persisted values: whether checking is enabled, the next
permitted check time and the creation time of the last acknowledged release. Both times are
epoch milliseconds, and the value `-1` stands for "never written".

Files:

- `wrappers.dfy`: `Option`.
- `releases.dfy` (module `Releases`):
  - the release and asset records, and the `AppUpdate` descriptor;
  - `FirstApkIndex`, the first-match search of `firstOrNull`;
  - the list `ApkAssets` of all package assets, used as a reference for the search.
- `update_policy.dfy` (module `UpdatePolicy`):
  - every decision as a pure function over a `Prefs` value (the three persisted values);
  - one call as `CheckNewUpdate`;
  - runs of calls (`Event`, `Run`) and the lemmas that hold over any run.
- `nightly_repository.dfy` (module `NightlyRepository`): the class
  `GitHubNightlyUpdatesRepository`.
  - Its three fields are written in place, as the source writes its preferences.
  - Each method is proved to leave the fields equal to the corresponding `UpdatePolicy`
    function of the old values.

The time is a parameter `now`, and the fetched release is a parameter `release`. The
release only plays a part when a check is due: `UpdatePolicy.NotDueIgnoresRelease` states
this.

The sentinel `-1` (`UpdatePolicy.Absent`) is kept as the source has it. A stored `-1`
cannot be told apart from a key that was never written. Two lemmas show the consequence for
each key:
- `SentinelBaselineReadsAsAbsent`: a baseline of `-1` is captured again.
- `SentinelScheduleReadsAsAbsent`: a next-check time of `-1` means "check now".

## Model

| member | source | states |
|---|---|---|
| NightlyRepository.GitHubNightlyUpdatesRepository.FreshInstall | app/src/gitHubNightly/java/me/magnum/melonds/github/repositories/GitHubNightlyUpdatesRepository.kt:69-99 | Over an empty preference store every key reads as its default: checking enabled, no next-check time and no baseline (-1 for both). |
| NightlyRepository.GitHubNightlyUpdatesRepository.Restore | app/src/gitHubNightly/java/me/magnum/melonds/github/repositories/GitHubNightlyUpdatesRepository.kt:69-99 | The three fields are exactly the values read back from the preference store. |
| NightlyRepository.GitHubNightlyUpdatesRepository.ShouldCheckUpdates | app/src/gitHubNightly/java/me/magnum/melonds/github/repositories/GitHubNightlyUpdatesRepository.kt:67-86 | Checking disabled: not due. Enabled with no next-check time stored: due whatever `now` is. Otherwise due exactly when `now` is strictly after the stored time. Reads the state and writes nothing. |
| NightlyRepository.GitHubNightlyUpdatesRepository.ScheduleNextUpdate | app/src/gitHubNightly/java/me/magnum/melonds/github/repositories/GitHubNightlyUpdatesRepository.kt:88-95 | The next check becomes `now` plus one day (86,400,000 ms). The baseline and the enabled flag are unchanged. |
| NightlyRepository.GitHubNightlyUpdatesRepository.ShouldUpdate | app/src/gitHubNightly/java/me/magnum/melonds/github/repositories/GitHubNightlyUpdatesRepository.kt:97-114 | With no baseline: answers false, stores the release's creation time as the baseline and schedules the next check a day after `now`. With a baseline: answers true exactly when the release was created strictly later, and changes nothing. |
| NightlyRepository.GitHubNightlyUpdatesRepository.CheckNewUpdate | app/src/gitHubNightly/java/me/magnum/melonds/github/repositories/GitHubNightlyUpdatesRepository.kt:24-53 | When no check is due: returns nothing and changes nothing. A returned update leaves the state unchanged and is strictly newer than the baseline. The new state and the result are those of `UpdatePolicy.CheckNewUpdate`. |
| NightlyRepository.GitHubNightlyUpdatesRepository.SkipUpdate | app/src/gitHubNightly/java/me/magnum/melonds/github/repositories/GitHubNightlyUpdatesRepository.kt:55-57 | The next check becomes `now` plus one day. The baseline and the enabled flag are unchanged. |
| NightlyRepository.GitHubNightlyUpdatesRepository.NotifyUpdateDownloaded | app/src/gitHubNightly/java/me/magnum/melonds/github/repositories/GitHubNightlyUpdatesRepository.kt:59-65 | The baseline becomes the update's date, even when that date is older than the current baseline. The next-check time and the enabled flag are unchanged. |
| NightlyRepository.FirstCheckReportsNothing | app/src/gitHubNightly/java/me/magnum/melonds/github/repositories/GitHubNightlyUpdatesRepository.kt:97-108 | On a fresh install, the first check never reports an update, whatever the time and the release. |
| Releases.FirstApkIndex | app/src/gitHubNightly/java/me/magnum/melonds/github/repositories/GitHubNightlyUpdatesRepository.kt:30 | The search finds an index exactly when some asset has the package content type. The index found is the lowest one with that content type. |
| Releases.FirstApkIsFirstOfApkAssets | app/src/gitHubNightly/java/me/magnum/melonds/github/repositories/GitHubNightlyUpdatesRepository.kt:30-31 | The search finds nothing exactly when the list of package assets is empty. Otherwise it finds the first asset of that list. |
| UpdatePolicy.CheckNewUpdate | app/src/gitHubNightly/java/me/magnum/melonds/github/repositories/GitHubNightlyUpdatesRepository.kt:24-53 | One check, case by case. Not due: nothing reported and nothing written. First due check without a baseline: nothing reported, the baseline becomes the release's time and the next check is a day away. Later due checks write nothing. An update is reported exactly when a check is due, a baseline exists, the release is strictly newer and it has a package asset. The update's id, url and size come from the first package asset; its version from the tag, its notes from the body, its date from the creation time. |
| UpdatePolicy.DueStrictlyAfterNextCheck | app/src/gitHubNightly/java/me/magnum/melonds/github/repositories/GitHubNightlyUpdatesRepository.kt:81-84 | Checking enabled and a time stored: a check at exactly that time is not due, and one a millisecond later is. |
| UpdatePolicy.DueStaysDue | app/src/gitHubNightly/java/me/magnum/melonds/github/repositories/GitHubNightlyUpdatesRepository.kt:67-86 | A check that is due stays due at every later time. |
| UpdatePolicy.DueIgnoresClockWhenUnscheduled | app/src/gitHubNightly/java/me/magnum/melonds/github/repositories/GitHubNightlyUpdatesRepository.kt:69-78 | With no next-check time stored, a check is due at every instant when checking is enabled, and never when it is disabled. |
| UpdatePolicy.NotDueIgnoresRelease | app/src/gitHubNightly/java/me/magnum/melonds/github/repositories/GitHubNightlyUpdatesRepository.kt:25-28 | When no check is due, the outcome does not depend on the release: the release feed is never consulted. |
| UpdatePolicy.SkipPostponesOneDay | app/src/gitHubNightly/java/me/magnum/melonds/github/repositories/GitHubNightlyUpdatesRepository.kt:55-57 | When `now` plus one day is not -1: after a skip at `now`, every check up to and including `now` plus one day reports nothing and writes nothing, whether checking is enabled or not. With checking enabled, every later check is due. The baseline and the enabled flag are kept. |
| UpdatePolicy.RecheckRepeatsAnswer | app/src/gitHubNightly/java/me/magnum/melonds/github/repositories/GitHubNightlyUpdatesRepository.kt:111-113 | Once a baseline exists, a check writes nothing. So repeating a due check against the same release gives the same answer until the caller acts. |
| UpdatePolicy.DownloadedReleaseNotReportedAgain | app/src/gitHubNightly/java/me/magnum/melonds/github/repositories/GitHubNightlyUpdatesRepository.kt:59-65 | After the reported update is recorded as downloaded, later checks against the same release report nothing. |
| UpdatePolicy.DownloadMayLowerBaseline | app/src/gitHubNightly/java/me/magnum/melonds/github/repositories/GitHubNightlyUpdatesRepository.kt:59-65 | Recording a download whose date is older than the baseline moves the baseline backwards: the date is not checked. |
| UpdatePolicy.SentinelBaselineReadsAsAbsent | app/src/gitHubNightly/java/me/magnum/melonds/github/repositories/GitHubNightlyUpdatesRepository.kt:98-108 | A baseline written as -1 reads as absent. The next due check captures a new baseline and reports nothing. |
| UpdatePolicy.SentinelScheduleReadsAsAbsent | app/src/gitHubNightly/java/me/magnum/melonds/github/repositories/GitHubNightlyUpdatesRepository.kt:75-78 | A next-check time written as -1 reads as absent: a check is then due at every instant. |
| UpdatePolicy.CheckEnabledNeverWritten | app/src/gitHubNightly/java/me/magnum/melonds/github/repositories/GitHubNightlyUpdatesRepository.kt:18-115 | No run of checks, skips and downloads changes the enabled flag. |
| UpdatePolicy.DisabledReportsNothing | app/src/gitHubNightly/java/me/magnum/melonds/github/repositories/GitHubNightlyUpdatesRepository.kt:69-73 | With checking disabled, no run of calls ever reports an update. |
| UpdatePolicy.BaselineMovesOnlyOnDownload | app/src/gitHubNightly/java/me/magnum/melonds/github/repositories/GitHubNightlyUpdatesRepository.kt:97-114 | Once a baseline is set, only a recorded download changes it. |
| UpdatePolicy.ReportedAreNewerThanBaseline | app/src/gitHubNightly/java/me/magnum/melonds/github/repositories/GitHubNightlyUpdatesRepository.kt:97-113 | In any run without downloads, a baseline exists once something has been reported, and every reported update is strictly newer than it. So the first release observed is never reported. |
| UpdatePolicy.NightlyWeek | app/src/gitHubNightly/java/me/magnum/melonds/github/repositories/GitHubNightlyUpdatesRepository.kt:24-65 | The day-by-day run. Day 1: the baseline is captured. Day 3: a newer nightly with a package is reported, then skipped. Day 3.5: nothing. Just after day 4: the same update is reported again. |

## Left out

- Asynchronous composition (`Single`/`Maybe`): each call is one sequential method returning an `Option`.
- Concurrent overlapping `checkNewUpdate` calls: calls are taken one at a time.
- The release feed (`GitHubApi.getLatestNightlyRelease`): the fetched release is a parameter. Fetch failures and cancellation are not modelled.
- The preference store: the three keys are fields, and a key never written reads as its default. Write failures are not modelled.
- The preference that enables checking is written by the settings screen, which is not part of this model. Its value comes in through the `Restore` constructor.
- The clock (`Instant.now`): a parameter `now`. The source reads the clock twice in one check, at line 81 for the due test and at line 89 when scheduling. The model uses one reading for both, so the time spent on the network call is not modelled.
- Parsing of dates, versions and URIs (`Instant.parse`, `Version.fromString`, `toUri`):
  - the release's creation time is already in epoch milliseconds;
  - the version and the download URI are kept as the text they come from;
  - parse failures are not modelled.
- 64-bit `Long` arithmetic: times are unbounded integers. An overflow of `now` plus one day is not modelled, and neither is a time outside the range `Instant` allows.
- The value of `APK_CONTENT_TYPE` is defined in a file that is not part of this model. The model uses the Android package MIME type, and no proof depends on that value.
- The class that declares `AppUpdate` is not part of this model. Only its field `updateDate` is named in the repository (line 63). The other field names are the model's own, in the positional order of the constructor call at lines 32-40.
