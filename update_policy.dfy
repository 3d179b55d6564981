/**
 * The decisions of the nightly update checker as functions of the three persisted values,
 * the current time and the fetched release, and what follows from them over any sequence
 * of checks, skips and downloads.
 */
module UpdatePolicy {
  import opened Wrappers
  import opened Releases

  /** One day in milliseconds: the polling back-off. */
  const Day: int := 86_400_000

  /** The value a preference read yields when the key was never written. */
  const Absent: int := -1

  /**
   * The persisted values: whether checking is enabled, the next permitted check time and
   * the creation time of the last acknowledged release (both in epoch milliseconds, or
   * `Absent`). A stored `Absent` reads back exactly like a key that was never written.
   */
  datatype Prefs = Prefs(checkEnabled: bool, nextCheck: int, lastRelease: int)

  /** What a fresh installation reads: checking enabled, nothing scheduled, no baseline. */
  const FreshInstall: Prefs := Prefs(true, Absent, Absent)

  /** Whether a network check is due at `now`. */
  predicate ShouldCheckUpdates(p: Prefs, now: int) {
    if !p.checkEnabled then false
    else if p.nextCheck == Absent then true
    else now > p.nextCheck
  }

  /** The values after the next check has been put one day past `now`. */
  function ScheduleNextUpdate(p: Prefs, now: int): Prefs {
    p.(nextCheck := now + Day)
  }

  /**
   * Whether `release` counts as newer, with the values afterwards: without a baseline the
   * release becomes the baseline and is not newer; with one it is newer when created later.
   */
  function ShouldUpdate(p: Prefs, now: int, release: Release): (bool, Prefs) {
    if p.lastRelease == Absent then
      (false, ScheduleNextUpdate(p.(lastRelease := release.createdAt), now))
    else
      (release.createdAt > p.lastRelease, p)
  }

  /** The result of one `checkNewUpdate` call: the values afterwards and the update reported, if any. */
  datatype CheckOutcome = CheckOutcome(prefs: Prefs, update: Option<AppUpdate>)

  /** One `checkNewUpdate` call at `now`, `release` being what the nightly channel would return. */
  function CheckNewUpdate(p: Prefs, now: int, release: Release): (r: CheckOutcome)
    // not due: nothing reported, nothing written, the release plays no part
    ensures !ShouldCheckUpdates(p, now) ==> r == CheckOutcome(p, None)
    // first due check: the release becomes the baseline and the next check is a day away
    ensures ShouldCheckUpdates(p, now) && p.lastRelease == Absent ==>
      r.update == None && r.prefs == Prefs(p.checkEnabled, now + Day, release.createdAt)
    // later due checks write nothing
    ensures ShouldCheckUpdates(p, now) && p.lastRelease != Absent ==> r.prefs == p
    // an update exactly when due, a baseline exists, the release is strictly newer and has a package asset
    ensures r.update.Some? <==>
      ShouldCheckUpdates(p, now) && p.lastRelease != Absent && release.createdAt > p.lastRelease &&
      exists j :: 0 <= j < |release.assets| && IsApk(release.assets[j])
    // the update describes the release and its first package asset
    ensures r.update.Some? ==>
      exists k :: 0 <= k < |release.assets| && IsApk(release.assets[k]) &&
        (forall j :: 0 <= j < k ==> !IsApk(release.assets[j])) &&
        var a := release.assets[k];
        r.update.value == AppUpdate(Nightly, a.id, a.url, release.tagName, release.body, a.size, release.createdAt)
  {
    if !ShouldCheckUpdates(p, now) then CheckOutcome(p, None)
    else
      var (newer, p') := ShouldUpdate(p, now, release);
      if !newer then CheckOutcome(p', None)
      else match FirstApkIndex(release.assets)
        case None => CheckOutcome(p', None)
        case Some(k) => CheckOutcome(p', Some(NightlyUpdate(release, release.assets[k])))
  }

  /** `skipUpdate`: postpone the next check to one day past `now`. */
  function SkipUpdate(p: Prefs, now: int): Prefs {
    ScheduleNextUpdate(p, now)
  }

  /** `notifyUpdateDownloaded`: the downloaded update's date becomes the baseline, whatever it was. */
  function NotifyUpdateDownloaded(p: Prefs, u: AppUpdate): Prefs {
    p.(lastRelease := u.updateDate)
  }

  // ---------------------------------------------------------------------------------------
  // The due check

  /** Equality with the scheduled time is not yet due; one millisecond later is. */
  lemma DueStrictlyAfterNextCheck(p: Prefs)
    requires p.checkEnabled && p.nextCheck != Absent
    ensures !ShouldCheckUpdates(p, p.nextCheck)
    ensures ShouldCheckUpdates(p, p.nextCheck + 1)
  {
  }

  /** Once a check is due it stays due as time goes on. */
  lemma DueStaysDue(p: Prefs, now: int, later: int)
    requires now <= later && ShouldCheckUpdates(p, now)
    ensures ShouldCheckUpdates(p, later)
  {
  }

  /** Without a scheduled time a check is due at every instant, and never when checking is off. */
  lemma DueIgnoresClockWhenUnscheduled(p: Prefs, now: int)
    requires p.nextCheck == Absent
    ensures ShouldCheckUpdates(p, now) <==> p.checkEnabled
  {
  }

  /** When no check is due the fetched release makes no difference to the outcome. */
  lemma NotDueIgnoresRelease(p: Prefs, now: int, r1: Release, r2: Release)
    requires !ShouldCheckUpdates(p, now)
    ensures CheckNewUpdate(p, now, r1) == CheckNewUpdate(p, now, r2)
  {
  }

  // ---------------------------------------------------------------------------------------
  // Single transitions

  /**
   * After a skip at `now`, nothing is due up to and including `now + Day`; with checking
   * enabled, everything after is due.
   */
  lemma SkipPostponesOneDay(p: Prefs, now: int, later: int, release: Release)
    requires now + Day != Absent
    ensures var q := SkipUpdate(p, now);
      q.lastRelease == p.lastRelease && q.checkEnabled == p.checkEnabled &&
      (later <= now + Day ==> CheckNewUpdate(q, later, release) == CheckOutcome(q, None)) &&
      (p.checkEnabled && later > now + Day ==> ShouldCheckUpdates(q, later))
  {
  }

  /**
   * While the baseline is set, a check writes nothing, so the same due check repeated
   * against the same release gives the same answer until the caller skips or downloads.
   */
  lemma RecheckRepeatsAnswer(p: Prefs, now: int, later: int, release: Release)
    requires p.lastRelease != Absent
    ensures CheckNewUpdate(CheckNewUpdate(p, now, release).prefs, later, release) == CheckNewUpdate(p, later, release)
  {
  }

  /** Once an update has been downloaded, the release it came from is never reported again. */
  lemma DownloadedReleaseNotReportedAgain(p: Prefs, now: int, later: int, release: Release)
    requires CheckNewUpdate(p, now, release).update.Some?
    ensures var o := CheckNewUpdate(p, now, release);
      CheckNewUpdate(NotifyUpdateDownloaded(o.prefs, o.update.value), later, release).update == None
  {
  }

  /** Recording a download may move the baseline back to an older release. */
  lemma DownloadMayLowerBaseline(p: Prefs, u: AppUpdate)
    requires p.lastRelease != Absent && u.updateDate < p.lastRelease
    ensures NotifyUpdateDownloaded(p, u).lastRelease < p.lastRelease
  {
  }

  /**
   * A baseline equal to the sentinel cannot be told apart from no baseline: after recording a
   * download dated `Absent`, the next due check captures a new baseline instead of comparing.
   */
  lemma SentinelBaselineReadsAsAbsent(p: Prefs, u: AppUpdate, now: int, release: Release)
    requires u.updateDate == Absent && ShouldCheckUpdates(p, now)
    ensures var q := NotifyUpdateDownloaded(p, u);
      CheckNewUpdate(q, now, release) ==
        CheckOutcome(Prefs(p.checkEnabled, now + Day, release.createdAt), None)
  {
  }

  /**
   * A next-check time equal to the sentinel cannot be told apart from none: a skip whose
   * deadline lands on `Absent` leaves a check due at every instant.
   */
  lemma SentinelScheduleReadsAsAbsent(p: Prefs, now: int, later: int)
    requires p.checkEnabled && now + Day == Absent
    ensures ShouldCheckUpdates(SkipUpdate(p, now), later)
  {
  }

  // ---------------------------------------------------------------------------------------
  // Sequences of calls

  /** A call the caller makes on the repository. */
  datatype Event =
    | Check(now: int, release: Release)
    | Skip(now: int)
    | Downloaded(update: AppUpdate)

  /** The values after one call and the update it reported, if any. */
  function Step(p: Prefs, e: Event): CheckOutcome {
    match e
    case Check(now, release) => CheckNewUpdate(p, now, release)
    case Skip(now) => CheckOutcome(SkipUpdate(p, now), None)
    case Downloaded(u) => CheckOutcome(NotifyUpdateDownloaded(p, u), None)
  }

  /** The values after a run of calls, and every update reported along the way, in order. */
  datatype Trace = Trace(prefs: Prefs, reported: seq<AppUpdate>)

  function Run(p: Prefs, events: seq<Event>): Trace
    decreases |events|
  {
    if |events| == 0 then Trace(p, [])
    else
      var o := Step(p, events[0]);
      var t := Run(o.prefs, events[1..]);
      Trace(t.prefs, (if o.update.Some? then [o.update.value] else []) + t.reported)
  }

  predicate NoDownloads(events: seq<Event>) {
    forall i :: 0 <= i < |events| ==> !events[i].Downloaded?
  }

  /** The repository never writes the enabled flag. */
  lemma {:induction false} CheckEnabledNeverWritten(p: Prefs, events: seq<Event>)
    ensures Run(p, events).prefs.checkEnabled == p.checkEnabled
    decreases |events|
  {
    if |events| > 0 {
      CheckEnabledNeverWritten(Step(p, events[0]).prefs, events[1..]);
    }
  }

  /** With checking disabled no run ever reports an update. */
  lemma {:induction false} DisabledReportsNothing(p: Prefs, events: seq<Event>)
    requires !p.checkEnabled
    ensures Run(p, events).reported == []
    decreases |events|
  {
    if |events| > 0 {
      DisabledReportsNothing(Step(p, events[0]).prefs, events[1..]);
    }
  }

  /** Once set, the baseline only moves when the caller records a download. */
  lemma {:induction false} BaselineMovesOnlyOnDownload(p: Prefs, events: seq<Event>)
    requires p.lastRelease != Absent && NoDownloads(events)
    ensures Run(p, events).prefs.lastRelease == p.lastRelease
    decreases |events|
  {
    if |events| > 0 {
      assert !events[0].Downloaded?;
      BaselineMovesOnlyOnDownload(Step(p, events[0]).prefs, events[1..]);
    }
  }

  /**
   * Without downloads, a baseline exists after any run that reported something, and every
   * reported update is strictly newer than it: the first release ever observed, which
   * becomes the baseline, is never itself reported.
   */
  lemma {:induction false} ReportedAreNewerThanBaseline(p: Prefs, events: seq<Event>)
    requires NoDownloads(events)
    ensures var t := Run(p, events);
      |t.reported| > 0 ==> t.prefs.lastRelease != Absent
    ensures var t := Run(p, events);
      forall i :: 0 <= i < |t.reported| ==> t.reported[i].updateDate > t.prefs.lastRelease
    decreases |events|
  {
    if |events| > 0 {
      assert !events[0].Downloaded?;
      var o := Step(p, events[0]);
      assert NoDownloads(events[1..]) by {
        forall i | 0 <= i < |events[1..]| ensures !events[1..][i].Downloaded? {
          assert events[1..][i] == events[i + 1];
        }
      }
      ReportedAreNewerThanBaseline(o.prefs, events[1..]);
      if o.update.Some? {
        assert o.prefs == p && p.lastRelease != Absent;
        BaselineMovesOnlyOnDownload(o.prefs, events[1..]);
      }
    }
  }

  /**
   * The day-by-day run: a baseline captured on day 1, a newer nightly with a package on day 3
   * reported and skipped, nothing at day 3.5, and the same update reported again on day 4.
   */
  lemma NightlyWeek(tag1: string, tag3: string, apk: Asset)
    requires IsApk(apk)
    ensures var day1 := Release(tag1, Day, "", [apk]);
      var day3 := Release(tag3, 3 * Day, "", [apk]);
      var u := NightlyUpdate(day3, apk);
      Run(FreshInstall, [Check(Day, day1), Check(3 * Day, day3), Skip(3 * Day),
                         Check(3 * Day + Day / 2, day3), Check(4 * Day + 1, day3)])
        == Trace(Prefs(true, 4 * Day, Day), [u, u])
  {
    var day1 := Release(tag1, Day, "", [apk]);
    var day3 := Release(tag3, 3 * Day, "", [apk]);
    var u := NightlyUpdate(day3, apk);
    var p1 := Prefs(true, 2 * Day, Day);
    var p2 := Prefs(true, 4 * Day, Day);
    assert CheckNewUpdate(FreshInstall, Day, day1) == CheckOutcome(p1, None);
    assert FirstApkIndex(day3.assets) == Some(0);
    assert CheckNewUpdate(p1, 3 * Day, day3) == CheckOutcome(p1, Some(u));
    assert CheckNewUpdate(p2, 3 * Day + Day / 2, day3) == CheckOutcome(p2, None);
    assert CheckNewUpdate(p2, 4 * Day + 1, day3) == CheckOutcome(p2, Some(u));
    var events := [Check(Day, day1), Check(3 * Day, day3), Skip(3 * Day),
                   Check(3 * Day + Day / 2, day3), Check(4 * Day + 1, day3)];
    assert Run(p2, events[4..]) == Trace(p2, [u]) by {
      assert events[4..][1..] == [];
    }
    assert Run(p2, events[3..]) == Trace(p2, [u]) by {
      assert events[3..][1..] == events[4..];
    }
    assert Run(p1, events[2..]) == Trace(p2, [u]) by {
      assert events[2..][1..] == events[3..];
    }
    assert Run(p1, events[1..]) == Trace(p2, [u, u]) by {
      assert events[1..][1..] == events[2..];
    }
  }
}
