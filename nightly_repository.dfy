/**
 * The repository object: the three persisted values as fields, written in place by the
 * operations, each operation proved against its counterpart in `UpdatePolicy`.
 */
module NightlyRepository {
  import opened Wrappers
  import opened Releases
  import UpdatePolicy

  class GitHubNightlyUpdatesRepository {
    /** The user's "check for updates" setting (written elsewhere, default true). */
    var checkEnabled: bool
    /** The next permitted check time in epoch milliseconds, or `UpdatePolicy.Absent`. */
    var nextCheck: int
    /** The creation time of the last acknowledged release, or `UpdatePolicy.Absent`. */
    var lastRelease: int

    function State(): UpdatePolicy.Prefs
      reads this
    {
      UpdatePolicy.Prefs(checkEnabled, nextCheck, lastRelease)
    }

    /** A repository over values read back from the preference store. */
    constructor Restore(checkEnabled: bool, nextCheck: int, lastRelease: int)
      ensures State() == UpdatePolicy.Prefs(checkEnabled, nextCheck, lastRelease)
    {
      this.checkEnabled := checkEnabled;
      this.nextCheck := nextCheck;
      this.lastRelease := lastRelease;
    }

    /** A repository over an empty preference store: every key reads as its default. */
    constructor FreshInstall()
      ensures State() == UpdatePolicy.FreshInstall
    {
      checkEnabled := true;
      nextCheck := UpdatePolicy.Absent;
      lastRelease := UpdatePolicy.Absent;
    }

    /** Whether a network check is due at `now`; reads the values and writes nothing. */
    method ShouldCheckUpdates(now: int) returns (due: bool)
      ensures !checkEnabled ==> !due
      ensures checkEnabled && nextCheck == UpdatePolicy.Absent ==> due
      ensures checkEnabled && nextCheck != UpdatePolicy.Absent ==> (due <==> now > nextCheck)
      ensures due == UpdatePolicy.ShouldCheckUpdates(State(), now)
    {
      if !checkEnabled {
        return false;
      }
      if nextCheck == UpdatePolicy.Absent {
        return true;
      }
      due := now > nextCheck;
    }

    /** Puts the next permitted check one day past `now`. */
    method ScheduleNextUpdate(now: int)
      modifies this
      ensures nextCheck == now + UpdatePolicy.Day
      ensures checkEnabled == old(checkEnabled) && lastRelease == old(lastRelease)
      ensures State() == UpdatePolicy.ScheduleNextUpdate(old(State()), now)
    {
      nextCheck := now + UpdatePolicy.Day;
    }

    /**
     * Whether `release` is newer than the baseline. Without a baseline, records the release
     * as the baseline, schedules the next check and answers false.
     */
    method ShouldUpdate(now: int, release: Release) returns (newer: bool)
      modifies this
      ensures old(lastRelease) == UpdatePolicy.Absent ==>
        !newer && lastRelease == release.createdAt && nextCheck == now + UpdatePolicy.Day
      ensures old(lastRelease) != UpdatePolicy.Absent ==>
        (newer <==> release.createdAt > old(lastRelease)) && unchanged(this)
      ensures checkEnabled == old(checkEnabled)
      ensures (newer, State()) == UpdatePolicy.ShouldUpdate(old(State()), now, release)
    {
      if lastRelease == UpdatePolicy.Absent {
        lastRelease := release.createdAt;
        ScheduleNextUpdate(now);
        return false;
      }
      newer := release.createdAt > lastRelease;
    }

    /**
     * One check for a new nightly at `now`; `release` stands for what the nightly channel
     * returns, and is only looked at when a check is due.
     */
    method CheckNewUpdate(now: int, release: Release) returns (update: Option<AppUpdate>)
      modifies this
      ensures !UpdatePolicy.ShouldCheckUpdates(old(State()), now) ==> update == None && unchanged(this)
      ensures update.Some? ==> unchanged(this) && update.value.updateDate > lastRelease
      ensures State() == UpdatePolicy.CheckNewUpdate(old(State()), now, release).prefs
      ensures update == UpdatePolicy.CheckNewUpdate(old(State()), now, release).update
    {
      var due := ShouldCheckUpdates(now);
      if !due {
        return None;
      }
      var newer := ShouldUpdate(now, release);
      if !newer {
        return None;
      }
      var apk := FirstApkIndex(release.assets);
      match apk {
        case None =>
          update := None;
        case Some(k) =>
          update := Some(NightlyUpdate(release, release.assets[k]));
      }
    }

    /** The caller declines the update: ask again no sooner than one day from `now`. */
    method SkipUpdate(update: AppUpdate, now: int)
      modifies this
      ensures nextCheck == now + UpdatePolicy.Day
      ensures checkEnabled == old(checkEnabled) && lastRelease == old(lastRelease)
      ensures State() == UpdatePolicy.SkipUpdate(old(State()), now)
    {
      ScheduleNextUpdate(now);
    }

    /** The caller downloaded the update: its date becomes the baseline, older or not. */
    method NotifyUpdateDownloaded(update: AppUpdate)
      modifies this
      ensures lastRelease == update.updateDate
      ensures checkEnabled == old(checkEnabled) && nextCheck == old(nextCheck)
      ensures State() == UpdatePolicy.NotifyUpdateDownloaded(old(State()), update)
    {
      lastRelease := update.updateDate;
    }
  }

  /** What a caller can rely on from the contracts alone: the first check of a fresh install reports nothing. */
  method FirstCheckReportsNothing(now: int, release: Release) returns (update: Option<AppUpdate>)
    ensures update == None
  {
    var repo := new GitHubNightlyUpdatesRepository.FreshInstall();
    update := repo.CheckNewUpdate(now, release);
  }
}
