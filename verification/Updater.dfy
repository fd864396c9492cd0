/**
 The auto-updater's persistent state machine (claude-plugin/scripts/auto-update.js).

 One record survives between checks.  A check reads it, may ask GitHub for the
 latest release, may install or heal, and merges what happened back into it.  The
 outcome of every effect is a field of `Env`, chosen freely by the environment;
 only the clock is constrained, to run forward.
 */
module Updater {
  import opened Options

  type Time = int
  type Version = nat

  const SECOND: Time := 1000
  const HOUR: Time := 60 * 60 * SECOND
  const DAY: Time := 24 * HOUR
  const CHECK_INTERVAL: Time := 6 * HOUR
  const UP_TO_DATE_RECHECK: Time := 30 * 60 * SECOND
  const SESSION_START_MIN_GAP: Time := 2 * 60 * SECOND
  const RATE_LIMIT_INTERVAL: Time := HOUR
  const SUSPENSION_RETRY: Time := DAY
  const MAX_UPDATE_ATTEMPTS: nat := 5
  const GLOBAL_PKG_HEAL_MAX_ATTEMPTS: nat := 3

  /** The fields of update-state.json that any decision reads. */
  datatype State = State(
    lastCheck: Option<Time>,
    rateLimited: bool,
    installedVersion: Option<Version>,
    latestVersion: Option<Version>,
    updateAvailable: Option<bool>,
    updateAttempts: nat,
    suspendedAt: Option<Time>,
    binaryHealVersion: Option<Version>,
    binaryHealAttempts: nat,
    globalPkgHealVersion: Option<Version>,
    globalPkgHealAttempts: nat)

  const FRESH := State(None, false, None, None, None, 0, None, None, 0, None, 0)

  datatype Fetch = Forbidden | Unreachable | Release(version: Version)

  /** Whether the cached binary needs replacing, whether it runs, and whether it
      still needs replacing after a download. */
  datatype BinaryProbe = BinaryProbe(staleBefore: bool, runnable: bool, staleAfter: bool)

  /** Whether global packages lag, npm's exit, and whether they lag afterwards. */
  datatype GlobalProbe = GlobalProbe(staleBefore: bool, npmOk: bool, staleAfter: bool)

  /** What the plugin registry holds for this plugin. */
  datatype Entry = NoEntry | Malformed | Writable

  /** The registry file: absent, unreadable, or read (perhaps with bytes that a rewrite
      would lose, perhaps backed up first), and whether writing it back works. */
  datatype Registry = Missing | Unreadable | Readable(lossy: bool, backedUp: bool, entry: Entry, written: bool)

  /** How each step of one download-and-install round goes, if the round gets to it. */
  datatype Round = Round(
    toolsPresent: bool,
    directoryMade: bool,
    published: bool,        // the release names a plugin archive
    fetched: bool,
    digestMatches: bool,
    unpacked: bool,
    versionMatches: bool,   // the archive holds the plugin at the release's version
    copied: bool,
    registry: Registry)

  datatype Env = Env(
    start: Time,      // the throttle's clock read
    fetched: Time,    // the release request has ended
    finished: Time,   // the effects have ended
    installMissing: bool,
    optedOut: bool,
    force: bool,
    manifestVersion: Version,
    binaryMissing: bool,
    binaryStale: bool,
    lockByParent: bool,
    lockFree: bool,
    fetch: Fetch,
    round: Round,
    binary: BinaryProbe,
    globals: GlobalProbe)

  /** What a check did to the outside world. */
  datatype Effects = Effects(
    requested: bool,                 // asked GitHub
    installRound: bool,              // ran the download-and-install chain
    roundFetchesBinary: bool,        // ... which got as far as the binary's download
    healedRunnable: bool,            // downloaded over a binary that runs
    healedMissing: bool,             // downloaded where no binary runs
    npmInstall: Option<Version>)     // ran one global npm install for that target

  const NOTHING := Effects(false, false, false, false, false, None)
  const ASKED := Effects(true, false, false, false, false, None)

  // ---------- Decisions over a state ----------

  predicate IsUpdateSuspended(s: State) {
    s.suspendedAt.Some? && s.updateAttempts >= MAX_UPDATE_ATTEMPTS
  }

  predicate IsBinaryHealExhausted(s: State) {
    && s.binaryHealVersion.Some?
    && s.binaryHealVersion == s.latestVersion
    && s.binaryHealAttempts >= MAX_UPDATE_ATTEMPTS
  }

  predicate ShouldCheck(s: State, e: Env) {
    if s.lastCheck.None? then true else
      var elapsed := e.start - s.lastCheck.value;
      if s.rateLimited then elapsed >= RATE_LIMIT_INTERVAL
      else if e.binaryMissing then true
      else if !IsUpdateSuspended(s) && e.binaryStale && !IsBinaryHealExhausted(s) then true
      else if !IsUpdateSuspended(s) && e.force then elapsed >= SESSION_START_MIN_GAP
      else elapsed >= if s.updateAvailable == Some(false) then UP_TO_DATE_RECHECK else CHECK_INTERVAL
  }

  predicate ShouldHealGlobalsOnThrottle(s: State, e: Env) {
    s.latestVersion.Some? && !e.lockByParent && e.globals.staleBefore
  }

  // ---------- One install round ----------

  /** The registry may still name the old version. */
  predicate Blocks(r: Registry) {
    match r
    case Missing => false
    case Unreadable => true
    case Readable(lossy, backedUp, entry, written) =>
      (lossy && !backedUp) || entry.Malformed? || (entry.Writable? && !written)
  }

  /** Every step worked: the new plugin is in place and no registry names the old one. */
  predicate Installs(r: Round) {
    && r.toolsPresent && r.directoryMade && r.published && r.fetched && r.digestMatches
    && r.unpacked && r.versionMatches && r.copied && !Blocks(r.registry)
  }

  /** No tool is missing and no step the round gets to throws. */
  predicate ReachesBinary(r: Round) {
    && r.toolsPresent
    && r.directoryMade
    && (r.published ==> r.fetched)
    && (r.published && r.digestMatches ==> r.unpacked)
    && (r.published && r.digestMatches && r.versionMatches ==> r.copied)
  }

  // ---------- The two heals: what they did, and the patch to merge ----------

  /** A patch of one attempt counter and the version it counts for. */
  datatype Patch = Keep | Set(version: Option<Version>, attempts: nat)

  datatype BinaryHeal = BinaryHeal(downloaded: bool, patch: Patch)

  function AttemptsFor(version: Option<Version>, attempts: nat, target: Version): nat {
    if version == Some(target) then attempts else 0
  }

  function SelfHealStaleBinary(s: State, latest: Version, p: BinaryProbe): BinaryHeal {
    if !p.staleBefore then
      BinaryHeal(false, if s.binaryHealAttempts > 0 then Set(None, 0) else Keep)
    else
      var attempts := AttemptsFor(s.binaryHealVersion, s.binaryHealAttempts, latest);
      if p.runnable && attempts >= MAX_UPDATE_ATTEMPTS then BinaryHeal(false, Keep)
      else BinaryHeal(true, Set(Some(latest),
        if !p.staleAfter then 0 else if p.runnable then attempts + 1 else attempts))
  }

  datatype GlobalHeal = GlobalHeal(installed: bool, patch: Patch)

  function SelfHealGlobalPkgs(s: State, target: Version, p: GlobalProbe): GlobalHeal {
    if !p.staleBefore then
      GlobalHeal(false, if s.globalPkgHealAttempts > 0 then Set(None, 0) else Keep)
    else
      var attempts := AttemptsFor(s.globalPkgHealVersion, s.globalPkgHealAttempts, target);
      if attempts >= GLOBAL_PKG_HEAL_MAX_ATTEMPTS then GlobalHeal(false, Keep)
      else GlobalHeal(true, Set(Some(target), if p.npmOk && !p.staleAfter then 0 else attempts + 1))
  }

  function MergeBinary(s: State, p: Patch): State {
    if p.Keep? then s else s.(binaryHealVersion := p.version, binaryHealAttempts := p.attempts)
  }

  function MergeGlobal(s: State, p: Patch): State {
    if p.Keep? then s else s.(globalPkgHealVersion := p.version, globalPkgHealAttempts := p.attempts)
  }

  // ---------- One check as a function of the stored record ----------

  predicate RetryDue(s: State, latest: Version, now: Time) {
    s.latestVersion == Some(latest) && s.suspendedAt.Some? && now - s.suspendedAt.value >= SUSPENSION_RETRY
  }

  function Attempts(s: State, latest: Version): nat {
    AttemptsFor(s.latestVersion, s.updateAttempts, latest)
  }

  predicate Suspends(s: State, latest: Version, e: Env) {
    Attempts(s, latest) >= MAX_UPDATE_ATTEMPTS && !RetryDue(s, latest, e.fetched)
  }

  function Throttled(s: State, e: Env): (State, Effects) {
    var s1 := s.(installedVersion := Some(e.manifestVersion));
    if ShouldHealGlobalsOnThrottle(s, e) && e.lockFree then
      var heal := SelfHealGlobalPkgs(s, s.latestVersion.value, e.globals);
      (MergeGlobal(s1, heal.patch),
       NOTHING.(npmInstall := if heal.installed then s.latestVersion else None))
    else (s1, NOTHING)
  }

  function FetchFailed(s: State, e: Env): State {
    s.(rateLimited := s.rateLimited || e.fetch.Forbidden?,
       installedVersion := Some(e.manifestVersion),
       lastCheck := Some(e.fetched))
  }

  function CheckOnly(s: State, latest: Version, e: Env): State {
    s.(installedVersion := Some(e.manifestVersion),
       lastCheck := Some(e.finished),
       latestVersion := Some(latest),
       updateAvailable := Some(true),
       updateAttempts := Attempts(s, latest),
       suspendedAt := if s.latestVersion == Some(latest)
           && s.suspendedAt.Some? then s.suspendedAt else Some(e.finished),
       rateLimited := false)
  }

  function AfterInstall(s: State, latest: Version, e: Env): State {
    s.(lastCheck := Some(e.finished),
       installedVersion := Some(if Installs(e.round) then latest else e.manifestVersion),
       latestVersion := Some(latest),
       updateAvailable := Some(!Installs(e.round)),
       updateAttempts := if Installs(e.round) then 0 else Attempts(s, latest) + 1,
       suspendedAt :=
         if Installs(e.round) then None
         else if RetryDue(s, latest, e.fetched) then Some(e.finished)
         else if s.latestVersion != Some(latest) then None
         else s.suspendedAt,
       rateLimited := false)
  }

  function UpToDate(s: State, latest: Version, e: Env): State {
    s.(installedVersion := Some(e.manifestVersion),
       lastCheck := Some(e.finished),
       latestVersion := Some(latest),
       updateAvailable := Some(false),
       updateAttempts := 0,
       suspendedAt := None,
       rateLimited := false)
  }

  function Check(s: State, e: Env): (State, Effects) {
    if !e.installMissing && e.optedOut then (s, NOTHING)
    else if !ShouldCheck(s, e) then Throttled(s, e)
    else if !e.fetch.Release? then (FetchFailed(s, e), ASKED)
    else if !e.lockByParent && !e.lockFree then (s, ASKED)
    else
      var latest := e.fetch.version;
      var globalHeal := SelfHealGlobalPkgs(s, latest, e.globals);
      var npm := if globalHeal.installed then Some(latest) else None;
      if latest > e.manifestVersion then
        if Suspends(s, latest, e) then
          (CheckOnly(s, latest, e), ASKED.(healedMissing := e.binaryMissing))
        else
          (MergeGlobal(AfterInstall(s, latest, e), globalHeal.patch),
           ASKED.(installRound := true, roundFetchesBinary := ReachesBinary(e.round), npmInstall := npm))
      else
        var heal := SelfHealStaleBinary(s, latest, e.binary);
        (MergeGlobal(MergeBinary(UpToDate(s, latest, e), heal.patch), globalHeal.patch),
         ASKED.(healedRunnable := heal.downloaded && e.binary.runnable,
                healedMissing := heal.downloaded && !e.binary.runnable,
                npmInstall := npm))
  }

  /** What a round reports, and whether it called the binary's download. */
  datatype RoundResult = RoundResult(pluginUpdated: bool, repointBlocked: bool, binaryTried: bool)

  method Repoint(r: Registry) returns (blocked: bool)
    ensures blocked <==>
      || r.Unreadable?
      || (r.Readable? && ((r.lossy && !r.backedUp) || r.entry.Malformed? || (r.entry.Writable? && !r.written)))
  {
    blocked := false;
    if r.Missing? {
      return;
    }
    if r.Unreadable? {
      return true;
    }
    var installed := true;
    if r.lossy {
      if !r.backedUp {
        installed := false;
        blocked := true;
      }
    }
    if installed && r.entry.Malformed? {
      blocked := true;
    }
    if installed && r.entry.Writable? {
      if !r.written {
        blocked := true;
      }
    }
  }

  method DownloadAndInstall(r: Round) returns (result: RoundResult)
    ensures Installs(r) <==> result.pluginUpdated && !result.repointBlocked
    ensures ReachesBinary(r) <==> result.binaryTried
    ensures result.pluginUpdated <==>
      r.toolsPresent && r.directoryMade && r.published && r.fetched && r.digestMatches
      && r.unpacked && r.versionMatches && r.copied
    ensures result.repointBlocked <==> result.pluginUpdated && Blocks(r.registry)
    ensures result.binaryTried <==>
      r.toolsPresent && r.directoryMade
      && (!r.published || (r.fetched && (!r.digestMatches || (r.unpacked && (!r.versionMatches || r.copied)))))
  {
    var gaveUp := RoundResult(false, false, false);
    if !r.toolsPresent {
      return gaveUp;
    }
    if !r.directoryMade {
      return gaveUp;
    }
    if !r.published {
      return RoundResult(false, false, true);
    }
    if !r.fetched {
      return gaveUp;
    }
    if !r.digestMatches {
      return RoundResult(false, false, true);
    }
    if !r.unpacked {
      return gaveUp;
    }
    var pluginUpdated, repointBlocked := false, false;
    if r.versionMatches {
      if !r.copied {
        return gaveUp;
      }
      pluginUpdated := true;
    }
    if pluginUpdated {
      repointBlocked := Repoint(r.registry);
    }
    return RoundResult(pluginUpdated, repointBlocked, true);
  }

  // ---------- The code's own form: reads and saves of the state file ----------

  class Store {
    var file: State

    constructor ()
      ensures file == FRESH
    {
      file := FRESH;
    }

    method FetchLatestRelease(answer: Fetch) returns (latest: Option<Version>)
      modifies this
      ensures file == old(file).(rateLimited := old(file).rateLimited || answer.Forbidden?)
      ensures latest == if answer.Release? then Some(answer.version) else None
    {
      if answer.Forbidden? {
        file := file.(rateLimited := true);
        return None;
      }
      if answer.Unreachable? {
        return None;
      }
      return Some(answer.version);
    }

    method CheckForUpdate(e: Env) returns (did: Effects)
      modifies this
      ensures (file, did) == Check(old(file), e)
    {
      hide Installs, ReachesBinary, Blocks, IsUpdateSuspended, IsBinaryHealExhausted, SelfHealGlobalPkgs,
          SelfHealStaleBinary;
      did := NOTHING;
      if !e.installMissing && e.optedOut {
        return;
      }
      var state := file;
      if !ShouldCheck(state, e) {
        if state.installedVersion != Some(e.manifestVersion) {
          file := state.(installedVersion := Some(e.manifestVersion));
        }
        if ShouldHealGlobalsOnThrottle(state, e) {
          if e.lockFree {
            var heal := SelfHealGlobalPkgs(state, state.latestVersion.value, e.globals);
            file := MergeGlobal(file, heal.patch);
            did := did.(npmInstall := if heal.installed then state.latestVersion else None);
          }
        }
        return;
      }
      var answer := FetchLatestRelease(e.fetch);
      did := did.(requested := true);
      if answer.None? {
        // Re-read: the request itself may have recorded the rate limit.
        file := file.(installedVersion := Some(e.manifestVersion), lastCheck := Some(e.fetched));
        return;
      }
      var latest := answer.value;
      if !e.lockByParent {
        if !e.lockFree {
          return;
        }
      }
      if latest > e.manifestVersion {
        var sameTarget := state.latestVersion == Some(latest);
        var attempts := if sameTarget then state.updateAttempts else 0;
        var retryDue := sameTarget && state.suspendedAt.Some?
          && e.fetched - state.suspendedAt.value >= SUSPENSION_RETRY;
        if attempts >= MAX_UPDATE_ATTEMPTS && !retryDue {
          did := did.(healedMissing := e.binaryMissing);
          file := state.(
            installedVersion := Some(e.manifestVersion),
            lastCheck := Some(e.finished),
            latestVersion := Some(latest),
            updateAvailable := Some(true),
            updateAttempts := attempts,
            suspendedAt := if sameTarget && state.suspendedAt.Some? then state.suspendedAt else Some(e.finished),
            rateLimited := false);
          return;
        }
        var result := DownloadAndInstall(e.round);
        did := did.(installRound := true, roundFetchesBinary := result.binaryTried);
        var success := result.pluginUpdated && !result.repointBlocked;
        var nextSuspendedAt;
        if success {
          nextSuspendedAt := None;
        } else if retryDue {
          nextSuspendedAt := Some(e.finished);
        } else if !sameTarget {
          nextSuspendedAt := None;
        } else {
          nextSuspendedAt := state.suspendedAt;
        }
        var newState := state.(
          lastCheck := Some(e.finished),
          installedVersion := Some(if success then latest else e.manifestVersion),
          latestVersion := Some(latest),
          updateAvailable := Some(!success),
          updateAttempts := if success then 0 else attempts + 1,
          suspendedAt := nextSuspendedAt,
          rateLimited := false);
        var globalHeal := SelfHealGlobalPkgs(state, latest, e.globals);
        did := did.(npmInstall := if globalHeal.installed then Some(latest) else None);
        file := MergeGlobal(newState, globalHeal.patch);
        return;
      }
      var binaryHeal := SelfHealStaleBinary(state, latest, e.binary);
      var globalHeal := SelfHealGlobalPkgs(state, latest, e.globals);
      did := did.(
        healedRunnable := binaryHeal.downloaded && e.binary.runnable,
        healedMissing := binaryHeal.downloaded && !e.binary.runnable,
        npmInstall := if globalHeal.installed then Some(latest) else None);
      file := state.(
        installedVersion := Some(e.manifestVersion),
        lastCheck := Some(e.finished),
        latestVersion := Some(latest),
        updateAvailable := Some(false),
        updateAttempts := 0,
        suspendedAt := None,
        rateLimited := false);
      file := MergeBinary(file, binaryHeal.patch);
      file := MergeGlobal(file, globalHeal.patch);
    }
  }

  // ---------- Runs ----------

  function StateAt(s: State, es: seq<Env>, i: nat): State
    requires i <= |es|
  {
    if i == 0 then s else Check(StateAt(s, es, i - 1), es[i - 1]).0
  }

  function DidAt(s: State, es: seq<Env>, i: nat): Effects
    requires i < |es|
  {
    Check(StateAt(s, es, i), es[i]).1
  }

  /** Checks run one after another on a clock that never goes back. */
  ghost predicate Timeline(es: seq<Env>) {
    && (forall i :: 0 <= i < |es| ==> es[i].start <= es[i].fetched <= es[i].finished)
    && (forall i, j :: 0 <= i < j < |es| ==> es[i].finished <= es[j].start)
  }

  // ---------- Rate limit ----------

  ghost predicate BackingOff(s: State, since: Time) {
    s.rateLimited && s.lastCheck == Some(since)
  }

  /** Until the hour is over every check, whatever its flags, leaves the back-off alone. */
  lemma BackOffKept(s: State, e: Env, since: Time)
    requires BackingOff(s, since) && !Check(s, e).1.requested
    ensures BackingOff(Check(s, e).0, since)
  {
  }

  lemma {:induction false} BackOffHolds(s: State, es: seq<Env>, i: nat, k: nat)
    requires i < k <= |es|
    requires DidAt(s, es, i).requested && es[i].fetch.Forbidden?
    requires forall m :: i < m < k ==> !DidAt(s, es, m).requested
    ensures BackingOff(StateAt(s, es, k), es[i].fetched)
  {
    if k > i + 1 {
      BackOffHolds(s, es, i, k - 1);
      assert !DidAt(s, es, k - 1).requested;
      BackOffKept(StateAt(s, es, k - 1), es[k - 1], es[i].fetched);
    }
  }

  /** After a 403, no request for one hour, in every run. */
  lemma {:induction false} NoRequestWithinHourOf403(s: State, es: seq<Env>, i: nat, j: nat)
    requires Timeline(es) && i < j < |es|
    requires DidAt(s, es, i).requested && es[i].fetch.Forbidden?
    requires DidAt(s, es, j).requested
    ensures es[j].start >= es[i].fetched + 3_600_000
  {
    var k := i + 1;
    while !DidAt(s, es, k).requested
      invariant i < k <= j
      invariant forall m :: i < m < k ==> !DidAt(s, es, m).requested
      decreases j - k
    {
      k := k + 1;
    }
    BackOffHolds(s, es, i, k);
  }

  // ---------- The throttle's clock ----------

  ghost predicate CheckedSince(s: State, t: Time) {
    s.lastCheck.Some? && s.lastCheck.value >= t
  }

  /** The answer is no release, or the install lock is ours or was free. */
  predicate StampsClock(e: Env) {
    e.fetch.Release? ==> e.lockByParent || e.lockFree
  }

  /** An asking check moves the throttle's clock exactly under that condition; with a
      release in hand and the lock taken it saves nothing at all. */
  lemma AskStampsClock(s: State, e: Env)
    requires Check(s, e).1.requested && e.fetched <= e.finished
    ensures StampsClock(e) ==> CheckedSince(Check(s, e).0, e.fetched)
    ensures !StampsClock(e) ==> Check(s, e).0 == s
  {
  }

  /** What the clock must have reached before a request that nothing forces. */
  function OrdinaryInterval(s: State): Time {
    if s.rateLimited then 3_600_000 else if s.updateAvailable == Some(false) then 1_800_000 else 21_600_000
  }

  ghost predicate BinaryFine(e: Env) {
    !e.binaryMissing && !e.binaryStale
  }

  /** Every check that reads `s` from time `since` on, within `gap` of it, stays silent. */
  ghost predicate Silent(s: State, since: Time, gap: Time, forced: bool) {
    forall e: Env :: BinaryFine(e) && (e.force ==> forced) && since <= e.start < since + gap ==>
      !Check(s, e).1.requested
  }

  /** The two-minute floor under forced checks holds after an asking check if and only
      if that check moved the clock; so does the ordinary interval under unforced ones. */
  lemma SpacedIffStamped(s: State, e: Env)
    requires Check(s, e).1.requested && BinaryFine(e) && e.start <= e.fetched <= e.finished
    ensures StampsClock(e) <==> Silent(Check(s, e).0, e.fetched, 120_000, true)
    ensures !e.force ==>
      (StampsClock(e) <==> Silent(Check(s, e).0, e.fetched, OrdinaryInterval(Check(s, e).0), false))
  {
    var t := Check(s, e).0;
    if StampsClock(e) {
      assert CheckedSince(t, e.fetched);
    } else {
      var again := e.(start := e.fetched);
      assert t == s && Check(t, again).1.requested;
      assert BinaryFine(again) && again.start == e.fetched;
      assert OrdinaryInterval(t) > 0;
    }
  }

  const NO_ARCHIVE := Round(true, true, false, false, false, false, false, false, Missing)

  /** A release is out, the lock is taken, and nothing is wrong with the binary. */
  function LockTaken(now: Time, force: bool): Env {
    Env(now, now, now, false, false, force, 1, false, false, false, false, Release(2), NO_ARCHIVE,
      BinaryProbe(false, true, false), GlobalProbe(false, false, false))
  }

  /** Two forced checks a second apart both ask, as do two unforced ones at one instant. */
  lemma LockTakenNotSpaced()
    ensures forall now, force ::
      LockTaken(now, force) == LockTaken(now, force).(start := now, force := force, installMissing := false,
        optedOut := false, binaryMissing := false, binaryStale := false, lockByParent := false, lockFree := false)
    ensures var s, es := FRESH.(lastCheck := Some(0)), [LockTaken(DAY, true), LockTaken(DAY + SECOND, true)];
      Timeline(es) && DidAt(s, es, 0).requested && DidAt(s, es, 1).requested
    ensures var s, es := FRESH.(lastCheck := Some(0)), [LockTaken(DAY, false), LockTaken(DAY, false)];
      Timeline(es) && DidAt(s, es, 0).requested && DidAt(s, es, 1).requested
  {
  }

  lemma CheckedSinceStep(s: State, e: Env, t: Time)
    requires CheckedSince(s, t) && t <= e.fetched <= e.finished
    ensures CheckedSince(Check(s, e).0, t)
  {
  }

  lemma {:induction false} CheckedSinceKept(s: State, es: seq<Env>, i: nat, k: nat)
    requires Timeline(es) && i < k <= |es|
    requires DidAt(s, es, i).requested && StampsClock(es[i])
    ensures CheckedSince(StateAt(s, es, k), es[i].fetched)
  {
    hide Check, CheckedSince, StampsClock;
    if k > i + 1 {
      CheckedSinceKept(s, es, i, k - 1);
      CheckedSinceStep(StateAt(s, es, k - 1), es[k - 1], es[i].fetched);
    } else {
      AskStampsClock(StateAt(s, es, i), es[i]);
    }
  }

  /** However many checks run in between, a request comes at least two minutes after
      every earlier one that moved the clock, unless the binary is missing or still
      being healed. */
  lemma RequestsSpaced(s: State, es: seq<Env>, i: nat, j: nat)
    requires Timeline(es) && i < j < |es|
    requires DidAt(s, es, i).requested && StampsClock(es[i])
    requires DidAt(s, es, j).requested && !es[j].binaryMissing
    requires es[j].binaryStale ==> IsBinaryHealExhausted(StateAt(s, es, j)) || IsUpdateSuspended(StateAt(s, es, j))
    ensures es[j].start >= es[i].fetched + 120_000
  {
    CheckedSinceKept(s, es, i, j);
  }

  /** Without force, and while suspended even with it, the ordinary interval is kept. */
  lemma OrdinaryRequestsSpaced(s: State, es: seq<Env>, i: nat, j: nat)
    requires Timeline(es) && i < j < |es|
    requires DidAt(s, es, i).requested && StampsClock(es[i])
    requires DidAt(s, es, j).requested && !es[j].binaryMissing
    requires es[j].force ==> IsUpdateSuspended(StateAt(s, es, j))
    requires es[j].binaryStale ==> IsBinaryHealExhausted(StateAt(s, es, j)) || IsUpdateSuspended(StateAt(s, es, j))
    ensures es[j].start >= es[i].fetched + OrdinaryInterval(StateAt(s, es, j))
  {
    CheckedSinceKept(s, es, i, j);
  }

  // ---------- Exactly when a check asks ----------

  /** The binary on disk is stale and its five heals for the release on record are not spent. */
  ghost predicate StaleWithBudget(s: State, e: Env) {
    e.binaryStale && !(s.latestVersion.Some? && s.binaryHealVersion == s.latestVersion && s.binaryHealAttempts >= 5)
  }

  /** A check that is not opted out asks if and only if no check is on record; or a 403 is
      on record and an hour has passed; or none is, and the binary is missing, or its
      ordinary interval (30 minutes after "up to date", else 6 hours) has passed, or the
      record is not suspended and a stale binary has heals left or the check is forced
      and two minutes have passed. */
  lemma AsksIff(s: State, e: Env)
    ensures Check(s, e).1.requested <==>
      && (e.installMissing || !e.optedOut)
      && (s.lastCheck.Some? ==>
           var elapsed := e.start - s.lastCheck.value;
           if s.rateLimited then elapsed >= 3_600_000 else
             || e.binaryMissing
             || elapsed >= (if s.updateAvailable == Some(false) then 1_800_000 else 21_600_000)
             || (!(s.suspendedAt.Some? && s.updateAttempts >= 5)
                 && (StaleWithBudget(s, e) || (e.force && elapsed >= 120_000))))
  {
  }

  /** Without an answer to act on, what a check may change: nothing when opted out; one
      throttled keeps its record up to the installed version and the npm counter; a failed
      request adds its time, and a back-off exactly for a 403. */
  lemma UnansweredRecord(s: State, e: Env)
    ensures !e.installMissing && e.optedOut ==> Check(s, e) == (s, NOTHING)
    ensures (e.installMissing || !e.optedOut) && !Check(s, e).1.requested ==>
      var t := Check(s, e).0;
      && t.installedVersion == Some(e.manifestVersion)
      && t == s.(installedVersion := t.installedVersion,
                 globalPkgHealVersion := t.globalPkgHealVersion, globalPkgHealAttempts := t.globalPkgHealAttempts)
    ensures Check(s, e).1.requested && !e.fetch.Release? ==>
      var t := Check(s, e).0;
      && t.lastCheck == Some(e.fetched) && t.installedVersion == Some(e.manifestVersion)
      && t.rateLimited == (s.rateLimited || e.fetch == Forbidden)
      && t == s.(lastCheck := t.lastCheck, installedVersion := t.installedVersion, rateLimited := t.rateLimited)
  {
  }

  /** The check got the name of a release, and the install lock. */
  ghost predicate Answered(s: State, e: Env) {
    Check(s, e).1.requested && e.fetch.Release? && (e.lockByParent || e.lockFree)
  }

  /** After an answered check the record is true: it names the release, the back-off is
      over, and an update is available exactly when the version now installed is older. */
  lemma AnsweredRecord(s: State, e: Env)
    requires Answered(s, e)
    ensures var t := Check(s, e).0;
      && t.latestVersion == Some(e.fetch.version) && !t.rateLimited && t.lastCheck == Some(e.finished)
      && t.installedVersion.Some? && t.updateAvailable == Some(t.installedVersion.value < e.fetch.version)
      && t.installedVersion.value ==
           if Check(s, e).1.installRound && Installs(e.round) then e.fetch.version else e.manifestVersion
  {
  }

  /** An answered check may run an install round: the release is another than the one on
      record, or fewer than five attempts failed, or the stamp is a day old. */
  ghost predicate BudgetLeft(s: State, e: Env)
    requires e.fetch.Release?
  {
    || s.latestVersion != Some(e.fetch.version)
    || s.updateAttempts < 5
    || (s.suspendedAt.Some? && e.fetched - s.suspendedAt.value >= 86_400_000)
  }

  /** A newer release is installed exactly while there is budget; the count of failed rounds
      goes up by one with each, starts afresh with a new release, and is cleared, with the
      stamp, once the installed version is up to date. */
  lemma RoundIff(s: State, e: Env)
    requires Answered(s, e)
    ensures Check(s, e).1.installRound <==> e.fetch.version > e.manifestVersion && BudgetLeft(s, e)
    ensures var t := Check(s, e).0;
      var known := if s.latestVersion == Some(e.fetch.version) then s.updateAttempts else 0;
      if t.updateAvailable == Some(false) then t.updateAttempts == 0 && t.suspendedAt == None
      else if Check(s, e).1.installRound then
        && t.updateAttempts == known + 1
        && t.suspendedAt ==
             (if s.latestVersion != Some(e.fetch.version) || s.suspendedAt.None? then None
              else if e.fetched - s.suspendedAt.value >= 86_400_000 then Some(e.finished) else s.suspendedAt)
      else t.updateAttempts == known && t.suspendedAt == if s.suspendedAt.Some? then s.suspendedAt else Some(e.finished)
  {
  }

  // ---------- Exactly when a heal is tried ----------

  /** Failed attempts on record for this very release. */
  ghost function Spent(version: Option<Version>, attempts: nat, target: Version): nat {
    if version == Some(target) then attempts else 0
  }

  /** An up-to-date pass downloads the binary exactly when it is stale and, if it runs, fewer
      than five tries for the release failed; only a try over a running binary that leaves
      it stale is counted, and success or a healthy binary clears the count. */
  lemma BinaryHealIff(s: State, e: Env)
    requires Answered(s, e) && e.fetch.version <= e.manifestVersion
    ensures var r, t := e.fetch.version, Check(s, e).0;
      var tries := Spent(s.binaryHealVersion, s.binaryHealAttempts, r);
      var did := Check(s, e).1.healedRunnable || Check(s, e).1.healedMissing;
      && (did <==> e.binary.staleBefore && (!e.binary.runnable || tries < 5))
      && (Check(s, e).1.healedMissing ==> !e.binary.runnable)
      && (Check(s, e).1.healedRunnable ==> e.binary.runnable)
      && Spent(t.binaryHealVersion, t.binaryHealAttempts, r) ==
           (if !e.binary.staleBefore || (did && !e.binary.staleAfter) then 0
            else if did && e.binary.runnable then tries + 1 else tries)
  {
  }

  /** Nothing else touches the two counters: a pass over a newer release leaves the binary's
      alone, and while suspended the packages' too; and where nothing is stale and nothing was
      counted, the version counted for stays. */
  lemma CountersKept(s: State, e: Env)
    requires Answered(s, e)
    ensures var t, newer := Check(s, e).0, e.fetch.version > e.manifestVersion;
      && (newer || (!e.binary.staleBefore && s.binaryHealAttempts == 0) ==>
           t.binaryHealVersion == s.binaryHealVersion && t.binaryHealAttempts == s.binaryHealAttempts)
      && ((newer && !BudgetLeft(s, e)) || (!e.globals.staleBefore && s.globalPkgHealAttempts == 0) ==>
           t.globalPkgHealVersion == s.globalPkgHealVersion && t.globalPkgHealAttempts == s.globalPkgHealAttempts)
  {
  }

  /** An npm install of the target (the release answered with, or on a throttled check the
      one on record) runs exactly when a package is stale and fewer than three tries for it
      failed, unless the updater is suspended; every try that leaves a stale copy counts,
      and success or healthy packages clear the count. */
  lemma NpmInstallIff(s: State, e: Env, target: Version)
    requires
      || (Answered(s, e) && target == e.fetch.version && (target > e.manifestVersion ==> BudgetLeft(s, e)))
      || ((e.installMissing || !e.optedOut) && !Check(s, e).1.requested && !e.lockByParent && e.lockFree
          && s.latestVersion == Some(target) && e.globals.staleBefore)
    ensures var t := Check(s, e).0;
      var tries := Spent(s.globalPkgHealVersion, s.globalPkgHealAttempts, target);
      var did := Check(s, e).1.npmInstall == Some(target);
      && (did <==> e.globals.staleBefore && tries < 3)
      && (!did ==> Check(s, e).1.npmInstall == None)
      && Spent(t.globalPkgHealVersion, t.globalPkgHealAttempts, target) ==
           (if !e.globals.staleBefore || (did && e.globals.npmOk && !e.globals.staleAfter) then 0
            else if did then tries + 1 else tries)
  {
  }

  /** ... and in no other check. */
  lemma NoOtherNpmInstall(s: State, e: Env)
    requires Check(s, e).1.npmInstall.Some?
    ensures e.globals.staleBefore && (e.lockByParent || e.lockFree)
    ensures if Check(s, e).1.requested
      then e.fetch == Release(Check(s, e).1.npmInstall.value)
      else Check(s, e).1.npmInstall == s.latestVersion && !e.lockByParent
  {
  }

  // ---------- A missing binary ----------

  ghost predicate BackOffOver(s: State, e: Env) {
    s.rateLimited && s.lastCheck.Some? ==> e.start - s.lastCheck.value >= 3_600_000
  }

  /** The download of a missing binary is called exactly when no 403 is being waited
      out, a release was named, the lock was got, and no install round broke off
      before reaching it.  No attempt counter and no suspension stands in the way. */
  lemma MissingBinaryFetchedIff(s: State, e: Env)
    requires e.binaryMissing && e.binary.staleBefore && !e.binary.runnable
    ensures Check(s, e).1.healedMissing || Check(s, e).1.roundFetchesBinary <==>
      && (e.installMissing || !e.optedOut)
      && BackOffOver(s, e)
      && e.fetch.Release?
      && (e.lockByParent || e.lockFree)
      && (e.fetch.version > e.manifestVersion && BudgetLeft(s, e) ==> ReachesBinary(e.round))
  {
  }

  // ---------- The install budget ----------

  /** What every reachable record satisfies: a suspension stamp means the budget is spent. */
  ghost predicate Consistent(s: State) {
    s.suspendedAt.Some? ==> s.updateAttempts >= 5
  }

  /** One check whose answer, if any, is `r` and whose install, if any, fails. */
  ghost predicate Stuck(e: Env, r: Version) {
    (e.fetch.Release? ==> e.fetch.version == r) && r > e.manifestVersion && !Installs(e.round)
  }

  lemma RoundStep(s: State, e: Env, r: Version)
    requires Consistent(s) && Stuck(e, r) && Check(s, e).1.installRound
    ensures var t := Check(s, e).0;
      && t.latestVersion == Some(r)
      && t.updateAttempts == Attempts(s, r) + 1
      && (t.suspendedAt.Some? ==> t.suspendedAt.value == e.finished)
  {
    assert s.suspendedAt.Some? && s.latestVersion == Some(r) ==> RetryDue(s, r, e.fetched);
  }

  lemma OtherStep(s: State, e: Env, r: Version)
    requires Stuck(e, r) && !Check(s, e).1.installRound
    ensures var t := Check(s, e).0;
      && (s.latestVersion == Some(r) ==>
           t.latestVersion == Some(r) && t.updateAttempts == s.updateAttempts)
      && (s.latestVersion == Some(r) && s.suspendedAt.Some? ==> t.suspendedAt == s.suspendedAt)
      && (t.suspendedAt.Some? ==> t.suspendedAt == s.suspendedAt || t.suspendedAt.value == e.finished)
  {
  }

  lemma ConsistentKept(s: State, e: Env)
    requires Consistent(s)
    ensures Consistent(Check(s, e).0)
  {
  }

  lemma {:induction false} ReachableConsistent(es: seq<Env>, i: nat)
    requires i <= |es|
    ensures Consistent(StateAt(FRESH, es, i))
  {
    if i > 0 {
      ReachableConsistent(es, i - 1);
      ConsistentKept(StateAt(FRESH, es, i - 1), es[i - 1]);
    }
  }

  /** Every answer names the release `r`, newer than what is installed, and no install works. */
  ghost predicate StuckOn(es: seq<Env>, r: Version) {
    forall i :: 0 <= i < |es| ==> Stuck(es[i], r)
  }

  function Rounds(s: State, es: seq<Env>, i: nat): nat
    requires i <= |es|
  {
    if i == 0 then 0 else
      Rounds(s, es, i - 1) + if DidAt(s, es, i - 1).installRound then 1 else 0
  }

  /** When the latest of the first `i` checks that ran a round ended. */
  function LastRoundEnd(s: State, es: seq<Env>, i: nat): Option<Time>
    requires i <= |es|
  {
    if i == 0 then None
    else if DidAt(s, es, i - 1).installRound then Some(es[i - 1].finished)
    else LastRoundEnd(s, es, i - 1)
  }

  /** The record knows of every round, and a stamp on it is no older than the last one. */
  ghost predicate WithinBudget(t: State, r: Version, rounds: nat, last: Option<Time>) {
    && Consistent(t)
    && (rounds > 0 ==> t.latestVersion == Some(r) && t.updateAttempts >= rounds)
    && (t.suspendedAt.Some? && last.Some? ==> last.value <= t.suspendedAt.value)
  }

  lemma BudgetStep(s: State, e: Env, r: Version, rounds: nat, last: Option<Time>)
    requires WithinBudget(s, r, rounds, last) && Stuck(e, r)
    requires last.Some? ==> last.value <= e.finished
    ensures var did := Check(s, e).1.installRound;
      WithinBudget(Check(s, e).0, r, if did then rounds + 1 else rounds, if did then Some(e.finished) else last)
  {
    hide Check, Stuck;
    ConsistentKept(s, e);
    if Check(s, e).1.installRound {
      RoundStep(s, e, r);
    } else {
      OtherStep(s, e, r);
    }
  }

  lemma {:induction false} LastRoundEndBefore(s: State, es: seq<Env>, i: nat, j: nat)
    requires Timeline(es) && i <= j < |es|
    ensures LastRoundEnd(s, es, i).Some? ==> LastRoundEnd(s, es, i).value <= es[j].finished
  {
    if i > 0 {
      hide DidAt;
      LastRoundEndBefore(s, es, i - 1, j);
    }
  }

  lemma {:induction false} LastRoundEndAfter(s: State, es: seq<Env>, i: nat, k: nat)
    requires Timeline(es) && k < i <= |es| && DidAt(s, es, k).installRound
    ensures LastRoundEnd(s, es, i).Some? && es[k].finished <= LastRoundEnd(s, es, i).value
  {
    hide DidAt;
    if k < i - 1 {
      LastRoundEndAfter(s, es, i - 1, k);
    }
  }

  lemma {:induction false} BudgetInvariant(s: State, es: seq<Env>, r: Version, i: nat)
    requires Consistent(s) && Timeline(es) && StuckOn(es, r) && i <= |es|
    ensures WithinBudget(StateAt(s, es, i), r, Rounds(s, es, i), LastRoundEnd(s, es, i))
  {
    if i > 0 {
      hide Check, WithinBudget, Stuck, Timeline;
      BudgetInvariant(s, es, r, i - 1);
      LastRoundEndBefore(s, es, i - 1, i - 1);
      BudgetStep(StateAt(s, es, i - 1), es[i - 1], r, Rounds(s, es, i - 1), LastRoundEnd(s, es, i - 1));
    }
  }

  /** With the budget spent, a round waits for the stamp to be a day old. */
  lemma RoundWaitsADay(s: State, e: Env, r: Version, rounds: nat, last: Option<Time>)
    requires WithinBudget(s, r, rounds, last) && Stuck(e, r) && Check(s, e).1.installRound
    requires rounds >= MAX_UPDATE_ATTEMPTS && last.Some?
    ensures e.fetched >= last.value + SUSPENSION_RETRY
  {
  }

  lemma OneMoreCounted(n: nat, before: set<nat>, after: set<nat>, hit: bool)
    requires n !in before && forall k :: k in after <==> k in before || (k == n && hit)
    ensures |after| == |before| + if hit then 1 else 0
  {
    if hit {
      assert after == before + {n};
    } else {
      assert after == before;
    }
  }

  lemma {:induction false} RoundsAre(s: State, es: seq<Env>, i: nat)
    requires i <= |es|
    ensures Rounds(s, es, i) == |set k: nat | k < i && DidAt(s, es, k).installRound|
  {
    hide DidAt;
    if i > 0 {
      RoundsAre(s, es, i - 1);
      OneMoreCounted(i - 1, (set k: nat | k < i - 1 && DidAt(s, es, k).installRound),
        (set k: nat | k < i && DidAt(s, es, k).installRound), DidAt(s, es, i - 1).installRound);
    }
  }

  /** At most five rounds, then each further round comes at least a day after every
      earlier one, however often checks run in between. */
  lemma InstallRoundsBudget(s: State, es: seq<Env>, r: Version, j: nat, k: nat)
    requires Consistent(s) && Timeline(es) && StuckOn(es, r) && k < j < |es|
    requires DidAt(s, es, k).installRound && DidAt(s, es, j).installRound
    requires |set m: nat | m < j && DidAt(s, es, m).installRound| >= 5
    ensures es[j].fetched >= es[k].finished + 86_400_000
  {
    RoundsAre(s, es, j);
    hide Check, WithinBudget, Stuck, Timeline, Rounds, LastRoundEnd, StateAt;
    BudgetInvariant(s, es, r, j);
    LastRoundEndAfter(s, es, j, k);
    RoundWaitsADay(StateAt(s, es, j), es[j], r, Rounds(s, es, j), LastRoundEnd(s, es, j));
  }

  /** The last round before `i`. */
  lemma {:induction false} LastRound(s: State, es: seq<Env>, i: nat) returns (k: nat)
    requires i <= |es| && Rounds(s, es, i) > 0
    ensures k < i && DidAt(s, es, k).installRound
    ensures Rounds(s, es, k) == Rounds(s, es, i) - 1
  {
    k := i - 1;
    if !DidAt(s, es, k).installRound {
      k := LastRound(s, es, k);
    }
  }

  /** So a run spanning d whole days holds at most 5 + d rounds. */
  lemma RoundsBoundedByDays(s: State, es: seq<Env>, r: Version, j: nat)
    requires Consistent(s) && Timeline(es) && StuckOn(es, r) && j < |es|
    requires DidAt(s, es, j).installRound
    ensures (|set m: nat | m <= j && DidAt(s, es, m).installRound| - 5) * 86_400_000 <= es[j].fetched - es[0].start
  {
    hide Consistent, StuckOn, Timeline, Rounds, DidAt;
    RoundsByDays(s, es, r, j);
    RoundsAre(s, es, j + 1);
    assert (set m: nat | m <= j && DidAt(s, es, m).installRound)
        == set m: nat | m < j + 1 && DidAt(s, es, m).installRound;
  }

  lemma {:induction false} RoundsByDays(s: State, es: seq<Env>, r: Version, j: nat)
    requires Consistent(s) && Timeline(es) && StuckOn(es, r) && j < |es|
    requires DidAt(s, es, j).installRound
    ensures (Rounds(s, es, j + 1) - 5) * 86_400_000 <= es[j].fetched - es[0].start
    decreases j
  {
    hide Check, Consistent, StuckOn, Timeline, Rounds, StateAt, DidAt;
    RoundCounted(s, es, j);
    StartBefore(es, j);
    if Rounds(s, es, j) >= 5 {
      var k := LastRound(s, es, j);
      RoundCounted(s, es, k);
      RoundsByDays(s, es, r, k);
      RoundsAre(s, es, j);
      InstallRoundsBudget(s, es, r, j, k);
      FetchedBeforeFinished(es, k);
      OneMoreDay(Rounds(s, es, j) - 5, es[k].fetched - es[0].start, es[j].fetched - es[0].start);
    } else {
      NoDays(Rounds(s, es, j + 1) - 5);
    }
  }

  lemma RoundCounted(s: State, es: seq<Env>, j: nat)
    requires j < |es| && DidAt(s, es, j).installRound
    ensures Rounds(s, es, j + 1) == Rounds(s, es, j) + 1
  {
    hide StateAt, DidAt;
  }

  lemma StartBefore(es: seq<Env>, j: nat)
    requires Timeline(es) && j < |es|
    ensures es[0].start <= es[j].fetched
  {
  }

  lemma FetchedBeforeFinished(es: seq<Env>, j: nat)
    requires Timeline(es) && j < |es|
    ensures es[j].fetched <= es[j].finished
  {
  }

  lemma OneMoreDay(days: int, a: Time, b: Time)
    requires days * 86_400_000 <= a && a + 86_400_000 <= b
    ensures (days + 1) * 86_400_000 <= b
  {
  }

  lemma NoDays(days: int)
    requires days <= 0
    ensures days * 86_400_000 <= 0
  {
  }

  // ---------- Suspension: exactly when the retry happens ----------

  lemma {:induction false} StampUnmoved(s: State, es: seq<Env>, r: Version, i: nat, j: nat)
    requires StuckOn(es, r) && i <= j <= |es|
    requires IsUpdateSuspended(StateAt(s, es, i)) && StateAt(s, es, i).latestVersion == Some(r)
    requires forall m :: i <= m < j ==> !DidAt(s, es, m).installRound
    ensures StateAt(s, es, j).suspendedAt == StateAt(s, es, i).suspendedAt
    ensures StateAt(s, es, j).updateAttempts == StateAt(s, es, i).updateAttempts
    ensures StateAt(s, es, j).latestVersion == Some(r)
  {
    if i < j {
      hide Check;
      StampUnmoved(s, es, r, i, j - 1);
      assert !DidAt(s, es, j - 1).installRound;
      OtherStep(StateAt(s, es, j - 1), es[j - 1], r);
    }
  }

  /** Suspended at time t: the next round is the first check that gets an answer and
      the lock a day or more after t.  Check-only passes neither delay nor hasten it. */
  lemma RetryExactlyWhenDue(s: State, es: seq<Env>, r: Version, i: nat, j: nat)
    requires StuckOn(es, r) && i <= j < |es|
    requires IsUpdateSuspended(StateAt(s, es, i)) && StateAt(s, es, i).latestVersion == Some(r)
    requires forall m :: i <= m < j ==> !DidAt(s, es, m).installRound
    requires DidAt(s, es, j).requested && es[j].fetch.Release? && (es[j].lockByParent || es[j].lockFree)
    ensures DidAt(s, es, j).installRound <==>
      es[j].fetched - StateAt(s, es, i).suspendedAt.value >= 86_400_000
  {
    StampUnmoved(s, es, r, i, j);
  }

  // ---------- The two heal budgets ----------

  /** The releases a run names are never older than the record's, nor than one named before. */
  ghost predicate NeverBack(s: State, es: seq<Env>) {
    && (forall i :: 0 <= i < |es| ==> NotOlder(s.latestVersion, es[i]))
    && (forall i, j :: 0 <= i < j < |es| && es[i].fetch.Release? ==> NotOlder(Some(es[i].fetch.version), es[j]))
  }

  ghost predicate NotOlder(known: Option<Version>, e: Env) {
    known.Some? && e.fetch.Release? ==> known.value <= e.fetch.version
  }

  lemma LatestStep(s: State, e: Env)
    ensures Check(s, e).0.latestVersion == s.latestVersion
      || (e.fetch.Release? && Check(s, e).0.latestVersion == Some(e.fetch.version))
  {
  }

  /** So the target on record is never newer than a release still to come. */
  lemma {:induction false} LatestNotOlder(s: State, es: seq<Env>, i: nat, j: nat)
    requires NeverBack(s, es) && i <= j < |es|
    ensures NotOlder(StateAt(s, es, i).latestVersion, es[j])
  {
    if i > 0 {
      hide Check;
      LatestNotOlder(s, es, i - 1, j);
      LatestStep(StateAt(s, es, i - 1), es[i - 1]);
    }
  }

  /** Where a count of attempts at `target` stands against the target on record: nothing
      was tried, or the record has moved on, or the counter knows of every attempt. */
  ghost predicate Accounted(tried: nat, latest: Option<Version>, target: Version, attempts: nat, cap: nat) {
    && tried <= cap
    && (tried > 0 ==> latest.Some? && target <= latest.value && (target == latest.value ==> tried <= attempts))
  }

  // ---------- Downloads over a binary that runs ----------

  function HealAttempts(s: State, r: Version): nat {
    AttemptsFor(s.binaryHealVersion, s.binaryHealAttempts, r)
  }

  /** A download over a runnable binary, for the release the check was answered with. */
  predicate HealsBinary(s: State, e: Env, target: Version) {
    Check(s, e).1.healedRunnable && e.fetch == Release(target)
  }

  ghost predicate BinaryStaysStale(e: Env) {
    e.binary.staleBefore && e.binary.staleAfter
  }

  lemma BinaryHealStep(s: State, e: Env, target: Version, tried: nat)
    requires NotOlder(s.latestVersion, e) && BinaryStaysStale(e)
    requires Accounted(tried, s.latestVersion, target, HealAttempts(s, target), MAX_UPDATE_ATTEMPTS)
    ensures var t := Check(s, e).0;
      var more := if HealsBinary(s, e, target) then tried + 1 else tried;
      Accounted(more, t.latestVersion, target, HealAttempts(t, target), MAX_UPDATE_ATTEMPTS)
  {
  }

  function BinaryHeals(s: State, es: seq<Env>, target: Version, i: nat): nat
    requires i <= |es|
  {
    if i == 0 then 0 else
      BinaryHeals(s, es, target, i - 1) + if HealsBinary(StateAt(s, es, i - 1), es[i - 1], target) then 1 else 0
  }

  ghost predicate BinaryNeverHeals(es: seq<Env>) {
    forall i :: 0 <= i < |es| ==> BinaryStaysStale(es[i])
  }

  lemma {:induction false} BinaryHealsAccounted(s: State, es: seq<Env>, target: Version, i: nat)
    requires NeverBack(s, es) && BinaryNeverHeals(es) && i <= |es|
    ensures Accounted(BinaryHeals(s, es, target, i), StateAt(s, es, i).latestVersion, target,
      HealAttempts(StateAt(s, es, i), target), MAX_UPDATE_ATTEMPTS)
  {
    if i > 0 {
      hide Check, HealAttempts, HealsBinary, NotOlder, BinaryStaysStale, NeverBack, Accounted;
      BinaryHealsAccounted(s, es, target, i - 1);
      LatestNotOlder(s, es, i - 1, i - 1);
      BinaryHealStep(StateAt(s, es, i - 1), es[i - 1], target, BinaryHeals(s, es, target, i - 1));
    }
  }

  /** At most five downloads over a binary that runs, for every release, from any record. */
  lemma BinaryHealBudget(s: State, es: seq<Env>, target: Version)
    requires NeverBack(s, es) && BinaryNeverHeals(es)
    ensures |set k: nat | k < |es| && DidAt(s, es, k).healedRunnable && es[k].fetch == Release(target)| <= 5
  {
    hide DidAt;
    BinaryHealsAccounted(s, es, target, |es|);
    BinaryHealsAre(s, es, target, |es|);
  }

  lemma {:induction false} BinaryHealsAre(s: State, es: seq<Env>, target: Version, i: nat)
    requires i <= |es|
    ensures BinaryHeals(s, es, target, i) ==
      |set k: nat | k < i && DidAt(s, es, k).healedRunnable && es[k].fetch == Release(target)|
  {
    hide DidAt, HealsBinary;
    if i > 0 {
      BinaryHealsAre(s, es, target, i - 1);
      HealsBinaryAt(s, es, target, i - 1);
      OneMoreCounted(i - 1,
        (set k: nat | k < i - 1 && DidAt(s, es, k).healedRunnable && es[k].fetch == Release(target)),
        (set k: nat | k < i && DidAt(s, es, k).healedRunnable && es[k].fetch == Release(target)),
        DidAt(s, es, i - 1).healedRunnable && es[i - 1].fetch == Release(target));
    }
  }

  lemma HealsBinaryAt(s: State, es: seq<Env>, target: Version, i: nat)
    requires i < |es|
    ensures HealsBinary(StateAt(s, es, i), es[i], target) <==>
      DidAt(s, es, i).healedRunnable && es[i].fetch == Release(target)
  {
    hide Check;
  }

  // ---------- npm installs ----------

  function NpmAttempts(s: State, r: Version): nat {
    AttemptsFor(s.globalPkgHealVersion, s.globalPkgHealAttempts, r)
  }

  ghost predicate GlobalsStayStale(e: Env) {
    e.globals.staleBefore && (e.globals.npmOk ==> e.globals.staleAfter)
  }

  lemma GlobalHealStep(s: State, e: Env, target: Version, tried: nat)
    requires NotOlder(s.latestVersion, e) && GlobalsStayStale(e)
    requires Accounted(tried, s.latestVersion, target, NpmAttempts(s, target), GLOBAL_PKG_HEAL_MAX_ATTEMPTS)
    ensures var t := Check(s, e).0;
      var more := if Check(s, e).1.npmInstall == Some(target) then tried + 1 else tried;
      Accounted(more, t.latestVersion, target, NpmAttempts(t, target), GLOBAL_PKG_HEAL_MAX_ATTEMPTS)
  {
  }

  function NpmInstalls(s: State, es: seq<Env>, target: Version, i: nat): nat
    requires i <= |es|
  {
    if i == 0 then 0 else
      NpmInstalls(s, es, target, i - 1) + if DidAt(s, es, i - 1).npmInstall == Some(target) then 1 else 0
  }

  ghost predicate GlobalsNeverHeal(es: seq<Env>) {
    forall i :: 0 <= i < |es| ==> GlobalsStayStale(es[i])
  }

  lemma NpmCounted(s: State, es: seq<Env>, target: Version, i: nat)
    requires 0 < i <= |es|
    requires NotOlder(StateAt(s, es, i - 1).latestVersion, es[i - 1]) && GlobalsStayStale(es[i - 1])
    requires Accounted(NpmInstalls(s, es, target, i - 1), StateAt(s, es, i - 1).latestVersion, target,
      NpmAttempts(StateAt(s, es, i - 1), target), GLOBAL_PKG_HEAL_MAX_ATTEMPTS)
    ensures Accounted(NpmInstalls(s, es, target, i), StateAt(s, es, i).latestVersion, target,
      NpmAttempts(StateAt(s, es, i), target), GLOBAL_PKG_HEAL_MAX_ATTEMPTS)
  {
    hide Check, NpmAttempts, Accounted, NotOlder, GlobalsStayStale;
    GlobalHealStep(StateAt(s, es, i - 1), es[i - 1], target, NpmInstalls(s, es, target, i - 1));
  }

  lemma NoNpmInstalls(s: State, es: seq<Env>, target: Version)
    ensures Accounted(NpmInstalls(s, es, target, 0), StateAt(s, es, 0).latestVersion, target,
      NpmAttempts(StateAt(s, es, 0), target), GLOBAL_PKG_HEAL_MAX_ATTEMPTS)
  {
    hide NpmAttempts;
  }

  lemma GlobalStaysStale(es: seq<Env>, i: nat)
    requires GlobalsNeverHeal(es) && i < |es|
    ensures GlobalsStayStale(es[i])
  {
    hide GlobalsStayStale;
  }

  lemma {:induction false} NpmInstallsAccounted(s: State, es: seq<Env>, target: Version, i: nat)
    requires NeverBack(s, es) && GlobalsNeverHeal(es) && i <= |es|
    ensures Accounted(NpmInstalls(s, es, target, i), StateAt(s, es, i).latestVersion, target,
      NpmAttempts(StateAt(s, es, i), target), GLOBAL_PKG_HEAL_MAX_ATTEMPTS)
  {
    hide *;
    if i == 0 {
      NoNpmInstalls(s, es, target);
    } else {
      NpmInstallsAccounted(s, es, target, i - 1);
      LatestNotOlder(s, es, i - 1, i - 1);
      GlobalStaysStale(es, i - 1);
      NpmCounted(s, es, target, i);
    }
  }

  /** At most three npm installs for every target, one left in the record included. */
  lemma GlobalHealBudget(s: State, es: seq<Env>, target: Version)
    requires NeverBack(s, es) && GlobalsNeverHeal(es)
    ensures |set k: nat | k < |es| && DidAt(s, es, k).npmInstall == Some(target)| <= 3
  {
    hide DidAt;
    NpmInstallsAccounted(s, es, target, |es|);
    NpmInstallsAre(s, es, target, |es|);
  }

  lemma {:induction false} NpmInstallsAre(s: State, es: seq<Env>, target: Version, i: nat)
    requires i <= |es|
    ensures NpmInstalls(s, es, target, i) == |set k: nat | k < i && DidAt(s, es, k).npmInstall == Some(target)|
  {
    hide DidAt;
    if i > 0 {
      NpmInstallsAre(s, es, target, i - 1);
      OneMoreCounted(i - 1, (set k: nat | k < i - 1 && DidAt(s, es, k).npmInstall == Some(target)),
        (set k: nat | k < i && DidAt(s, es, k).npmInstall == Some(target)),
        DidAt(s, es, i - 1).npmInstall == Some(target));
    }
  }
}
