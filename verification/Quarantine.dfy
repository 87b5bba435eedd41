/**
 The launcher's crash quarantine: a pruned list of crash times per profile, saved across launches.
 */
module Quarantine {
  import opened Bytes

  datatype Record = Record(failures: seq<nat>, quarantinedAt: Option<nat>)

  const CLEAN_RECORD := Record([], None)

  /** The saved state, by profile. */
  type Disk = map<string, Record>

  datatype Config = Config(limit: nat, window: nat)

  /** How a launch ends: it fails before the server runs, exits cleanly (or by a planned shutdown),
      or crashes, with the three clock readings the launcher then takes. */
  datatype Outcome = Aborted | Exited | Crashed(pushedAt: nat, prunedAt: nat, markedAt: nat)

  /** `profile` is None for an unsupported build. */
  datatype Launch = Launch(profile: Option<string>, now: nat, clear: bool, outcome: Outcome)

  function Earliest(now: nat, window: nat): nat { if now < window then 0 else now - window }

  predicate Recent(t: nat, now: nat, window: nat) { Earliest(now, window) <= t <= now }

  lemma RecentIs(t: nat, now: nat, window: nat)
    ensures Recent(t, now, window) <==> t <= now <= t + window
  {
  }

  function InWindow(failures: seq<nat>, now: nat, window: nat): seq<nat> {
    if failures == [] then []
    else (if Recent(failures[0], now, window) then [failures[0]] else []) + InWindow(failures[1..], now, window)
  }

  /** Pruning keeps a crash, as often as it is listed, exactly when it is at most `window` seconds old. */
  lemma {:induction false} InWindowKeeps(failures: seq<nat>, now: nat, window: nat, t: nat)
    ensures multiset(InWindow(failures, now, window))[t]
         == if t <= now <= t + window then multiset(failures)[t] else 0
  {
    hide Recent;
    if failures != [] {
      var head, tail := failures[0], failures[1..];
      InWindowKeeps(tail, now, window, t);
      RecentIs(head, now, window);
      assert failures == [head] + tail;
      assert multiset(failures) == multiset([head]) + multiset(tail);
      var first: seq<nat> := if Recent(head, now, window) then [head] else [];
      var rest: seq<nat> := InWindow(tail, now, window);
      assert InWindow(failures, now, window) == first + rest;
      assert multiset(first + rest) == multiset(first) + multiset(rest);
    }
  }

  function Saved(disk: Disk, profile: string): Record {
    if profile in disk then disk[profile] else CLEAN_RECORD
  }

  /** The record a launch starts from. */
  function Opened(disk: Disk, launch: Launch, profile: string, config: Config): Record {
    var record := Saved(disk, profile);
    if launch.clear then CLEAN_RECORD
    else record.(failures := InWindow(record.failures, launch.now, config.window))
  }

  function AfterCrash(record: Record, outcome: Outcome, config: Config): Record
    requires outcome.Crashed?
  {
    var failures := InWindow(record.failures + [outcome.pushedAt], outcome.prunedAt, config.window);
    Record(failures, if |failures| >= config.limit then Some(outcome.markedAt) else record.quarantinedAt)
  }

  /** What is on disk after a launch; a quarantined launch runs vanilla and records nothing. */
  function AfterLaunch(disk: Disk, launch: Launch, config: Config): Disk {
    if launch.profile.None? then disk
    else
      var profile := launch.profile.value;
      var record := Opened(disk, launch, profile, config);
      var begun := if launch.clear then disk[profile := record] else disk;
      if record.quarantinedAt.Some? || launch.outcome.Aborted? then begun
      else if launch.outcome.Exited? then disk[profile := record.(failures := [])]
      else disk[profile := AfterCrash(record, launch.outcome, config)]
  }

  class Launcher {
    const config: Config
    var disk: Disk

    constructor (config: Config)
      ensures this.config == config && disk == map[]
    {
      this.config := config;
      disk := map[];
    }

    method Prune(failures: seq<nat>, now: nat) returns (kept: seq<nat>)
      ensures kept == InWindow(failures, now, config.window)
    {
      kept := [];
      var i := 0;
      assert failures[0..] == failures;
      while i < |failures|
        invariant i <= |failures|
        invariant kept + InWindow(failures[i..], now, config.window) == InWindow(failures, now, config.window)
      {
        assert failures[i..][1..] == failures[i + 1..];
        if Earliest(now, config.window) <= failures[i] && failures[i] <= now {
          kept := kept + [failures[i]];
        }
        i := i + 1;
      }
    }

    method Run(launch: Launch)
      modifies this
      ensures disk == AfterLaunch(old(disk), launch, config)
    {
      if launch.profile.None? {
        return;
      }
      var profile := launch.profile.value;
      var record := Saved(disk, profile);
      var pruned := Prune(record.failures, launch.now);
      record := record.(failures := pruned);
      if launch.clear {
        record := CLEAN_RECORD;
      }
      var quarantine := disk[profile := record];
      if launch.clear {
        disk := quarantine;
      }
      if record.quarantinedAt.Some? || launch.outcome.Aborted? {
        return;
      }
      if launch.outcome.Exited? {
        record := record.(failures := []);
      } else {
        var failures := Prune(record.failures + [launch.outcome.pushedAt], launch.outcome.prunedAt);
        record := record.(failures := failures);
        if |failures| >= config.limit {
          record := record.(quarantinedAt := Some(launch.outcome.markedAt));
        }
      }
      disk := quarantine[profile := record];
    }
  }

  // ---------- One filter of the whole history ----------

  /** A profile's crashes since its last clean exit or clear, never pruned; when the newest of them
      was recorded; and whether it is quarantined. */
  datatype History = History(crashes: seq<nat>, recorded: nat, quarantined: bool)

  const NO_HISTORY := History([], 0, false)

  function Remember(h: History, launch: Launch, profile: string, config: Config): History {
    if launch.profile != Some(profile) then h
    else
      var begun := if launch.clear then NO_HISTORY else h;
      if begun.quarantined || launch.outcome.Aborted? then begun
      else if launch.outcome.Exited? then NO_HISTORY
      else
        var crashes := begun.crashes + [launch.outcome.pushedAt];
        var recorded := launch.outcome.prunedAt;
        History(crashes, recorded, |InWindow(crashes, recorded, config.window)| >= config.limit)
  }

  ghost predicate AllUpTo(times: seq<nat>, t: nat) { forall i | 0 <= i < |times| :: times[i] <= t }

  /** The stored list is one filter of the crash history, and the mark is the history's. */
  ghost predicate Matches(record: Record, h: History, config: Config, clock: nat) {
    && record.failures == InWindow(h.crashes, h.recorded, config.window)
    && AllUpTo(h.crashes, h.recorded) && h.recorded <= clock
    && record.quarantinedAt.Some? == h.quarantined
  }

  lemma {:induction false} InWindowAppends(a: seq<nat>, b: seq<nat>, now: nat, window: nat)
    ensures InWindow(a + b, now, window) == InWindow(a, now, window) + InWindow(b, now, window)
  {
    hide Recent;
    if a == [] {
      assert a + b == b;
    } else {
      var head := if Recent(a[0], now, window) then [a[0]] else [];
      assert (a + b)[1..] == a[1..] + b;
      InWindowAppends(a[1..], b, now, window);
      ConcatAssociates(head, InWindow(a[1..], now, window), InWindow(b, now, window));
    }
  }

  /** Pruning again later is the same as pruning only then. */
  lemma {:induction false} PruneTwice(failures: seq<nat>, before: nat, now: nat, window: nat)
    requires AllUpTo(failures, before) && before <= now
    ensures InWindow(InWindow(failures, before, window), now, window) == InWindow(failures, now, window)
  {
    if failures != [] {
      PruneTwice(failures[1..], before, now, window);
      InWindowAppends(if Recent(failures[0], before, window) then [failures[0]] else [],
                      InWindow(failures[1..], before, window), now, window);
      assert InWindow([failures[0]], now, window) == if Recent(failures[0], now, window) then [failures[0]] else [];
    }
  }

  /** Clock readings never go back, within a launch and from one to the next. */
  predicate Timed(launch: Launch, clock: nat) {
    && clock <= launch.now
    && (launch.outcome.Crashed? ==>
          launch.now <= launch.outcome.pushedAt <= launch.outcome.prunedAt <= launch.outcome.markedAt)
  }

  function EndOf(launch: Launch): nat {
    if launch.outcome.Crashed? then launch.outcome.markedAt else launch.now
  }

  lemma CrashMatches(record: Record, h: History, launch: Launch, config: Config, clock: nat)
    requires Matches(record, h, config, clock) && Timed(launch, clock) && launch.outcome.Crashed?
    requires !h.quarantined
    ensures var begun := record.(failures := InWindow(record.failures, launch.now, config.window));
            var after := AfterCrash(begun, launch.outcome, config);
            var crashes := h.crashes + [launch.outcome.pushedAt];
            && after.failures == InWindow(crashes, launch.outcome.prunedAt, config.window)
            && (after.quarantinedAt.Some? <==>
                  |InWindow(crashes, launch.outcome.prunedAt, config.window)| >= config.limit)
            && AllUpTo(crashes, launch.outcome.prunedAt)
  {
    hide InWindow;
    var Crashed(pushed, pruned, _) := launch.outcome;
    var stored := InWindow(h.crashes, h.recorded, config.window);
    PruneTwice(h.crashes, h.recorded, launch.now, config.window);
    PruneTwice(h.crashes, launch.now, pruned, config.window);
    InWindowAppends(InWindow(stored, launch.now, config.window), [pushed], pruned, config.window);
    InWindowAppends(h.crashes, [pushed], pruned, config.window);
  }

  lemma NothingInWindow(now: nat, window: nat)
    ensures InWindow([], now, window) == []
  {
  }

  /** Each launch keeps every profile's record and history in step. */
  lemma LaunchKeepsMatch(disk: Disk, h: History, launch: Launch, profile: string, config: Config, clock: nat)
    requires Matches(Saved(disk, profile), h, config, clock) && Timed(launch, clock)
    ensures Matches(Saved(AfterLaunch(disk, launch, config), profile), Remember(h, launch, profile, config),
                    config, EndOf(launch))
  {
    hide InWindow;
    if launch.profile == Some(profile) {
      NothingInWindow(0, config.window);
      NothingInWindow(launch.now, config.window);
      var record, begun := Saved(disk, profile), if launch.clear then NO_HISTORY else h;
      if !begun.quarantined && launch.outcome.Crashed? {
        CrashMatches(if launch.clear then CLEAN_RECORD else record, begun, launch, config, clock);
      }
    }
  }

  ghost predicate Schedule(launches: seq<Launch>, clock: nat)
    decreases |launches|
  {
    launches == [] || (Timed(launches[0], clock) && Schedule(launches[1..], EndOf(launches[0])))
  }

  function RunAll(disk: Disk, launches: seq<Launch>, config: Config): Disk
    decreases |launches|
  {
    if launches == [] then disk else RunAll(AfterLaunch(disk, launches[0], config), launches[1..], config)
  }

  function RememberAll(h: History, launches: seq<Launch>, profile: string, config: Config): History
    decreases |launches|
  {
    if launches == [] then h
    else RememberAll(Remember(h, launches[0], profile, config), launches[1..], profile, config)
  }

  /** The clock after a run. */
  function ClockAfter(launches: seq<Launch>, clock: nat): nat
    decreases |launches|
  {
    if launches == [] then clock else ClockAfter(launches[1..], EndOf(launches[0]))
  }

  lemma {:induction false} ScheduleEnds(launches: seq<Launch>, launch: Launch, clock: nat)
    requires Schedule(launches + [launch], clock)
    ensures Schedule(launches, clock) && Timed(launch, ClockAfter(launches, clock))
    decreases |launches|
  {
    if launches != [] {
      assert (launches + [launch])[1..] == launches[1..] + [launch];
      ScheduleEnds(launches[1..], launch, EndOf(launches[0]));
    }
  }

  lemma {:induction false} RunKeepsMatch(disk: Disk, h: History, launches: seq<Launch>, profile: string,
                                         config: Config, clock: nat)
    requires Matches(Saved(disk, profile), h, config, clock) && Schedule(launches, clock)
    ensures Matches(Saved(RunAll(disk, launches, config), profile),
                    RememberAll(h, launches, profile, config), config, ClockAfter(launches, clock))
    decreases |launches|
  {
    hide Matches, AfterLaunch, Remember, Timed;
    if launches != [] {
      LaunchKeepsMatch(disk, h, launches[0], profile, config, clock);
      RunKeepsMatch(AfterLaunch(disk, launches[0], config), Remember(h, launches[0], profile, config),
                    launches[1..], profile, config, EndOf(launches[0]));
    }
  }

  /** Over every launch history from a clean state, for every profile: the stored list equals one
      filter of the crashes since the last clean exit or clear, at the last recorded crash. */
  lemma StoredIsOneFilter(launches: seq<Launch>, profile: string, config: Config)
    requires Schedule(launches, 0)
    ensures var record := Saved(RunAll(map[], launches, config), profile);
            var h := RememberAll(NO_HISTORY, launches, profile, config);
            && record.failures == InWindow(h.crashes, h.recorded, config.window)
            && record.quarantinedAt.Some? == h.quarantined
  {
    StartMatches(profile, config);
    RunKeepsMatch(map[], NO_HISTORY, launches, profile, config, 0);
  }

  lemma StartMatches(profile: string, config: Config)
    ensures Matches(Saved(map[], profile), NO_HISTORY, config, 0)
  {
    NothingInWindow(0, config.window);
  }

  /** One launch of an unquarantined profile saves the mark exactly when it crashes and at least
      `limit` crashes of its history, this one included, are in the window. */
  lemma EnteredExactly(disk: Disk, h: History, launch: Launch, profile: string, config: Config, clock: nat)
    requires Matches(Saved(disk, profile), h, config, clock) && Timed(launch, clock)
    requires Saved(disk, profile).quarantinedAt.None?
    ensures Saved(AfterLaunch(disk, launch, config), profile).quarantinedAt.Some? <==>
            && launch.profile == Some(profile) && launch.outcome.Crashed?
            && |InWindow((if launch.clear then [] else h.crashes) + [launch.outcome.pushedAt],
                         launch.outcome.prunedAt, config.window)| >= config.limit
    ensures var mark := Saved(AfterLaunch(disk, launch, config), profile).quarantinedAt;
            mark.Some? ==> launch.outcome.Crashed? && mark == Some(launch.outcome.markedAt)
  {
    hide Matches, AfterLaunch, InWindow;
    MarkIsTimed(disk, launch, profile, config);
    LaunchKeepsMatch(disk, h, launch, profile, config, clock);
    MarksAgree(Saved(disk, profile), h, config, clock);
    MarksAgree(Saved(AfterLaunch(disk, launch, config), profile), Remember(h, launch, profile, config),
               config, EndOf(launch));
  }

  lemma MarkIsTimed(disk: Disk, launch: Launch, profile: string, config: Config)
    requires Saved(disk, profile).quarantinedAt.None?
    ensures var mark := Saved(AfterLaunch(disk, launch, config), profile).quarantinedAt;
            mark.Some? ==> launch.outcome.Crashed? && mark == Some(launch.outcome.markedAt)
  {
    hide InWindow;
  }

  lemma MarksAgree(record: Record, h: History, config: Config, clock: nat)
    requires Matches(record, h, config, clock)
    ensures record.quarantinedAt.Some? == h.quarantined
  {
  }

  /** A saved mark survives every launch without a clear, and with it the whole record. */
  lemma {:induction false} StaysUntilCleared(disk: Disk, launches: seq<Launch>, profile: string, config: Config)
    requires Saved(disk, profile).quarantinedAt.Some?
    requires forall i | 0 <= i < |launches| :: launches[i].profile == Some(profile) ==> !launches[i].clear
    ensures Saved(RunAll(disk, launches, config), profile) == Saved(disk, profile)
    decreases |launches|
  {
    hide InWindow;
    if launches != [] {
      var after := AfterLaunch(disk, launches[0], config);
      assert Saved(after, profile) == Saved(disk, profile);
      StaysUntilCleared(after, launches[1..], profile, config);
    }
  }

  /** A clear lifts it, unless that very launch crashes into it again. */
  lemma ClearLifts(disk: Disk, launch: Launch, profile: string, config: Config)
    requires launch.profile == Some(profile) && launch.clear
    ensures Saved(AfterLaunch(disk, launch, config), profile).quarantinedAt.Some? <==>
            && launch.outcome.Crashed?
            && |InWindow([launch.outcome.pushedAt], launch.outcome.prunedAt, config.window)| >= config.limit
  {
    assert launch.outcome.Crashed? ==> [] + [launch.outcome.pushedAt] == [launch.outcome.pushedAt];
  }

  /** The same over whole histories from a clean state: after any run, the next launch of a profile
      that is not quarantined saves the mark exactly when it crashes and leaves at least `limit` of
      the crashes since the last clean exit or clear in the window. */
  lemma EnteredInEveryHistory(launches: seq<Launch>, launch: Launch, profile: string, config: Config)
    requires Schedule(launches + [launch], 0)
    requires Saved(RunAll(map[], launches, config), profile).quarantinedAt.None?
    ensures var disk := RunAll(map[], launches, config);
            var h := RememberAll(NO_HISTORY, launches, profile, config);
            Saved(AfterLaunch(disk, launch, config), profile).quarantinedAt.Some? <==>
            && launch.profile == Some(profile) && launch.outcome.Crashed?
            && |InWindow((if launch.clear then [] else h.crashes) + [launch.outcome.pushedAt],
                         launch.outcome.prunedAt, config.window)| >= config.limit
  {
    hide Matches, AfterLaunch, InWindow, Saved, Remember;
    ScheduleEnds(launches, launch, 0);
    StartMatches(profile, config);
    RunKeepsMatch(map[], NO_HISTORY, launches, profile, config, 0);
    EnteredExactly(RunAll(map[], launches, config), RememberAll(NO_HISTORY, launches, profile, config),
                   launch, profile, config, ClockAfter(launches, 0));
  }
}
