/** Every interleaving of the loader with the configuration object above it
    (config/default.go:90-116, 175-196, 250-270). */
module ConfigRuns {
  import opened Common
  import opened Reading
  import opened LoaderRuns
  import opened LoaderClock
  import opened ConfigLayer
  import LoaderTheorems

  /** Who replaced the configuration's snapshot. */
  datatype Origin = ByRun | ByLoad | BySyncCall

  /** A replacement: its version and, if a Sync made it, how many replacements and how many
      installations in the loader had happened when its snapshot was read. */
  datatype Change = Change(origin: Origin, version: int, readAt: nat, installs: nat)

  /** A `Sync` that holds a loader snapshot but not yet the lock. */
  datatype Taken = Taken(snap: Snapshot, readAt: nat, installs: nat, done: bool)

  /** `loading` is the snapshot a `Load` read while holding the lock, until it installs it. */
  datatype State = State(
    loader: System,
    conf: Conf,
    loading: Option<Snapshot>,
    taken: seq<Taken>,
    log: seq<Change>)

  datatype Act =
    | Inner(a: Action)
    | RunStep(id: nat, i: nat)
    | LoadTake
    | LoadInstall
    | SyncTake
    | SyncInstall(k: nat)

  function Begin(sources: seq<string>): State {
    State(Start(sources), Conf(None, None), None, [], [])
  }

  function Next(r: Reader, s: State, act: Act): State {
    match act
    case Inner(a) => s.(loader := Step(r, s.loader, a))
    case RunStep(id, i) =>
      // `run` handles any snapshot a root watcher delivered, once it gets the lock.
      if s.loading.Some? || id >= |s.loader.entries| || i >= |s.loader.entries[id].delivered| then s else
      var snap := s.loader.entries[id].delivered[i];
      var conf := RunInstall(r, s.conf, snap);
      if conf == s.conf then s
      else s.(conf := conf, log := s.log + [Change(ByRun, snap.version, |s.log|, |s.loader.history|)])
    case LoadTake =>
      if s.loading.Some? || s.loader.core.snap.None? then s else s.(loading := s.loader.core.snap)
    case LoadInstall =>
      if s.loading.None? then s else
      s.(loading := None, conf := Replace(r, s.conf, s.loading.value),
         log := s.log + [Change(ByLoad, s.loading.value.version, |s.log|, |s.loader.history|)])
    case SyncTake =>
      if s.loader.core.snap.None? then s else
      s.(taken := s.taken + [Taken(s.loader.core.snap.value, |s.log|, |s.loader.history|, false)])
    case SyncInstall(k) =>
      if s.loading.Some? || k >= |s.taken| || s.taken[k].done then s else
      var t := s.taken[k];
      s.(taken := s.taken[k := t.(done := true)], conf := Replace(r, s.conf, t.snap),
         log := s.log + [Change(BySyncCall, t.snap.version, t.readAt, t.installs)])
  }

  function Exec(r: Reader, s: State, acts: seq<Act>): State {
    if acts == [] then s else Next(r, Exec(r, s, acts[..|acts| - 1]), Last(acts))
  }

  /** The loader's part of a run. */
  function Inners(acts: seq<Act>): seq<Action> {
    if acts == [] then [] else
    Inners(acts[..|acts| - 1]) + if Last(acts).Inner? then [Last(acts).a] else []
  }

  lemma {:induction false} LoaderPart(r: Reader, sources: seq<string>, acts: seq<Act>)
    ensures Exec(r, Begin(sources), acts).loader == Run(r, Start(sources), Inners(acts))
  {
    if acts != [] {
      LoaderPart(r, sources, acts[..|acts| - 1]);
      if Last(acts).Inner? {
        var before := Inners(acts[..|acts| - 1]);
        assert (before + [Last(acts).a])[..|before|] == before;
        assert Inners(acts) == before + [Last(acts).a];
      } else {
        assert Inners(acts) == Inners(acts[..|acts| - 1]);
      }
    }
  }

  // ----- The invariant -----

  ghost predicate AtMost(s: Option<Snapshot>, limit: Option<Snapshot>) {
    s.Some? ==> limit.Some? && s.value.version <= limit.value.version
  }

  /** A replacement by `run` is newer than what it replaces, one by `Load` is not older; one
      by `Sync` is not older unless something was installed after it read its snapshot. */
  ghost predicate Orderly(log: seq<Change>) {
    forall i :: 0 < i < |log| ==> Follows(log[i], log[i - 1].version, i)
  }

  ghost predicate Follows(c: Change, previous: int, at: nat) {
    match c.origin
    case ByRun => c.version > previous
    case ByLoad => c.version >= previous
    case BySyncCall => c.readAt == at ==> c.version >= previous
  }

  /** The values are those of the snapshot whenever it has any. */
  ghost predicate Parsed(r: Reader, c: Conf) {
    c.snap.Some? && r.values(c.snap.value.changeSet).Some? ==> c.vals == r.values(c.snap.value.changeSet)
  }

  ghost predicate Inv(r: Reader, s: State) {
    && AtMost(s.conf.snap, s.loader.core.snap)
    && AtMost(s.loading, s.loader.core.snap)
    && (s.loading.Some? ==> AtMost(s.conf.snap, s.loading))
    && (forall t :: t in s.taken ==>
          && AtMost(Some(t.snap), s.loader.core.snap)
          && t.readAt <= |s.log|
          && (t.readAt == |s.log| ==> AtMost(s.conf.snap, Some(t.snap))))
    && (s.conf.snap.Some? <==> s.log != [])
    && (s.log != [] ==> s.conf.snap.value.version == Last(s.log).version)
    && Orderly(s.log)
    && Parsed(r, s.conf)
  }

  lemma {:induction false} NextKeeps(r: Reader, s: State, act: Act)
    requires Inv(r, s) && !act.Inner?
    requires forall e :: e in s.loader.entries ==> forall d :: d in e.delivered ==> AtMost(Some(d), s.loader.core.snap)
    ensures Inv(r, Next(r, s, act))
  {
    var s' := Next(r, s, act);
    match act
    case RunStep(id, i) =>
      if s' != s {
        var e := s.loader.entries[id];
        assert e.delivered[i] in e.delivered;
      }
    case LoadTake =>
    case LoadInstall =>
    case SyncTake =>
    case SyncInstall(k) =>
      if s' != s {
        assert s.taken[k] in s.taken;
      }
  }

  /** Every item a watcher delivered is at most as new as the loader's snapshot. */
  lemma DeliveredAreOld(r: Reader, sources: seq<string>, actions: seq<Action>, e: Entry, d: Snapshot)
    requires NonDecreasing(Clocks(actions))
    requires var s := Run(r, Start(sources), actions); e in s.entries && d in e.delivered
    ensures AtMost(Some(d), Run(r, Start(sources), actions).core.snap)
  {
    var s := Run(r, Start(sources), actions);
    var i :| 0 <= i < |e.delivered| && e.delivered[i] == d;
    HistoryFollowsClock(r, sources, actions);
    LoaderTheorems.WatcherSeesInstalledSnapshots(r, sources, actions, s, e);
    assert LoaderTheorems.WasInstalled(r, s.history, e.w.path, e.delivered[i]);
    var k :| 0 <= k < |s.history| && LoaderTheorems.IsValueAt(r, s.history[k], e.w.path, d);
    assert s.history[k] in s.history;
  }

  lemma LoaderSnapGrows(r: Reader, sources: seq<string>, actions: seq<Action>, a: Action)
    requires NonDecreasing(Clocks(actions + [a]))
    ensures var s := Run(r, Start(sources), actions);
            AtMost(s.core.snap, Step(r, s, a).core.snap)
  {
    var s := Run(r, Start(sources), actions);
    var s' := Step(r, s, a);
    assert (actions + [a])[..|actions|] == actions;
    RunInv(r, sources, actions);
    HistoryFollowsClock(r, sources, actions + [a]);
    StepHistory(r, s, a);
    RunInv(r, sources, actions + [a]);
    if s.core.snap.Some? {
      assert s.history != [] && Last(s.history).snap == s.core.snap.value;
      assert s'.history[|s.history| - 1] == Last(s.history);
      assert Last(s.history) in s'.history;
    }
  }

  lemma {:induction false} ExecInv(r: Reader, sources: seq<string>, acts: seq<Act>)
    requires NonDecreasing(Clocks(Inners(acts)))
    ensures Inv(r, Exec(r, Begin(sources), acts))
  {
    if acts != [] {
      var before := acts[..|acts| - 1];
      var s := Exec(r, Begin(sources), before);
      LoaderPart(r, sources, before);
      if Last(acts).Inner? {
        var a := Last(acts).a;
        assert Inners(acts) == Inners(before) + [a];
        assert (Inners(before) + [a])[..|Inners(before)|] == Inners(before);
        ClocksGrow(Inners(before) + [a]);
        PrefixOrdered(Clocks(Inners(before)), Clocks([a]));
        ExecInv(r, sources, before);
        LoaderSnapGrows(r, sources, Inners(before), a);
      } else {
        assert Inners(acts) == Inners(before);
        ExecInv(r, sources, before);
        forall e, d | e in s.loader.entries && d in e.delivered ensures AtMost(Some(d), s.loader.core.snap) {
          DeliveredAreOld(r, sources, Inners(before), e, d);
        }
        NextKeeps(r, s, Last(acts));
      }
    }
  }

  // ----- Theorems -----

  /** With a non-decreasing clock, in every run: the configuration's version strictly grows
      when `run` replaces the snapshot and does not drop when `Load` does; a `Sync` can lower
      it only when another replacement came between its read of the loader and its lock. The
      values are always those of the snapshot, or the snapshot has none. */
  lemma VersionsOnlyDropOnOvertakenSync(r: Reader, sources: seq<string>, acts: seq<Act>)
    requires NonDecreasing(Clocks(Inners(acts)))
    ensures var s := Exec(r, Begin(sources), acts);
            && (forall i :: 0 < i < |s.log| && s.log[i].origin == ByRun ==> s.log[i].version > s.log[i - 1].version)
            && (forall i :: 0 < i < |s.log| && s.log[i].origin == ByLoad ==> s.log[i].version >= s.log[i - 1].version)
            && (forall i :: 0 < i < |s.log| && s.log[i].version < s.log[i - 1].version ==>
                  s.log[i].origin == BySyncCall && s.log[i].readAt < i)
            && (s.log != [] ==> s.conf.snap.Some? && s.conf.snap.value.version == Last(s.log).version)
            && Parsed(r, s.conf)
  {
    ExecInv(r, sources, acts);
    ReadAtBounded(r, sources, acts);
  }

  ghost predicate ReadInPast(s: State) {
    && (forall i :: 0 <= i < |s.log| ==> s.log[i].readAt <= i)
    && (forall k :: 0 <= k < |s.taken| ==> s.taken[k].readAt <= |s.log|)
  }

  lemma NextReadsInPast(r: Reader, s: State, act: Act)
    requires ReadInPast(s)
    ensures ReadInPast(Next(r, s, act))
  {
    var s' := Next(r, s, act);
    if s'.log != s.log {
      assert s'.log == s.log + [Last(s'.log)];
      assert Last(s'.log).readAt <= |s.log|;
    }
  }

  lemma {:induction false} ReadAtBounded(r: Reader, sources: seq<string>, acts: seq<Act>)
    ensures ReadInPast(Exec(r, Begin(sources), acts))
  {
    if acts != [] {
      ReadAtBounded(r, sources, acts[..|acts| - 1]);
      NextReadsInPast(r, Exec(r, Begin(sources), acts[..|acts| - 1]), Last(acts));
    }
  }

  /** Without `Sync` the versions never drop at all. */
  lemma {:induction false} NoSyncNoDrop(r: Reader, sources: seq<string>, acts: seq<Act>)
    requires NonDecreasing(Clocks(Inners(acts)))
    requires forall a :: a in acts ==> !a.SyncInstall?
    ensures var s := Exec(r, Begin(sources), acts);
            && (forall c :: c in s.log ==> c.origin != BySyncCall)
            && forall i :: 0 < i < |s.log| ==> s.log[i - 1].version <= s.log[i].version
  {
    OriginsWithoutSync(r, sources, acts);
    VersionsOnlyDropOnOvertakenSync(r, sources, acts);
    var s := Exec(r, Begin(sources), acts);
    forall i | 0 < i < |s.log| ensures s.log[i - 1].version <= s.log[i].version {
      assert s.log[i] in s.log;
    }
  }

  lemma {:induction false} OriginsWithoutSync(r: Reader, sources: seq<string>, acts: seq<Act>)
    requires forall a :: a in acts ==> !a.SyncInstall?
    ensures forall c :: c in Exec(r, Begin(sources), acts).log ==> c.origin != BySyncCall
  {
    if acts != [] {
      assert Last(acts) in acts;
      OriginsWithoutSync(r, sources, acts[..|acts| - 1]);
    }
  }

  // ----- Exactly when the version drops -----

  ghost predicate InHistory(s: State, version: int) {
    exists k :: 0 <= k < |s.loader.history| && s.loader.history[k].snap.version == version
  }

  ghost predicate ReadFrom(s: State, version: int, installs: nat) {
    0 < installs <= |s.loader.history| && s.loader.history[installs - 1].snap.version == version
  }

  /** Every replacement goes back to an installation in the loader, a Sync's to the last one
      before its read. */
  ghost predicate TraceInv(s: State) {
    && (forall c :: c in s.log ==>
          InHistory(s, c.version) && (c.origin.BySyncCall? ==> ReadFrom(s, c.version, c.installs)))
    && (forall t :: t in s.taken ==> ReadFrom(s, t.snap.version, t.installs))
    && (s.loading.Some? ==> InHistory(s, s.loading.value.version))
  }

  lemma DeliveredInHistory(r: Reader, s: State, id: nat, i: nat)
    requires LoaderRuns.Inv(r, s.loader) && id < |s.loader.entries| && i < |s.loader.entries[id].delivered|
    ensures InHistory(s, s.loader.entries[id].delivered[i].version)
  {
    var e := s.loader.entries[id];
    assert e in s.loader.entries;
    LoaderTheorems.DeliveryInstalled(r, s.loader, e, i);
    var k :| 0 <= k < |s.loader.history| && LoaderTheorems.IsValueAt(r, s.loader.history[k], e.w.path, e.delivered[i]);
    assert s.loader.history[k].snap.version == e.delivered[i].version;
  }

  lemma NextTraces(r: Reader, s: State, act: Act)
    requires TraceInv(s) && LoaderRuns.Inv(r, s.loader)
    ensures TraceInv(Next(r, s, act))
  {
    var s' := Next(r, s, act);
    match act
    case Inner(a) =>
      HistoryStep(r, s.loader, a);
    case RunStep(id, i) =>
      if s' != s {
        DeliveredInHistory(r, s, id, i);
      }
    case LoadTake =>
    case LoadInstall =>
    case SyncTake =>
    case SyncInstall(k) =>
      if s' != s {
        var t := s.taken[k];
        assert t in s.taken;
        assert s.loader.history[t.installs - 1].snap.version == t.snap.version;
      }
  }

  lemma {:induction false} ExecTraces(r: Reader, sources: seq<string>, acts: seq<Act>)
    ensures TraceInv(Exec(r, Begin(sources), acts))
  {
    if acts != [] {
      var before := acts[..|acts| - 1];
      ExecTraces(r, sources, before);
      LoaderPart(r, sources, before);
      RunInv(r, sources, Inners(before));
      NextTraces(r, Exec(r, Begin(sources), before), Last(acts));
    }
  }

  /** Installation `k` of the loader made a snapshot with the version that replacement `i`
      replaced. */
  ghost predicate Behind(s: State, i: nat, k: nat) {
    0 < i < |s.log| && k < |s.loader.history| && s.loader.history[k].snap.version == s.log[i - 1].version
  }

  /** Replacement `i` is that of a `Sync` which had read before the loader made any of the
      installations behind the snapshot that it replaced. */
  ghost predicate Overtaken(s: State, i: nat) {
    && 0 < i < |s.log| && s.log[i].origin.BySyncCall?
    && forall k: nat :: Behind(s, i, k) ==> s.log[i].installs <= k
  }

  /** With a non-decreasing clock: every replacement stems from an installation in the loader, and
      the version drops exactly when `Sync` replaced the snapshot with one it had read before the
      loader made the installation, or all installations of that version, behind the snapshot it
      replaced. */
  lemma {:induction false} VersionDropsIff(r: Reader, sources: seq<string>, acts: seq<Act>)
    requires NonDecreasing(Clocks(Inners(acts)))
    ensures var s := Exec(r, Begin(sources), acts);
            && (forall i :: 0 <= i < |s.log| ==> InHistory(s, s.log[i].version))
            && (forall i :: 0 < i < |s.log| ==> (s.log[i].version < s.log[i - 1].version <==> Overtaken(s, i)))
  {
    var s := Exec(r, Begin(sources), acts);
    ExecTraces(r, sources, acts);
    LoaderPart(r, sources, acts);
    HistoryFollowsClock(r, sources, Inners(acts));
    VersionsOnlyDropOnOvertakenSync(r, sources, acts);
    forall i | 0 <= i < |s.log| ensures InHistory(s, s.log[i].version) {
      assert s.log[i] in s.log;
    }
    forall i | 0 < i < |s.log| ensures s.log[i].version < s.log[i - 1].version <==> Overtaken(s, i) {
      assert s.log[i] in s.log && s.log[i - 1] in s.log;
      if s.log[i].origin.BySyncCall? {
        OvertakenIff(s, i);
      }
    }
  }

  lemma OvertakenIff(s: State, i: nat)
    requires 0 < i < |s.log| && s.log[i].origin.BySyncCall? && NonDecreasing(Versions(s.loader.history))
    requires ReadFrom(s, s.log[i].version, s.log[i].installs) && InHistory(s, s.log[i - 1].version)
    ensures s.log[i].version < s.log[i - 1].version <==> Overtaken(s, i)
  {
    var j := s.log[i].installs - 1;
    if s.log[i].version < s.log[i - 1].version {
      forall k: nat | Behind(s, i, k) ensures j < k {
        InstallOrder(s, k, j);
      }
    } else {
      var k :| 0 <= k < |s.loader.history| && s.loader.history[k].snap.version == s.log[i - 1].version;
      assert Behind(s, i, k);
      if s.log[i].version == s.log[i - 1].version {
        assert Behind(s, i, j);
      } else {
        InstallOrder(s, j, k);
      }
    }
  }

  lemma InstallOrder(s: State, j: nat, k: nat)
    requires NonDecreasing(Versions(s.loader.history)) && j < |s.loader.history| && k < |s.loader.history|
    ensures j <= k ==> s.loader.history[j].snap.version <= s.loader.history[k].snap.version
  {
    assert Versions(s.loader.history)[j] == s.loader.history[j].snap.version;
    assert Versions(s.loader.history)[k] == s.loader.history[k].snap.version;
  }
}
