/** What users of the configuration object see (config/default.go:272-314), and runs in which
    they are told less than they might expect, or Sync takes the configuration back in time
    (config/default.go:175-196). */
module ConfigTheorems {
  import opened Common
  import opened Reading
  import opened LoaderCore
  import opened LoaderRuns
  import opened LoaderObserver
  import opened LoaderRounds
  import opened ConfigLayer
  import LoaderTheorems
  import W = LoaderWitnesses
  import R = ConfigRuns

  // ----- The filter law -----

  /** In every run of the loader: a user watcher answers with exactly the delivered items whose
      bytes differ from its registration value, each of them the value at its path in an
      installed snapshot, in increasing version order. */
  lemma UserSeesFilteredDeliveries(r: Reader, sources: seq<SourceId>, actions: seq<Action>,
                                   s: System, e: Entry, baseline: string)
    requires s == Run(r, Start(sources), actions) && e in s.entries
    ensures var passing := Passing(baseline, e.delivered);
            && (forall d :: d in passing <==> d in e.delivered && d.changeSet.data != baseline)
            && (forall i, j :: 0 <= i < j < |passing| ==> passing[i].version < passing[j].version)
            && (forall i :: 0 <= i < |passing| ==> LoaderTheorems.WasInstalled(r, s.history, e.w.path, passing[i]))
  {
    LoaderTheorems.WatcherSeesInstalledSnapshots(r, sources, actions, s, e);
    PassingMembers(baseline, e.delivered);
    PassingAscends(baseline, e.delivered);
    var passing := Passing(baseline, e.delivered);
    forall i | 0 <= i < |passing| ensures LoaderTheorems.WasInstalled(r, s.history, e.w.path, passing[i]) {
      assert passing[i] in e.delivered;
      var k :| 0 <= k < |e.delivered| && e.delivered[k] == passing[i];
    }
  }

  lemma {:induction false} PassingMembers(baseline: string, delivered: seq<Snapshot>)
    ensures forall d :: d in Passing(baseline, delivered) <==> d in delivered && d.changeSet.data != baseline
  {
    if delivered != [] {
      var before := delivered[..|delivered| - 1];
      PassingMembers(baseline, before);
      assert delivered == before + [Last(delivered)];
    }
  }

  lemma {:induction false} PassingAscends(baseline: string, delivered: seq<Snapshot>)
    requires forall i, j :: 0 <= i < j < |delivered| ==> delivered[i].version < delivered[j].version
    ensures var passing := Passing(baseline, delivered);
            forall i, j :: 0 <= i < j < |passing| ==> passing[i].version < passing[j].version
  {
    if delivered != [] {
      var before := delivered[..|delivered| - 1];
      PassingAscends(baseline, before);
      PassingMembers(baseline, before);
      forall p | p in Passing(baseline, before) ensures p.version < Last(delivered).version {
        var k :| 0 <= k < |before| && before[k] == p;
        assert delivered[k] == p;
      }
    }
  }

  /** The baseline never advances, so the last answer is the last delivered value exactly when
      that value is not the one at registration. */
  lemma LastAnswerIsCurrentIff(baseline: string, delivered: seq<Snapshot>)
    requires delivered != []
    requires forall i, j :: 0 <= i < j < |delivered| ==> delivered[i].version < delivered[j].version
    ensures var passing := Passing(baseline, delivered);
            (passing != [] && Last(passing) == Last(delivered)) <==> Last(delivered).changeSet.data != baseline
  {
    PassingMembers(baseline, delivered);
    var passing := Passing(baseline, delivered);
    if passing != [] {
      assert Last(passing) in passing;
    }
  }

  lemma {:induction false} DataOfPassing(baseline: string, delivered: seq<Snapshot>)
    ensures Data(Passing(baseline, delivered)) == Filter(Data(delivered), (x: string) => x != baseline)
  {
    var p := (x: string) => x != baseline;
    if delivered != [] {
      var before := delivered[..|delivered| - 1];
      DataOfPassing(baseline, before);
      assert Data(delivered)[..|delivered| - 1] == Data(before);
      assert Last(Data(delivered)) == Last(delivered).changeSet.data;
      if p(Last(Data(delivered))) {
        assert Data(Passing(baseline, delivered)) == Data(Passing(baseline, before)) + [Last(Data(delivered))];
      }
    } else {
      assert Data(delivered) == [];
    }
  }

  /** End to end, for a user watcher whose loader watcher was registered in any reachable state
      and is given the time to catch up, and whatever value `baseline` the configuration had at
      the path: the bytes the user is answered with are the changes of the value at the path since
      registration, up to the last installation or the one before, minus every return to the
      baseline. */
  lemma {:induction false} UserSeesChangesExceptReturns(r: Reader, sources: seq<SourceId>, actions: seq<Action>,
        path: Path, s: System, more: seq<Action>, baseline: string)
    requires s == Run(r, Start(sources), actions) && CurrentIsNewest(s)
    requires s.core.vals.Some? && r.get(s.core.vals.value, path).Some?
    requires Paced(r, Registered(r, s, path), more, |s.entries|)
    ensures var s' := Run(r, Registered(r, s, path), more);
            var current := r.bytes(r.get(s.core.vals.value, path).value);
            && |s.entries| < |s'.entries| && |s.history| <= |s'.history|
            && var seen := ValuesAt(r, s'.history, |s.history|, path);
               && (!CaughtUp(s', |s.entries|) ==> seen != [])
               && var told := if CaughtUp(s', |s.entries|) then seen else seen[..|seen| - 1];
                  Data(Passing(baseline, s'.entries[|s.entries|].delivered))
                  == Filter(Changes(current, told), (x: string) => x != baseline)
  {
    RegisteredWatcherIsSynchronous(r, sources, actions, path, s, more);
    DataOfPassing(baseline, Run(r, Registered(r, s, path), more).entries[|s.entries|].delivered);
  }

  /** The baseline is read from the configuration, the loader watcher's from the loader. While
      nothing more is installed a user is never answered, whatever `baseline` the configuration
      had: one that lags behind the loader is told nothing of the value it lags behind. */
  lemma {:induction false} NothingInstalledNothingAnswered(r: Reader, sources: seq<SourceId>, actions: seq<Action>,
        path: Path, s: System, more: seq<Action>, baseline: string)
    requires s == Run(r, Start(sources), actions) && CurrentIsNewest(s)
    requires s.core.vals.Some? && r.get(s.core.vals.value, path).Some?
    requires |Run(r, Registered(r, s, path), more).history| == |s.history|
    ensures var s' := Run(r, Registered(r, s, path), more);
            |s.entries| < |s'.entries| && Passing(baseline, s'.entries[|s.entries|].delivered) == []
  {
    RunInv(r, sources, actions);
    RegisteredEntry(r, s, path);
    InstallFreeIsPaced(r, Registered(r, s, path), more, |s.entries|);
    UserSeesChangesExceptReturns(r, sources, actions, path, s, more, baseline);
    var s' := Run(r, Registered(r, s, path), more);
    assert ValuesAt(r, s'.history, |s.history|, path) == [];
    assert |Data(Passing(baseline, s'.entries[|s.entries|].delivered))| == 0;
  }

  /** A run that shows it: the configuration loaded A; B is installed in the loader; a user then
      watches. The configuration's value, and so the user's baseline, is A; the loader watcher
      starts from B, and has nothing to deliver. */
  lemma LaggingBaseline()
    ensures var s := R.Exec(W.LastWins(), WatchedConfig(), LaggingRun());
            && s.conf == Conf(Some(Snapshot(W.Text("A").value, 1)), Some(Str("A")))
            && s.loader.core.vals == Some(Str("B"))
            && |s.loader.entries| == 2
            && s.loader.entries[1] == Entry(Watcher([], Str("B"), 2, None), Str("B"), 2, [], [], true)
  {
    var r := W.LastWins();
    var s0 := WatchedConfig();
    W.WatchedShape();
    var event := [DoEvent(0, W.Text("B"), 2), DoCapture];
    var watch := [DoReadBaseline([]), DoRegister(|W.Watched().baselines|)];
    var s1 := R.Next(r, s0, R.LoadTake);
    var s2 := R.Next(r, s1, R.LoadInstall);
    ExecSteps(r, s0, [R.LoadTake, R.LoadInstall], [s0, s1, s2]);
    var l4 := W.EventThenCapture(s0.loader, "B", 2);
    W.EventSnapshot(s0.loader, "B", 2);
    RegisteredEntry(r, l4, []);
    W.RunSteps(r, l4, watch, [l4, Step(r, l4, watch[0]), Registered(r, l4, [])]);
    RunConcat(r, s0.loader, event, watch);
    InnerRun(r, s2, event + watch);
    ExecConcat(r, s0, [R.LoadTake, R.LoadInstall], Wrapped(event + watch));
  }

  function LaggingRun(): seq<R.Act> {
    [R.LoadTake, R.LoadInstall] +
    Wrapped([DoEvent(0, W.Text("B"), 2), DoCapture] + [DoReadBaseline([]), DoRegister(|W.Watched().baselines|)])
  }

  /** A value that changes from A to B and back to A: the loader watcher delivers both changes, A
      is current, and the last thing a user who registered with A was told is B. */
  lemma ReturnIsNotReported()
    ensures var s := Run(W.LastWins(), Start([]), W.WatchedRun() + ReturnRun());
            && s.core.vals == Some(Str("A"))
            && |s.entries| == 1 && Data(s.entries[0].delivered) == ["B", "A"]
            && var passing := Passing("A", s.entries[0].delivered);
               |passing| == 1 && Answer(W.LastWins(), passing[0]) == Some(Str("B"))
  {
    W.WatchedShape();
    W.WatchedIsRun();
    var s := TwoTold(W.Watched(), "B", 2, "A", 3);
    RunConcat(W.LastWins(), Start([]), W.WatchedRun(), ReturnRun());
    var e1 := ObserveB(W.Watched().entries[0]);
    var e2 := ObserveA(e1);
    PassingB(e2.delivered);
  }

  lemma TwoTold(s: System, b: string, vb: int, a: string, va: int) returns (s': System)
    requires W.Fed(s) && |s.entries| == 1 && s.entries[0].listed && s.publishers == []
    ensures s' == Run(W.LastWins(), s, W.Told(b, vb, 0) + W.Told(a, va, 1))
    ensures s'.core.vals == Some(Str(a))
    ensures s'.entries == [Observe(W.LastWins(), Observe(W.LastWins(), s.entries[0], Str(b), vb), Str(a), va)]
  {
    var s1 := W.EventIsTold(s, b, vb);
    s' := W.EventIsTold(s1, a, va);
    RunConcat(W.LastWins(), s, W.Told(b, vb, 0), W.Told(a, va, 1));
  }

  function ReturnRun(): seq<Action> {
    W.Told("B", 2, 0) + W.Told("A", 3, 1)
  }

  lemma ObserveA(e: Entry) returns (e': Entry)
    requires e.w == Watcher([], Str("B"), 2, None)
    requires e.delivered == [Snapshot(ChangeSet("B", "B", "json", "memory"), 2)]
    ensures e' == Observe(W.LastWins(), e, Str("A"), 3)
    ensures e'.delivered == [Snapshot(ChangeSet("B", "B", "json", "memory"), 2),
                             Snapshot(ChangeSet("A", "A", "json", "memory"), 3)]
  {
    e' := Observe(W.LastWins(), e, Str("A"), 3);
    assert e'.delivered == e.delivered + [Snapshot(ChangeSet("A", "A", "json", "memory"), 3)];
  }

  lemma PassingB(delivered: seq<Snapshot>)
    requires |delivered| == 2 && delivered[0].changeSet.data == "B" && delivered[1].changeSet.data == "A"
    ensures Passing("A", delivered) == [delivered[0]]
  {
    assert delivered[..1][..0] == [] && delivered[..2] == delivered && delivered[..2][..1] == delivered[..1];
    assert Passing("A", delivered[..0]) == [];
    assert Passing("A", delivered[..1]) == [delivered[0]];
  }

  // ----- Sync can go back -----

  /** Sync reads version 1 from the loader; before it gets the lock the run loop installs
      version 2; Sync then puts version 1 back. */
  lemma SyncGoesBack()
    ensures var s := R.Exec(W.LastWins(), WatchedConfig(), BackRun());
            && |s.log| == 3
            && s.log[0].version == 1 && s.log[1].version == 2 && s.log[2].version == 1
            && s.conf == Conf(Some(Snapshot(W.Text("A").value, 1)), Some(Str("A")))
            && s.loader.core.snap == Some(Snapshot(W.Text("B").value, 2))
  {
    var r := W.LastWins();
    var s0 := WatchedConfig();
    W.WatchedShape();
    var s3 := LoadThenTake(s0);
    var event, publish := [DoEvent(0, W.Text("B"), 2), DoCapture], [DoArm(0), DoSend(0), DoReceive(0)];
    var l5 := W.EventThenCapture(s0.loader, "B", 2);
    W.EventSnapshot(s0.loader, "B", 2);
    var l8 := W.PublishThenReceive(l5, 0);
    var e8 := ObserveB(s0.loader.entries[0]);
    RunConcat(r, s0.loader, event, publish);
    InnerRun(r, s3, event + publish);
    var s10 := RunThenSync(s3.(loader := l8), |s0.loader.history|);
    ExecConcat(r, s0, [R.LoadTake, R.LoadInstall, R.SyncTake], Wrapped(event + publish));
    ExecConcat(r, s0, [R.LoadTake, R.LoadInstall, R.SyncTake] + Wrapped(event + publish),
               [R.RunStep(0, 0), R.SyncInstall(0)]);
  }

  lemma LoadThenTake(s: R.State) returns (s': R.State)
    requires s.loader.core.snap == Some(Snapshot(W.Text("A").value, 1))
    requires s == R.State(s.loader, Conf(None, None), None, [], [])
    ensures s' == R.Exec(W.LastWins(), s, [R.LoadTake, R.LoadInstall, R.SyncTake])
    ensures s' == R.State(s.loader, Conf(s.loader.core.snap, Some(Str("A"))), None,
                          [R.Taken(s.loader.core.snap.value, 1, |s.loader.history|, false)],
                          [R.Change(R.ByLoad, 1, 0, |s.loader.history|)])
  {
    var r := W.LastWins();
    var s1 := R.Next(r, s, R.LoadTake);
    var s2 := R.Next(r, s1, R.LoadInstall);
    s' := R.Next(r, s2, R.SyncTake);
    ExecSteps(r, s, [R.LoadTake, R.LoadInstall, R.SyncTake], [s, s1, s2, s']);
  }

  lemma RunThenSync(s: R.State, n: nat) returns (s': R.State)
    requires |s.loader.entries| == 1
    requires s.loader.entries[0].delivered == [Snapshot(ChangeSet("B", "B", "json", "memory"), 2)]
    requires s == R.State(s.loader, Conf(Some(Snapshot(W.Text("A").value, 1)), Some(Str("A"))), None,
                          [R.Taken(Snapshot(W.Text("A").value, 1), 1, n, false)], [R.Change(R.ByLoad, 1, 0, n)])
    ensures s' == R.Exec(W.LastWins(), s, [R.RunStep(0, 0), R.SyncInstall(0)])
    ensures s'.loader == s.loader && s'.conf == s.conf
    ensures s'.log
         == [R.Change(R.ByLoad, 1, 0, n), R.Change(R.ByRun, 2, 1, |s.loader.history|), R.Change(R.BySyncCall, 1, 1, n)]
  {
    var r := W.LastWins();
    var s1 := R.Next(r, s, R.RunStep(0, 0));
    s' := R.Next(r, s1, R.SyncInstall(0));
    ExecSteps(r, s, [R.RunStep(0, 0), R.SyncInstall(0)], [s, s1, s']);
  }

  /** A configuration that has loaded nothing yet over a loader that holds A at version 1 and
      has a root watcher. */
  function WatchedConfig(): R.State {
    R.State(W.Watched(), Conf(None, None), None, [], [])
  }

  function Wrapped(actions: seq<Action>): seq<R.Act> {
    seq(|actions|, i requires 0 <= i < |actions| => R.Inner(actions[i]))
  }

  function BackRun(): seq<R.Act> {
    [R.LoadTake, R.LoadInstall, R.SyncTake] +
    Wrapped([DoEvent(0, W.Text("B"), 2), DoCapture] + [DoArm(0), DoSend(0), DoReceive(0)]) +
    [R.RunStep(0, 0), R.SyncInstall(0)]
  }

  lemma ObserveB(e: Entry) returns (e': Entry)
    requires e == Entry(Watcher([], Str("A"), 1, None), Str("A"), 1, [], [], true)
    ensures e' == Observe(W.LastWins(), e, Str("B"), 2)
    ensures e'.w == Watcher([], Str("B"), 2, None) && e'.listed
    ensures e'.delivered == [Snapshot(ChangeSet("B", "B", "json", "memory"), 2)]
  {
    e' := Observe(W.LastWins(), e, Str("B"), 2);
  }

  lemma {:induction false} ExecSteps(r: Reader, s: R.State, acts: seq<R.Act>, states: seq<R.State>)
    requires |states| == |acts| + 1 && states[0] == s
    requires forall i :: 0 <= i < |acts| ==> states[i + 1] == R.Next(r, states[i], acts[i])
    ensures R.Exec(r, s, acts) == Last(states)
  {
    if acts != [] {
      ExecSteps(r, s, acts[..|acts| - 1], states[..|states| - 1]);
    }
  }

  lemma {:induction false} ExecConcat(r: Reader, s: R.State, a: seq<R.Act>, b: seq<R.Act>)
    ensures R.Exec(r, s, a + b) == R.Exec(r, R.Exec(r, s, a), b)
    decreases |b|
  {
    if b == [] {
      assert a + b == a;
    } else {
      assert (a + b)[..|a + b| - 1] == a + b[..|b| - 1];
      ExecConcat(r, s, a, b[..|b| - 1]);
    }
  }

  lemma {:induction false} InnerRun(r: Reader, s: R.State, actions: seq<Action>)
    ensures R.Exec(r, s, Wrapped(actions)) == s.(loader := Run(r, s.loader, actions))
  {
    if actions != [] {
      InnerRun(r, s, actions[..|actions| - 1]);
      assert Wrapped(actions)[..|actions| - 1] == Wrapped(actions[..|actions| - 1]);
    }
  }
}
