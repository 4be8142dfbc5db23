/** Short runs in which the loader does less than one might expect of it
    (config/loader/memory/memory.go). */
module LoaderWitnesses {
  import opened Common
  import opened Reading
  import opened LoaderCore
  import opened LoaderRuns
  import opened LoaderObserver
  import opened LoaderRounds

  /** A reader for which the last source wins and every path holds the whole text. */
  function LastWins(): Reader {
    Reader(
      (sets: seq<Option<ChangeSet>>) => if sets == [] then None else Last(sets),
      (cs: ChangeSet) => Some(Str(cs.data)),
      (v: Json, path: Path) => Some(v),
      (v: Json) => if v.Str? then v.s else "",
      (data: string) => data,
      "json")
  }

  function Text(data: string): Option<ChangeSet> {
    Some(ChangeSet(data, data, "json", "memory"))
  }

  /** With watchers disabled, a source changes from A to B: Sync installs B, and the next
      Load, even of nothing, brings A back. */
  lemma SyncIsReverted()
    ensures var s := Run(LastWins(), Start([]), [
                DoAppend("memory", Text("A")), DoReload(1),
                DoSync([ReadOk(Text("B"))], 2),
                DoReload(3)]);
            && |s.history| == 3
            && s.history[1].snap == Snapshot(Text("B").value, 2)
            && s.core.snap == Some(Snapshot(Text("A").value, 3))
  {
    var r := LastWins();
    var a := [DoAppend("memory", Text("A")), DoReload(1), DoSync([ReadOk(Text("B"))], 2), DoReload(3)];
    var s1 := Step(r, Start([]), a[0]);
    var s2 := ReloadText(s1, "A", 1);
    var s3 := SyncText(s2, "B", 2);
    var s4 := ReloadText(s3, "A", 3);
    RunSteps(r, Start([]), a, [Start([]), s1, s2, s3, s4]);
  }

  lemma ReloadText(s: System, data: string, clock: int) returns (s': System)
    requires s.core.sets == [Text(data)]
    ensures s' == Step(LastWins(), s, DoReload(clock))
    ensures s'.core.sets == s.core.sets && s'.core.snap == Some(Snapshot(Text(data).value, clock))
    ensures |s'.history| == |s.history| + 1 && s.history <= s'.history && Last(s'.history).snap == s'.core.snap.value
  {
    s' := Step(LastWins(), s, DoReload(clock));
  }

  lemma SyncText(s: System, data: string, clock: int) returns (s': System)
    ensures s' == Step(LastWins(), s, DoSync([ReadOk(Text(data))], clock))
    ensures s'.core.sets == s.core.sets && s'.core.snap == Some(Snapshot(Text(data).value, clock))
    ensures |s'.history| == |s.history| + 1 && s.history <= s'.history && Last(s'.history).snap == s'.core.snap.value
  {
    var answers := [ReadOk(Text(data))];
    assert answers[..0] == [] && Readable(answers[..0]) == [];
    assert Readable(answers) == [Text(data)];
    s' := Step(LastWins(), s, DoSync(answers, clock));
  }

  /** `states` lists what each of `actions` leads to. */
  lemma {:induction false} RunSteps(r: Reader, s: System, actions: seq<Action>, states: seq<System>)
    requires |states| == |actions| + 1 && states[0] == s
    requires forall i :: 0 <= i < |actions| ==> states[i + 1] == Step(r, states[i], actions[i])
    ensures Run(r, s, actions) == Last(states)
  {
    if actions != [] {
      RunSteps(r, s, actions[..|actions| - 1], states[..|states| - 1]);
    }
  }

  /** One source and its worker. */
  ghost predicate Fed(s: System) {
    |s.core.sets| == |s.workers| == 1 && s.workers[0].idx == 0
  }

  /** A loader with one watcher whose baseline is A, at version 1. */
  function Watched(): System {
    Registered(LastWins(),
      Step(LastWins(), Step(LastWins(), Start([]), DoAppend("memory", Text("A"))), DoReload(1)), [])
  }

  function WatchedRun(): seq<Action> {
    [DoAppend("memory", Text("A")), DoReload(1), DoReadBaseline([]), DoRegister(0)]
  }

  lemma WatchedIsRun()
    ensures Run(LastWins(), Start([]), WatchedRun()) == Watched()
  {
    var r := LastWins();
    var s1 := Step(r, Start([]), DoAppend("memory", Text("A")));
    var s2 := Step(r, s1, DoReload(1));
    var s3 := Step(r, s2, DoReadBaseline([]));
    RunSteps(r, Start([]), WatchedRun(), [Start([]), s1, s2, s3, Step(r, s3, DoRegister(0))]);
  }

  lemma WatchedShape()
    ensures var s := Watched();
            && s.core == Core(Some(Str("A")), Some(Snapshot(Text("A").value, 1)), [Text("A")], ["memory"])
            && Fed(s) && |s.history| == 1 && s.publishers == []
            && s.entries == [Entry(Watcher([], Str("A"), 1, None), Str("A"), 1, [], [], true)]
  {
  }

  function PublisherOf(data: string, version: int, armed: Option<(nat, Update)>): Publisher {
    Publisher(Str(data), Snapshot(Text(data).value, version), [], armed)
  }

  /** One event and its capture, when the only watcher is listed. */
  lemma EventThenCapture(s: System, data: string, version: int) returns (s': System)
    requires Fed(s) && |s.entries| == 1 && s.entries[0].listed
    ensures s' == Run(LastWins(), s, [DoEvent(0, Text(data), version), DoCapture])
    ensures Fed(s') && s'.entries == s.entries && s'.core.vals == Some(Str(data))
    ensures s'.publishers == s.publishers + [PublisherOf(data, version, None).(todo := [0])]
  {
    var r := LastWins();
    assert Listed(s.entries, 0) == [] && Listed(s.entries, 1) == [0];
    var s1 := Step(r, s, DoEvent(0, Text(data), version));
    s' := Step(r, s1, DoCapture);
    RunSteps(r, s, [DoEvent(0, Text(data), version), DoCapture], [s, s1, s']);
  }

  lemma EventSnapshot(s: System, data: string, version: int)
    requires Fed(s)
    ensures Run(LastWins(), s, [DoEvent(0, Text(data), version), DoCapture]).core.snap ==
            Some(Snapshot(Text(data).value, version))
  {
    var s1 := Step(LastWins(), s, DoEvent(0, Text(data), version));
    RunSteps(LastWins(), s, [DoEvent(0, Text(data), version), DoCapture], [s, s1, Step(LastWins(), s1, DoCapture)]);
  }

  /** A publisher visits the only watcher, which then drains its channel. */
  lemma PublishThenReceive(s: System, p: nat) returns (s': System)
    requires |s.entries| == 1 && p < |s.publishers| && s.publishers[p].todo == [0] && s.publishers[p].armed.None?
    ensures s' == Run(LastWins(), s, [DoArm(p), DoSend(p), DoReceive(0)])
    ensures s'.core == s.core && s'.workers == s.workers
    ensures s'.publishers == s.publishers[p := s.publishers[p].(todo := [])]
    ensures s'.entries == [Observe(LastWins(), s.entries[0], s.publishers[p].vals, s.publishers[p].snap.version)]
  {
    var r := LastWins();
    var s1 := Step(r, s, DoArm(p));
    var s2 := Step(r, s1, DoSend(p));
    s' := Step(r, s2, DoReceive(0));
    assert [0][1..] == [];
    RunSteps(r, s, [DoArm(p), DoSend(p), DoReceive(0)], [s, s1, s2, s']);
  }

  /** An event, its publication without interference, and one turn of the only watcher. */
  function Told(data: string, version: int, p: nat): seq<Action> {
    [DoEvent(0, Text(data), version), DoCapture] + [DoArm(p), DoSend(p), DoReceive(0)]
  }

  lemma EventIsTold(s: System, data: string, version: int) returns (s': System)
    requires Fed(s) && |s.entries| == 1 && s.entries[0].listed
    ensures s' == Run(LastWins(), s, Told(data, version, |s.publishers|))
    ensures Fed(s') && s'.core.vals == Some(Str(data)) && |s'.publishers| == |s.publishers| + 1
    ensures s'.entries == [Observe(LastWins(), s.entries[0], Str(data), version)]
  {
    var s1 := EventThenCapture(s, data, version);
    s' := PublishThenReceive(s1, |s.publishers|);
    RunConcat(LastWins(), s, [DoEvent(0, Text(data), version), DoCapture],
              [DoArm(|s.publishers|), DoSend(|s.publishers|), DoReceive(0)]);
  }

  /** Two publishers overlap: the older one passes its guard first and sends last, after the
      newer item was consumed. Its stale item then fills the channel, the next publication is
      dropped, and the drained watcher holds C while D is current. */
  lemma StaleItemBlocksNewer()
    ensures var s := Run(LastWins(), Watched(), StaleRun());
            && s.core.vals == Some(Str("D"))
            && |s.entries| == 1
            && s.entries[0].w == Watcher([], Str("C"), 3, None)
            && Data(s.entries[0].delivered) == ["C"]
            && s.publishers == [PublisherOf("B", 2, None), PublisherOf("C", 3, None), PublisherOf("D", 4, None)]
  {
    var r := LastWins();
    WatchedShape();
    var s0 := Watched();
    var s2 := EventThenCapture(s0, "B", 2);
    var s3 := s2.(publishers := [PublisherOf("B", 2, Some((0, Update(Some(Str("B")), 2))))]);
    ArmFirst(s2, s3);
    var s5 := EventThenCapture(s3, "C", 3);
    var s8 := PublishThenReceive(s5, 1);
    var e8 := ObserveC();
    var s9 := s8.(publishers := [PublisherOf("B", 2, None), PublisherOf("C", 3, None)],
                  entries := [e8.(w := Watcher([], Str("C"), 3, Some(Update(Some(Str("B")), 2))))]);
    SendStale(s8, s9, e8);
    var s11 := EventThenCapture(s9, "D", 4);
    var s14 := PublishThenReceive(s11, 2);
    assert s14.publishers == [PublisherOf("B", 2, None), PublisherOf("C", 3, None), PublisherOf("D", 4, None)];
    Compose7(s0, s2, s3, s5, s8, s9, s11, s14);
  }

  lemma ObserveC() returns (e: Entry)
    ensures e == Observe(LastWins(), Entry(Watcher([], Str("A"), 1, None), Str("A"), 1, [], [], true), Str("C"), 3)
    ensures e.w == Watcher([], Str("C"), 3, None) && Data(e.delivered) == ["C"] && e.listed
  {
    e := Observe(LastWins(), Entry(Watcher([], Str("A"), 1, None), Str("A"), 1, [], [], true), Str("C"), 3);
    assert e.delivered == [Snapshot(Render(LastWins(), Str("C")), 3)];
  }

  function StaleRun(): seq<Action> {
    [DoEvent(0, Text("B"), 2), DoCapture] + [DoArm(0)] +
    [DoEvent(0, Text("C"), 3), DoCapture] + [DoArm(1), DoSend(1), DoReceive(0)] + [DoSend(0)] +
    [DoEvent(0, Text("D"), 4), DoCapture] + [DoArm(2), DoSend(2), DoReceive(0)]
  }

  lemma ArmFirst(s: System, s': System)
    requires s.publishers == [PublisherOf("B", 2, None).(todo := [0])] && |s.entries| == 1
    requires s.entries[0].w == Watcher([], Str("A"), 1, None)
    requires s' == s.(publishers := [PublisherOf("B", 2, Some((0, Update(Some(Str("B")), 2))))])
    ensures Run(LastWins(), s, [DoArm(0)]) == s'
  {
    assert [0][1..] == [];
    assert s'.publishers == s.publishers[0 := s'.publishers[0]];
    RunSteps(LastWins(), s, [DoArm(0)], [s, s']);
  }

  lemma SendStale(s: System, s': System, e: Entry)
    requires |s.publishers| == 2 && s.publishers[0] == PublisherOf("B", 2, Some((0, Update(Some(Str("B")), 2))))
    requires s.entries == [e] && e.w.pending.None?
    requires s' == s.(publishers := [PublisherOf("B", 2, None), s.publishers[1]],
                      entries := [e.(w := e.w.(pending := Some(Update(Some(Str("B")), 2))))])
    ensures Run(LastWins(), s, [DoSend(0)]) == s'
  {
    assert s'.publishers == s.publishers[0 := s'.publishers[0]] && s'.entries == s.entries[0 := s'.entries[0]];
    RunSteps(LastWins(), s, [DoSend(0)], [s, s']);
  }

  lemma Compose7(s0: System, s2: System, s3: System, s5: System, s8: System, s9: System, s11: System, s14: System)
    requires var r := LastWins();
             && s2 == Run(r, s0, [DoEvent(0, Text("B"), 2), DoCapture])
             && s3 == Run(r, s2, [DoArm(0)])
             && s5 == Run(r, s3, [DoEvent(0, Text("C"), 3), DoCapture])
             && s8 == Run(r, s5, [DoArm(1), DoSend(1), DoReceive(0)])
             && s9 == Run(r, s8, [DoSend(0)])
             && s11 == Run(r, s9, [DoEvent(0, Text("D"), 4), DoCapture])
             && s14 == Run(r, s11, [DoArm(2), DoSend(2), DoReceive(0)])
    ensures Run(LastWins(), s0, StaleRun()) == s14
  {
    var r := LastWins();
    var a := [DoEvent(0, Text("B"), 2), DoCapture];
    RunConcat(r, s0, a, [DoArm(0)]);
    RunConcat(r, s0, a + [DoArm(0)], [DoEvent(0, Text("C"), 3), DoCapture]);
    var b := a + [DoArm(0)] + [DoEvent(0, Text("C"), 3), DoCapture];
    RunConcat(r, s0, b, [DoArm(1), DoSend(1), DoReceive(0)]);
    RunConcat(r, s0, b + [DoArm(1), DoSend(1), DoReceive(0)], [DoSend(0)]);
    var c := b + [DoArm(1), DoSend(1), DoReceive(0)] + [DoSend(0)];
    RunConcat(r, s0, c, [DoEvent(0, Text("D"), 4), DoCapture]);
    RunConcat(r, s0, c + [DoEvent(0, Text("D"), 4), DoCapture], [DoArm(2), DoSend(2), DoReceive(0)]);
  }

  /** `Watch` reads A, B is installed and published, then the watcher is registered under B's
      version: it holds A, nothing is pending, and B's publication is over. */
  lemma RegistrationMissesUpdate()
    ensures var s := Run(LastWins(), Start([]), [
                DoAppend("memory", Text("A")), DoReload(1),
                DoReadBaseline([]),
                DoEvent(0, Text("B"), 2), DoCapture,
                DoRegister(0)]);
            && s.core.vals == Some(Str("B"))
            && s.entries == [Entry(Watcher([], Str("A"), 2, None), Str("A"), 2, [], [], true)]
            && forall p :: 0 <= p < |s.publishers| ==> s.publishers[p].todo == [] && s.publishers[p].armed.None?
  {
    var a := [DoAppend("memory", Text("A")), DoReload(1), DoReadBaseline([]),
              DoEvent(0, Text("B"), 2), DoCapture, DoRegister(0)];
    var c0 := Core(None, None, [Text("A")], ["memory"]);
    var c1 := c0.(vals := Some(Str("A")), snap := Some(Snapshot(Text("A").value, 1)));
    var c2 := Core(Some(Str("B")), Some(Snapshot(Text("B").value, 2)), [Text("B")], ["memory"]);
    var h1, h2 := Installed(c1.snap.value, c1.vals, c1.sets, ByReload),
      Installed(c2.snap.value, c2.vals, c2.sets, ByEvent);
    var s1 := System(c0, [Worker("memory", 0, [Text("A")])], [], [], [], []);
    var s2 := s1.(core := c1, history := [h1]);
    var s3 := s2.(baselines := [Baseline([], Str("A"))]);
    var s4 := s3.(core := c2, workers := [Worker("memory", 0, [Text("A"), Text("B")])], history := [h1, h2]);
    EventB(s3, s4, c1, c2, h1, h2);
    var s5 := s4.(publishers := [Publisher(Str("B"), c2.snap.value, [], None)]);
    var s6 := s5.(entries := [Entry(Watcher([], Str("A"), 2, None), Str("A"), 2, [], [], true)]);
    RunSteps(LastWins(), Start([]), a, [Start([]), s1, s2, s3, s4, s5, s6]);
  }

  lemma EventB(s: System, s': System, c1: Core, c2: Core, h1: Installed, h2: Installed)
    requires c1.sets == [Text("A")]
    requires c2 == c1.(vals := Some(Str("B")), snap := Some(Snapshot(Text("B").value, 2)), sets := [Text("B")])
    requires h2 == Installed(c2.snap.value, c2.vals, c2.sets, ByEvent)
    requires s.core == c1 && s.workers == [Worker("memory", 0, [Text("A")])] && s.history == [h1]
    requires s' == s.(core := c2, workers := [Worker("memory", 0, [Text("A"), Text("B")])], history := [h1, h2])
    ensures Step(LastWins(), s, DoEvent(0, Text("B"), 2)) == s'
  {
    assert c1.sets[0 := Text("B")] == c2.sets;
    assert [Text("A")] + [Text("B")] == [Text("A"), Text("B")];
    assert s.workers[0 := s'.workers[0]] == s'.workers;
    assert s.history + [h2] == s'.history;
  }
}
