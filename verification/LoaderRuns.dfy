/** Every interleaving of the loader's critical sections, its publishers and its watchers
    (config/loader/memory/memory.go), with the history needed to state what watchers see. */
module LoaderRuns {
  import opened Common
  import opened Reading
  import opened LoaderCore

  datatype Kind = ByEvent | ByReload | BySync

  /** An installed snapshot, the values it was given and the sets `m.sets` held then. */
  datatype Installed = Installed(snap: Snapshot, vals: Option<Json>, sets: seq<Option<ChangeSet>>, kind: Kind)

  /** A watcher with its registration (`first`, `since`), the versions it moved to and the
      snapshots `Next` returned. `listed` says whether `m.watchers` still holds it. */
  datatype Entry = Entry(w: Watcher, first: Json, since: int, accepted: seq<int>,
                         delivered: seq<Snapshot>, listed: bool)

  /** A running `update`: what it captured, the watchers still to visit, and the item whose
      guard has been passed but which has not been sent yet. */
  datatype Publisher = Publisher(vals: Json, snap: Snapshot, todo: seq<nat>, armed: Option<(nat, Update)>)

  /** A `Watch` call between its two critical sections. */
  datatype Baseline = Baseline(path: Path, value: Json)

  /** The goroutine that watches one source: the source, the index it was started with, and
      the change sets got from it, the first being the one read by `Load`. */
  datatype Worker = Worker(source: SourceId, idx: nat, received: seq<Option<ChangeSet>>)

  datatype System = System(
    core: Core,
    workers: seq<Worker>,
    history: seq<Installed>,
    entries: seq<Entry>,
    publishers: seq<Publisher>,
    baselines: seq<Baseline>)

  datatype Action =
    | DoAppend(source: SourceId, cs: Option<ChangeSet>)
    | DoEvent(worker: nat, cs: Option<ChangeSet>, clock: int)
    | DoReload(clock: int)
    | DoSync(answers: seq<ReadResult>, clock: int)
    | DoCapture
    | DoArm(p: nat)
    | DoSend(p: nat)
    | DoReadBaseline(path: Path)
    | DoRegister(b: nat)
    | DoReceive(id: nat)
    | DoRemove(id: nat)

  function Start(sources: seq<SourceId>): System {
    System(Initial(sources),
           seq(|sources|, i requires 0 <= i < |sources| => Worker(sources[i], i, [Initial(sources).sets[i]])),
           [], [], [], [])
  }

  /** The state after the critical section that produced `core` under `kind`. */
  function AfterInstall(r: Reader, s: System, core: Core, installed: bool, kind: Kind): System {
    if installed && core.snap.Some?
    then s.(core := core, history := s.history + [Installed(core.snap.value, core.vals, core.sets, kind)])
    else s.(core := core)
  }

  /** The identifiers of the listed watchers among the first `n`, in registration order. */
  function Listed(entries: seq<Entry>, n: nat): (ids: seq<nat>)
    requires n <= |entries|
    ensures forall id: nat :: id in ids <==> id < n && entries[id].listed
  {
    if n == 0 then [] else
    Listed(entries, n - 1) + if entries[n - 1].listed then [n - 1] else []
  }

  function Arm(r: Reader, s: System, p: Publisher): Publisher
    requires p.todo != [] && p.todo[0] < |s.entries|
  {
    var w := s.entries[p.todo[0]].w;
    Publisher(p.vals, p.snap, p.todo[1..],
              if Wants(w, p.snap.version)
              then Some((p.todo[0], Update(r.get(p.vals, w.path), p.snap.version)))
              else None)
  }

  /** One turn of `Next`'s loop, recorded. */
  function Consume(r: Reader, e: Entry): Entry {
    var step := Receive(r, e.w);
    e.(w := step.0,
       accepted := if step.0.version != e.w.version then e.accepted + [step.0.version] else e.accepted,
       delivered := if step.1.Some? then e.delivered + [step.1.value] else e.delivered)
  }

  /** One atomic step; an action that is not possible changes nothing. */
  function Step(r: Reader, s: System, a: Action): System {
    match a
    case DoAppend(source, cs) =>
      s.(core := Append(s.core, source, cs), workers := s.workers + [Worker(source, |s.core.sets|, [cs])])
    case DoEvent(k, cs, clock) =>
      if k >= |s.workers| || s.workers[k].idx >= |s.core.sets| then s else
      var w := s.workers[k];
      var sets := s.core.sets[w.idx := cs];
      var s1 := s.(workers := s.workers[k := w.(received := w.received + [cs])]);
      AfterInstall(r, s1, SourceEvent(r, s.core, w.idx, cs, clock), r.merge(sets).Some?, ByEvent)
    case DoReload(clock) =>
      AfterInstall(r, s, Reload(r, s.core, clock), Installs(r, s.core.sets), ByReload)
    case DoSync(answers, clock) =>
      AfterInstall(r, s, Sync(r, s.core, answers, clock), Installs(r, Readable(answers)), BySync)
    case DoCapture =>
      if s.core.vals.None? || s.core.snap.None? then s else
      s.(publishers := s.publishers +
        [Publisher(s.core.vals.value, s.core.snap.value, Listed(s.entries, |s.entries|), None)])
    case DoArm(p) =>
      if p >= |s.publishers| || s.publishers[p].armed.Some? || s.publishers[p].todo == [] then s else
      if s.publishers[p].todo[0] >= |s.entries| then s else
      s.(publishers := s.publishers[p := Arm(r, s, s.publishers[p])])
    case DoSend(p) =>
      if p >= |s.publishers| || s.publishers[p].armed.None? then s else
      var (id, u) := s.publishers[p].armed.value;
      if id >= |s.entries| then s else
      var e := s.entries[id];
      s.(publishers := s.publishers[p := s.publishers[p].(armed := None)],
         entries := s.entries[id := e.(w := TrySend(e.w, u))])
    case DoReadBaseline(path) =>
      if s.core.vals.None? || r.get(s.core.vals.value, path).None? then s else
      s.(baselines := s.baselines + [Baseline(path, r.get(s.core.vals.value, path).value)])
    case DoRegister(b) =>
      if b >= |s.baselines| || s.core.snap.None? then s else
      var Baseline(path, value) := s.baselines[b];
      var version := s.core.snap.value.version;
      s.(entries := s.entries + [Entry(Watcher(path, value, version, None), value, version, [], [], true)])
    case DoReceive(id) =>
      if id >= |s.entries| then s else
      s.(entries := s.entries[id := Consume(r, s.entries[id])])
    case DoRemove(id) =>
      if id >= |s.entries| then s else
      s.(entries := s.entries[id := s.entries[id].(listed := false)])
  }

  function Run(r: Reader, s: System, actions: seq<Action>): System {
    if actions == [] then s else Step(r, Run(r, s, actions[..|actions| - 1]), Last(actions))
  }

  lemma {:induction false} RunConcat(r: Reader, s: System, a: seq<Action>, b: seq<Action>)
    ensures Run(r, s, a + b) == Run(r, Run(r, s, a), b)
    decreases |b|
  {
    if b == [] {
      assert a + b == a;
    } else {
      assert (a + b)[..|a + b| - 1] == a + b[..|b| - 1];
      RunConcat(r, s, a, b[..|b| - 1]);
    }
  }

  // ----- The invariant -----

  /** `u` is the value at `path`, and the version, of an installed snapshot. */
  ghost predicate Shows(r: Reader, h: Installed, path: Path, u: Update) {
    h.vals.Some? && u.version == h.snap.version && u.value == r.get(h.vals.value, path)
  }

  ghost predicate Published(r: Reader, history: seq<Installed>, path: Path, u: Update) {
    exists k :: 0 <= k < |history| && Shows(r, history[k], path, u)
  }

  /** `d` renders the value at `path` of an installed snapshot under that snapshot's version. */
  ghost predicate Reports(r: Reader, history: seq<Installed>, path: Path, d: Snapshot) {
    exists v: Json :: Published(r, history, path, Update(Some(v), d.version)) && d.changeSet == Render(r, v)
  }

  /** The bytes a watcher compares the next value with. */
  ghost function Held(r: Reader, e: Entry): string {
    if e.delivered == [] then r.bytes(e.first) else Last(e.delivered).changeSet.data
  }

  /** What was held before the delivery at index `i`. */
  ghost function Before(start: string, delivered: seq<Snapshot>, i: nat): string
    requires i <= |delivered|
  {
    if i == 0 then start else delivered[i - 1].changeSet.data
  }

  ghost predicate Alternates(start: string, delivered: seq<Snapshot>) {
    forall i :: 0 <= i < |delivered| ==> delivered[i].changeSet.data != Before(start, delivered, i)
  }

  /** Pending and delivered items come from installed snapshots. */
  ghost predicate Provenance(r: Reader, history: seq<Installed>, e: Entry) {
    && (e.w.pending.Some? ==> Published(r, history, e.w.path, e.w.pending.value))
    && (forall d :: d in e.delivered ==> Reports(r, history, e.w.path, d))
  }

  /** Versions only grow, and deliveries follow them. */
  ghost predicate Ordered(e: Entry) {
    && Increasing(e.accepted)
    && (forall v :: v in e.accepted ==> e.since < v <= e.w.version)
    && e.w.version == (if e.accepted == [] then e.since else Last(e.accepted))
    && (forall i :: 0 <= i < |e.delivered| ==> e.delivered[i].version in e.accepted)
    && (forall i, j :: 0 <= i < j < |e.delivered| ==> e.delivered[i].version < e.delivered[j].version)
  }

  /** Consecutive deliveries differ, starting from the value at registration. */
  ghost predicate Changing(r: Reader, e: Entry) {
    r.bytes(e.w.value) == Held(r, e) && Alternates(r.bytes(e.first), e.delivered)
  }

  ghost predicate EntryInv(r: Reader, history: seq<Installed>, e: Entry) {
    Provenance(r, history, e) && Ordered(e) && Changing(r, e)
  }

  ghost predicate PublisherInv(r: Reader, s: System, p: Publisher) {
    && (exists k :: 0 <= k < |s.history| && s.history[k].snap == p.snap && s.history[k].vals == Some(p.vals))
    && (forall id :: id in p.todo ==> id < |s.entries|)
    && (p.armed.Some? ==> p.armed.value.0 < |s.entries|)
    && (p.armed.Some? ==> Published(r, s.history, s.entries[p.armed.value.0].w.path, p.armed.value.1))
  }

  /** An installed snapshot has the values its change set gives, and a snapshot installed by
      an event or a reload merges the sets of that moment. */
  ghost predicate InstalledInv(r: Reader, h: Installed) {
    && h.vals == r.values(h.snap.changeSet)
    && (h.kind != BySync ==> r.merge(h.sets) == Some(h.snap.changeSet))
  }

  /** There is one worker for each source; its index is its source's, and the set there is the
      last one it got. */
  ghost predicate WorkersInv(core: Core, workers: seq<Worker>) {
    && |core.sets| == |core.sources| == |workers|
    && (forall i, j :: 0 <= i < j < |workers| ==> workers[i].idx != workers[j].idx)
    && (forall i :: 0 <= i < |workers| ==> Holds(core, workers[i]))
  }

  ghost predicate Holds(core: Core, w: Worker) {
    w.idx < |core.sets| == |core.sources| && core.sources[w.idx] == w.source
    && w.received != [] && core.sets[w.idx] == Last(w.received)
  }

  lemma EventKeepsWorkers(core: Core, workers: seq<Worker>, k: nat, cs: Option<ChangeSet>, core': Core)
    requires WorkersInv(core, workers) && k < |workers| && workers[k].idx < |core.sets|
    requires core'.sources == core.sources && core'.sets == core.sets[workers[k].idx := cs]
    ensures WorkersInv(core', workers[k := workers[k].(received := workers[k].received + [cs])])
  {
    forall i | 0 <= i < |workers| && i != k ensures Holds(core', workers[i]) {
      assert Holds(core, workers[i]);
      assert workers[i].idx != workers[k].idx;
    }
    assert Holds(core, workers[k]);
  }

  lemma WorkersKeep(r: Reader, s: System, a: Action)
    requires WorkersInv(s.core, s.workers)
    ensures WorkersInv(Step(r, s, a).core, Step(r, s, a).workers)
    ensures |Step(r, s, a).workers| >= |s.workers|
    ensures forall i :: 0 <= i < |s.workers| && !(a.DoEvent? && a.worker == i) ==>
              Step(r, s, a).workers[i] == s.workers[i]
  {
    if a.DoEvent? && a.worker < |s.workers| && s.workers[a.worker].idx < |s.core.sets| {
      EventKeepsWorkers(s.core, s.workers, a.worker, a.cs, Step(r, s, a).core);
    }
  }

  ghost predicate CoreInv(r: Reader, s: System) {
    && WorkersInv(s.core, s.workers)
    && (s.core.snap.Some? <==> s.history != [])
    && (s.history != [] ==> s.core.snap == Some(Last(s.history).snap) && s.core.vals == Last(s.history).vals)
    && (s.history == [] ==> s.core.vals.None?)
    && (forall h :: h in s.history ==> InstalledInv(r, h))
  }

  ghost predicate Inv(r: Reader, s: System) {
    && CoreInv(r, s)
    && (forall e :: e in s.entries ==> EntryInv(r, s.history, e))
    && (forall p :: p in s.publishers ==> PublisherInv(r, s, p))
  }

  /** Later installations keep what was already published. */
  lemma PublishedGrows(r: Reader, h: seq<Installed>, more: seq<Installed>, path: Path, u: Update)
    requires Published(r, h, path, u)
    ensures Published(r, h + more, path, u)
  {
    var k :| 0 <= k < |h| && Shows(r, h[k], path, u);
    assert (h + more)[k] == h[k];
  }

  lemma EntryGrows(r: Reader, h: seq<Installed>, more: seq<Installed>, e: Entry)
    requires EntryInv(r, h, e)
    ensures EntryInv(r, h + more, e)
  {
    if e.w.pending.Some? {
      PublishedGrows(r, h, more, e.w.path, e.w.pending.value);
    }
    forall d | d in e.delivered ensures Reports(r, h + more, e.w.path, d) {
      var v: Json :| Published(r, h, e.w.path, Update(Some(v), d.version)) && d.changeSet == Render(r, v);
      PublishedGrows(r, h, more, e.w.path, Update(Some(v), d.version));
    }
  }

  lemma PublisherGrows(r: Reader, s: System, s': System, more: seq<Installed>, p: Publisher)
    requires PublisherInv(r, s, p)
    requires s'.history == s.history + more && s'.entries == s.entries
    ensures PublisherInv(r, s', p)
  {
    var k :| 0 <= k < |s.history| && s.history[k].snap == p.snap && s.history[k].vals == Some(p.vals);
    assert s'.history[k] == s.history[k];
    if p.armed.Some? {
      PublishedGrows(r, s.history, more, s.entries[p.armed.value.0].w.path, p.armed.value.1);
    }
  }

  /** A critical section of the core keeps the invariant. */
  lemma InstallKeeps(r: Reader, s: System, s': System, more: seq<Installed>)
    requires Inv(r, s) && CoreInv(r, s')
    requires s'.history == s.history + more && s'.entries == s.entries && s'.publishers == s.publishers
    ensures Inv(r, s')
  {
    forall e | e in s'.entries ensures EntryInv(r, s'.history, e) {
      EntryGrows(r, s.history, more, e);
    }
    forall p | p in s'.publishers ensures PublisherInv(r, s', p) {
      PublisherGrows(r, s, s', more, p);
    }
  }

  /** A change of the entries that keeps paths and the entries' own invariant. */
  lemma EntriesKeep(r: Reader, s: System, s': System)
    requires Inv(r, s)
    requires s'.core == s.core && s'.workers == s.workers && s'.history == s.history
    requires |s'.entries| >= |s.entries|
    requires forall i :: 0 <= i < |s.entries| ==> s'.entries[i].w.path == s.entries[i].w.path
    requires forall e :: e in s'.entries ==> EntryInv(r, s.history, e)
    requires forall p :: p in s'.publishers ==> PublisherInv(r, s, p)
    ensures Inv(r, s')
  {
  }

  lemma ConsumeProvenance(r: Reader, history: seq<Installed>, e: Entry, e': Entry)
    requires e' == Consume(r, e)
    requires Provenance(r, history, e)
    ensures Provenance(r, history, e')
  {
    if e'.delivered != e.delivered {
      var u := e.w.pending.value;
      assert e'.delivered == e.delivered + [Snapshot(Render(r, u.value.value), u.version)];
      assert u == Update(Some(u.value.value), u.version);
      assert Reports(r, history, e.w.path, Last(e'.delivered));
    }
  }

  lemma ConsumeOrdered(r: Reader, e: Entry, e': Entry)
    requires e' == Consume(r, e)
    requires Ordered(e)
    ensures Ordered(e')
  {
    if e'.w.version != e.w.version {
      assert e.accepted != [] ==> Last(e.accepted) in e.accepted;
      assert e.since <= e.w.version < e'.w.version;
      assert e'.accepted == e.accepted + [e'.w.version];
      assert Last(e'.accepted) == e'.w.version;
      if e'.delivered != e.delivered {
        assert e'.delivered == e.delivered + [Last(e'.delivered)];
        assert Last(e'.delivered).version == Last(e'.accepted);
      }
    }
  }

  lemma ConsumeChanging(r: Reader, e: Entry, e': Entry)
    requires e' == Consume(r, e)
    requires Changing(r, e)
    ensures Changing(r, e')
  {
    if e'.delivered != e.delivered {
      var d := Last(e'.delivered);
      assert e'.delivered == e.delivered + [d];
      assert d.changeSet.data == r.bytes(e'.w.value) != Held(r, e);
    }
  }

  /** One turn of `Next` only ever moves forward and only ever reports what was installed. */
  lemma ConsumeKeeps(r: Reader, history: seq<Installed>, e: Entry, e': Entry)
    requires e' == Consume(r, e)
    requires EntryInv(r, history, e)
    ensures EntryInv(r, history, e')
  {
    ConsumeProvenance(r, history, e, e');
    ConsumeOrdered(r, e, e');
    ConsumeChanging(r, e, e');
  }

  lemma ArmKeeps(r: Reader, s: System, p: Publisher)
    requires PublisherInv(r, s, p) && p.todo != [] && p.todo[0] < |s.entries|
    ensures PublisherInv(r, s, Arm(r, s, p))
  {
    var k :| 0 <= k < |s.history| && s.history[k].snap == p.snap && s.history[k].vals == Some(p.vals);
    var w := s.entries[p.todo[0]].w;
    assert Shows(r, s.history[k], w.path, Update(r.get(p.vals, w.path), p.snap.version));
    forall id | id in p.todo[1..] ensures id < |s.entries| {
      assert id in p.todo;
    }
  }

  lemma CaptureKeeps(r: Reader, s: System)
    requires Inv(r, s)
    ensures Inv(r, Step(r, s, DoCapture))
  {
    var s' := Step(r, s, DoCapture);
    if s' != s {
      var k := |s.history| - 1;
      assert s.history[k].snap == s.core.snap.value && s.history[k].vals == Some(s.core.vals.value);
      assert PublisherInv(r, s, Last(s'.publishers));
      EntriesKeep(r, s, s');
    }
  }

  lemma ArmStepKeeps(r: Reader, s: System, p: nat)
    requires Inv(r, s)
    ensures Inv(r, Step(r, s, DoArm(p)))
  {
    var s' := Step(r, s, DoArm(p));
    if s' != s {
      ArmKeeps(r, s, s.publishers[p]);
      EntriesKeep(r, s, s');
    }
  }

  lemma SendKeeps(r: Reader, s: System, p: nat)
    requires Inv(r, s)
    ensures Inv(r, Step(r, s, DoSend(p)))
  {
    var s' := Step(r, s, DoSend(p));
    if s' != s {
      var (id, u) := s.publishers[p].armed.value;
      assert PublisherInv(r, s, s.publishers[p]);
      assert EntryInv(r, s.history, s.entries[id]);
      assert Held(r, s'.entries[id]) == Held(r, s.entries[id]);
      assert EntryInv(r, s.history, s'.entries[id]);
      assert PublisherInv(r, s, s'.publishers[p]);
      EntriesKeep(r, s, s');
    }
  }

  lemma RegisterKeeps(r: Reader, s: System, b: nat)
    requires Inv(r, s)
    ensures Inv(r, Step(r, s, DoRegister(b)))
  {
    var s' := Step(r, s, DoRegister(b));
    if s' != s {
      assert EntryInv(r, s.history, Last(s'.entries));
      EntriesKeep(r, s, s');
    }
  }

  lemma ConsumedInv(r: Reader, history: seq<Installed>, e: Entry)
    requires EntryInv(r, history, e)
    ensures EntryInv(r, history, Consume(r, e))
  {
    ConsumeKeeps(r, history, e, Consume(r, e));
  }

  lemma ConsumedPath(r: Reader, e: Entry)
    ensures Consume(r, e).w.path == e.w.path
  {
  }

  lemma ReceiveKeeps(r: Reader, s: System, id: nat)
    requires Inv(r, s)
    ensures Inv(r, Step(r, s, DoReceive(id)))
  {
    if id < |s.entries| {
      var e := s.entries[id];
      assert e in s.entries;
      ConsumedInv(r, s.history, e);
      ConsumedPath(r, e);
    }
  }

  lemma UnlistedKeeps(r: Reader, history: seq<Installed>, entries: seq<Entry>, id: nat)
    requires id < |entries| && forall e :: e in entries ==> EntryInv(r, history, e)
    ensures forall e :: e in entries[id := entries[id].(listed := false)] ==> EntryInv(r, history, e)
  {
    assert EntryInv(r, history, entries[id]);
  }

  lemma RemoveKeeps(r: Reader, s: System, id: nat)
    requires Inv(r, s)
    ensures Inv(r, Step(r, s, DoRemove(id)))
  {
    if id < |s.entries| {
      var e := s.entries[id];
      UnlistedKeeps(r, s.history, s.entries, id);
      EntriesKeep(r, s, s.(entries := s.entries[id := e.(listed := false)]));
    }
  }

  /** Every step keeps the invariant. */
  lemma StepKeeps(r: Reader, s: System, a: Action)
    requires Inv(r, s)
    ensures Inv(r, Step(r, s, a))
  {
    match a
    case DoAppend(source, cs) =>
      WorkersKeep(r, s, a);
      InstallKeeps(r, s, Step(r, s, a), []);
    case DoEvent(_, _, _) => CoreStepKeeps(r, s, a);
    case DoReload(_) => CoreStepKeeps(r, s, a);
    case DoSync(_, _) => CoreStepKeeps(r, s, a);
    case DoCapture => CaptureKeeps(r, s);
    case DoArm(p) => ArmStepKeeps(r, s, p);
    case DoSend(p) => SendKeeps(r, s, p);
    case DoReadBaseline(_) =>
    case DoRegister(b) => RegisterKeeps(r, s, b);
    case DoReceive(id) => ReceiveKeeps(r, s, id);
    case DoRemove(id) => RemoveKeeps(r, s, id);
  }

  lemma CoreStepKeepsCore(r: Reader, s: System, a: Action)
    requires CoreInv(r, s)
    requires a.DoEvent? || a.DoReload? || a.DoSync?
    ensures CoreInv(r, Step(r, s, a))
  {
    WorkersKeep(r, s, a);
    var s' := Step(r, s, a);
    if |s'.history| > |s.history| {
      assert s'.history == s.history + [Last(s'.history)];
      assert InstalledInv(r, Last(s'.history));
    }
  }

  lemma CoreStepKeeps(r: Reader, s: System, a: Action)
    requires Inv(r, s)
    requires a.DoEvent? || a.DoReload? || a.DoSync?
    ensures Inv(r, Step(r, s, a))
  {
    var s' := Step(r, s, a);
    CoreStepKeepsCore(r, s, a);
    HistoryStep(r, s, a);
    InstallKeeps(r, s, s', s'.history[|s.history|..]);
  }

  /** The invariant holds after every run from NewLoader. */
  lemma {:induction false} RunInv(r: Reader, sources: seq<SourceId>, actions: seq<Action>)
    ensures Inv(r, Run(r, Start(sources), actions))
  {
    if actions != [] {
      RunInv(r, sources, actions[..|actions| - 1]);
      StepKeeps(r, Run(r, Start(sources), actions[..|actions| - 1]), Last(actions));
    }
  }

  /** History only grows, and an installation touches no watcher. */
  lemma HistoryStep(r: Reader, s: System, a: Action)
    ensures var s' := Step(r, s, a);
            && |s.history| <= |s'.history| <= |s.history| + 1 && s'.history[..|s.history|] == s.history
            && (|s'.history| > |s.history| ==> s'.entries == s.entries)
  {
  }
}
