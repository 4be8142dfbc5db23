/** What every run of the loader guarantees, and where the expected guarantee stops
    (config/loader/memory/memory.go). */
module LoaderTheorems {
  import opened Common
  import opened Reading
  import opened LoaderCore
  import opened LoaderRuns

  // ----- Safety of watchers -----

  /** Some installed snapshot has `d` as its value at `path`. */
  ghost predicate WasInstalled(r: Reader, history: seq<Installed>, path: Path, d: Snapshot) {
    exists k :: 0 <= k < |history| && IsValueAt(r, history[k], path, d)
  }

  lemma ReportsInstalled(r: Reader, s: System, path: Path, d: Snapshot)
    requires CoreInv(r, s) && Reports(r, s.history, path, d)
    ensures WasInstalled(r, s.history, path, d)
  {
    var v: Json :| Published(r, s.history, path, Update(Some(v), d.version)) && d.changeSet == Render(r, v);
    var k :| 0 <= k < |s.history| && Shows(r, s.history[k], path, Update(Some(v), d.version));
    assert s.history[k] in s.history;
    assert IsValueAt(r, s.history[k], path, d);
  }

  /** Whatever the interleaving and the clock, a watcher's accepted versions strictly grow
      from the version at registration; every delivered item is the rendering of the value
      at its path in a snapshot that was installed, under that snapshot's version; and
      consecutive deliveries differ, the first one from the value at registration. */
  lemma WatcherSeesInstalledSnapshots(r: Reader, sources: seq<SourceId>, actions: seq<Action>, s: System, e: Entry)
    requires s == Run(r, Start(sources), actions) && e in s.entries
    ensures Increasing([e.since] + e.accepted)
    ensures forall i, j :: 0 <= i < j < |e.delivered| ==> e.delivered[i].version < e.delivered[j].version
    ensures forall i :: 0 <= i < |e.delivered| ==> e.delivered[i].version in e.accepted
    ensures forall i :: 0 <= i < |e.delivered| ==>
      e.delivered[i].changeSet.data != Before(r.bytes(e.first), e.delivered, i)
    ensures forall i :: 0 <= i < |e.delivered| ==> WasInstalled(r, s.history, e.w.path, e.delivered[i])
  {
    RunInv(r, sources, actions);
    AcceptedGrow(e);
    forall i | 0 <= i < |e.delivered| ensures WasInstalled(r, s.history, e.w.path, e.delivered[i]) {
      DeliveryInstalled(r, s, e, i);
    }
  }

  lemma AcceptedGrow(e: Entry)
    requires Ordered(e)
    ensures Increasing([e.since] + e.accepted)
  {
    forall i, j | 0 <= i < j < |[e.since] + e.accepted|
      ensures ([e.since] + e.accepted)[i] < ([e.since] + e.accepted)[j]
    {
      assert e.accepted[j - 1] in e.accepted;
      assert i > 0 ==> e.accepted[i - 1] < e.accepted[j - 1];
    }
  }

  lemma DeliveryInstalled(r: Reader, s: System, e: Entry, i: nat)
    requires Inv(r, s) && e in s.entries && i < |e.delivered|
    ensures WasInstalled(r, s.history, e.w.path, e.delivered[i])
  {
    assert EntryInv(r, s.history, e);
    assert e.delivered[i] in e.delivered;
    ReportsInstalled(r, s, e.w.path, e.delivered[i]);
  }

  /** `d` carries the version of `h` and the bytes, checksum and format of the value that
      h's own change set has at `path`. */
  ghost predicate IsValueAt(r: Reader, h: Installed, path: Path, d: Snapshot) {
    var vals := r.values(h.snap.changeSet);
    && d.version == h.snap.version
    && vals.Some? && r.get(vals.value, path).Some?
    && var data := r.bytes(r.get(vals.value, path).value);
       d.changeSet == ChangeSet(data, r.sum(data), r.name, "memory")
  }

  // ----- The sets behind the snapshot -----

  /** After every run, however Loads and events interleave: no two workers share an index, each
      stores into the index of its own source, the set there is the last change set it got from
      that source, the values are those of the snapshot, and every snapshot an event or a reload
      installed merges the sets of that moment. */
  lemma {:induction false} SetsFollowSources(r: Reader, sources: seq<SourceId>, actions: seq<Action>)
    ensures var s := Run(r, Start(sources), actions);
            && |s.core.sets| == |s.core.sources| == |s.workers|
            && (forall i, j :: 0 <= i < j < |s.workers| ==> s.workers[i].idx != s.workers[j].idx)
            && (forall w :: w in s.workers ==>
                  && w.idx < |s.core.sets| && s.core.sources[w.idx] == w.source
                  && w.received != [] && s.core.sets[w.idx] == Last(w.received))
            && s.core.vals == (if s.core.snap.Some? then r.values(s.core.snap.value.changeSet) else None)
            && (forall h :: h in s.history && h.kind != BySync ==> r.merge(h.sets) == Some(h.snap.changeSet))
  {
    RunInv(r, sources, actions);
    var s := Run(r, Start(sources), actions);
    forall w | w in s.workers ensures Holds(s.core, w) {
      var i :| 0 <= i < |s.workers| && s.workers[i] == w;
    }
    if s.history != [] {
      assert Last(s.history) in s.history;
    }
    forall h | h in s.history && h.kind != BySync ensures r.merge(h.sets) == Some(h.snap.changeSet) {
      assert InstalledInv(r, h);
    }
  }

  /** A worker keeps its source and its index, and adds to what it got. */
  ghost predicate Continues(w: Worker, w': Worker) {
    w'.source == w.source && w'.idx == w.idx && w.received <= w'.received
  }

  /** A source keeps its index, and what was received from it is never rewritten. */
  lemma {:induction false} IndexesAreStable(r: Reader, s: System, actions: seq<Action>)
    requires Inv(r, s)
    ensures var s' := Run(r, s, actions);
            && Inv(r, s')
            && s.core.sources <= s'.core.sources
            && |s.workers| <= |s'.workers|
            && (forall i :: 0 <= i < |s.workers| ==> Continues(s.workers[i], s'.workers[i]))
            && s.history <= s'.history
  {
    if actions != [] {
      var before := Run(r, s, actions[..|actions| - 1]);
      IndexesAreStable(r, s, actions[..|actions| - 1]);
      StepKeeps(r, before, Last(actions));
    }
  }

  /** Runs that never call Sync. */
  ghost predicate WithoutSync(actions: seq<Action>) {
    forall a :: a in actions ==> !a.DoSync?
  }

  /** Without Sync the snapshot is always the merge of the sets it was installed from. */
  lemma {:induction false} SnapshotMergesSets(r: Reader, sources: seq<SourceId>, actions: seq<Action>)
    requires WithoutSync(actions)
    ensures var s := Run(r, Start(sources), actions);
            && (forall h :: h in s.history ==> h.kind != BySync)
            && (s.core.snap.Some? ==>
                  s.history != [] && r.merge(Last(s.history).sets) == Some(s.core.snap.value.changeSet))
  {
    RunInv(r, sources, actions);
    var s := Run(r, Start(sources), actions);
    if actions != [] {
      SnapshotMergesSets(r, sources, actions[..|actions| - 1]);
    }
    if s.history != [] {
      assert Last(s.history) in s.history;
    }
  }

  // ----- What Sync leaves behind -----

  /** The run without its Syncs. */
  function Erased(actions: seq<Action>): seq<Action> {
    Filter(actions, (a: Action) => !a.DoSync?)
  }

  ghost predicate SameSets(s: System, t: System) {
    s.core.sets == t.core.sets && s.core.sources == t.core.sources && s.workers == t.workers
  }

  /** Merges the sets and installs the result: a successful reload or event. */
  ghost predicate InstallsSets(r: Reader, s: System, a: Action) {
    match a
    case DoReload(_) => Installs(r, s.core.sets)
    case DoEvent(k, cs, _) =>
      k < |s.workers| && s.workers[k].idx < |s.core.sets| && r.merge(s.core.sets[s.workers[k].idx := cs]).Some?
    case _ => false
  }

  lemma SameSetsStep(r: Reader, s: System, t: System, a: Action)
    requires SameSets(s, t)
    ensures SameSets(Step(r, s, a), if a.DoSync? then t else Step(r, t, a))
    ensures InstallsSets(r, s, a) ==> Step(r, s, a).core == Step(r, t, a).core
  {
  }

  /** Erasing every Sync from any run leaves sets, sources and workers as they are. */
  lemma {:induction false} SyncsDoNotTouchSets(r: Reader, s: System, actions: seq<Action>)
    ensures SameSets(Run(r, s, actions), Run(r, s, Erased(actions)))
  {
    if actions != [] {
      var before, last := actions[..|actions| - 1], Last(actions);
      SyncsDoNotTouchSets(r, s, before);
      SameSetsStep(r, Run(r, s, before), Run(r, s, Erased(before)), last);
      assert (Erased(before) + [last])[..|Erased(before)|] == Erased(before);
    }
  }

  lemma {:induction false} SameCoreRun(r: Reader, s: System, t: System, actions: seq<Action>)
    requires s.core == t.core && s.workers == t.workers
    ensures Run(r, s, actions).core == Run(r, t, actions).core
    ensures Run(r, s, actions).workers == Run(r, t, actions).workers
  {
    if actions != [] {
      SameCoreRun(r, s, t, actions[..|actions| - 1]);
    }
  }

  /** And from the first successful reload or event on, the whole core is what it would have been
      without any of the earlier Syncs. */
  lemma {:induction false} SyncLeavesNoTrace(r: Reader, s: System, before: seq<Action>, a: Action, after: seq<Action>)
    requires InstallsSets(r, Run(r, s, before), a)
    ensures Run(r, s, before + ([a] + after)).core == Run(r, s, Erased(before) + ([a] + after)).core
  {
    var s1, t1 := Run(r, s, before), Run(r, s, Erased(before));
    SyncsDoNotTouchSets(r, s, before);
    SameSetsStep(r, s1, t1, a);
    OneThen(r, s1, a, after);
    OneThen(r, t1, a, after);
    SameCoreRun(r, Step(r, s1, a), Step(r, t1, a), after);
    RunConcat(r, s, before, [a] + after);
    RunConcat(r, s, Erased(before), [a] + after);
  }

  lemma OneThen(r: Reader, s: System, a: Action, after: seq<Action>)
    ensures Run(r, s, [a] + after) == Run(r, Step(r, s, a), after)
  {
    RunConcat(r, s, [a], after);
    assert [a][..0] == [];
  }

  /** What a Sync installed stays current until something else is installed, and after that it is
      the current change set exactly when the sets of the last installation merge to what the
      sources read by the Sync merged to. */
  lemma {:induction false} SyncSurvivesIff(r: Reader, s: System, answers: seq<ReadResult>, clock: int,
        after: seq<Action>)
    requires Inv(r, s) && Installs(r, Readable(answers)) && WithoutSync(after)
    ensures var s1 := Step(r, s, DoSync(answers, clock));
            var s' := Run(r, s1, after);
            && s1.core.snap.Some? && s'.core.snap.Some? && |s1.history| <= |s'.history| && s'.history != []
            && if |s'.history| == |s1.history| then s'.core.snap == s1.core.snap
               else s'.core.snap.value.changeSet == s1.core.snap.value.changeSet
                    <==> r.merge(Last(s'.history).sets) == r.merge(Readable(answers))
  {
    var s1 := Step(r, s, DoSync(answers, clock));
    StepKeeps(r, s, DoSync(answers, clock));
    IndexesAreStable(r, s1, after);
    NoSyncInstalls(r, s1, after);
    LastInstallMerges(r, Run(r, s1, after));
  }

  lemma LastInstallMerges(r: Reader, s: System)
    requires CoreInv(r, s) && s.history != []
    ensures s.core.snap == Some(Last(s.history).snap) && Last(s.history) == s.history[|s.history| - 1]
    ensures Last(s.history).kind != BySync ==> r.merge(Last(s.history).sets) == Some(Last(s.history).snap.changeSet)
  {
    assert InstalledInv(r, Last(s.history));
  }

  lemma {:induction false} NoSyncInstalls(r: Reader, s: System, actions: seq<Action>)
    requires WithoutSync(actions)
    ensures var h := Run(r, s, actions).history;
            |s.history| <= |h| && forall k :: |s.history| <= k < |h| ==> h[k].kind != BySync
  {
    if actions != [] {
      assert Last(actions) in actions;
      NoSyncInstalls(r, s, actions[..|actions| - 1]);
    }
  }

  // ----- A watcher that was removed -----

  /** Publisher `p` has nothing for the watcher. */
  ghost predicate Spares(p: Publisher, id: nat) {
    id !in p.todo && (p.armed.Some? ==> p.armed.value.0 != id)
  }

  ghost predicate Unheard(s: System, id: nat, n: nat) {
    && id < |s.entries| && !s.entries[id].listed && n <= |s.publishers|
    && forall p :: n <= p < |s.publishers| ==> Spares(s.publishers[p], id)
  }

  lemma UnheardStep(r: Reader, s: System, a: Action, id: nat, n: nat)
    requires Unheard(s, id, n)
    ensures Unheard(Step(r, s, a), id, n)
  {
    var s' := Step(r, s, a);
    match a
    case DoArm(p) =>
      if s' != s && p >= n {
        assert Spares(s.publishers[p], id);
        assert s.publishers[p].todo[0] in s.publishers[p].todo;
      }
    case DoSend(p) =>
      if p < |s.publishers| && s.publishers[p].armed.Some? && s.publishers[p].armed.value.0 < |s.entries| {
        var (to, u) := s.publishers[p].armed.value;
        assert s'.entries == s.entries[to := s.entries[to].(w := TrySend(s.entries[to].w, u))];
        assert s'.publishers == s.publishers[p := s.publishers[p].(armed := None)];
      }
    case _ =>
  }

  /** Once a watcher is removed no publication that starts later, in any run, has anything for it;
      and the others are still published to. */
  lemma {:induction false} RemovedIsSpared(r: Reader, s: System, id: nat, actions: seq<Action>)
    requires id < |s.entries|
    ensures var s1 := Step(r, s, DoRemove(id));
            && (forall i :: 0 <= i < |s.entries| && i != id ==> s1.entries[i] == s.entries[i])
            && |s1.publishers| == |s.publishers|
            && Unheard(Run(r, s1, actions), id, |s.publishers|)
  {
    if actions != [] {
      RemovedIsSpared(r, s, id, actions[..|actions| - 1]);
      UnheardStep(r, Run(r, Step(r, s, DoRemove(id)), actions[..|actions| - 1]), Last(actions), id, |s.publishers|);
    }
  }

  // ----- A set that does not merge -----

  /** The set at `idx` prevents merging, whatever the others are. */
  ghost predicate Blocks(r: Reader, cs: Option<ChangeSet>, idx: nat) {
    forall sets: seq<Option<ChangeSet>> | idx < |sets| && sets[idx] == cs :: r.merge(sets).None?
  }

  /** One bad set blocks every later reload and event until the worker of its own source stores
      another: nothing is installed but by Sync. */
  lemma {:induction false} BadSetBlocks(r: Reader, s: System, k: nat, actions: seq<Action>)
    requires WorkersInv(s.core, s.workers) && k < |s.workers|
    requires Blocks(r, Last(s.workers[k].received), s.workers[k].idx)
    requires forall a :: a in actions ==> !a.DoSync? && !(a.DoEvent? && a.worker == k)
    ensures var s' := Run(r, s, actions);
            && s'.history == s.history && s'.core.snap == s.core.snap && s'.core.vals == s.core.vals
            && WorkersInv(s'.core, s'.workers) && k < |s'.workers| && s'.workers[k] == s.workers[k]
  {
    if actions != [] {
      var before, last := actions[..|actions| - 1], Last(actions);
      assert last in actions;
      BadSetBlocks(r, s, k, before);
      var s1 := Run(r, s, before);
      WorkersKeep(r, s1, last);
      assert Holds(s1.core, s1.workers[k]);
      BlockedStep(r, s1, k, last);
    }
  }

  lemma BlockedStep(r: Reader, s: System, k: nat, a: Action)
    requires WorkersInv(s.core, s.workers) && k < |s.workers| && Holds(s.core, s.workers[k])
    requires Blocks(r, Last(s.workers[k].received), s.workers[k].idx)
    requires !a.DoSync? && !(a.DoEvent? && a.worker == k)
    ensures var s' := Step(r, s, a);
            s'.history == s.history && s'.core.snap == s.core.snap && s'.core.vals == s.core.vals
  {
    var idx := s.workers[k].idx;
    match a
    case DoReload(_) => assert s.core.sets[idx] == Last(s.workers[k].received);
    case DoEvent(j, cs, _) =>
      if j < |s.workers| && s.workers[j].idx < |s.core.sets| {
        assert s.workers[j].idx != idx;
        assert s.core.sets[s.workers[j].idx := cs][idx] == Last(s.workers[k].received);
      }
    case _ =>
  }
}
