/** The loader's mutable objects (config/loader/memory/memory.go). Every critical section
    is a method proved against the step function of the same name in LoaderCore. */
module LoaderMemory {
  import opened Common
  import opened Reading
  import C = LoaderCore
  import S = LoaderSets

  /** The `watcher` object; `updates` is its channel of capacity one. */
  class Watcher {
    const path: Path
    var value: Json
    var version: int
    var updates: seq<C.Update>
    var exit: bool

    ghost predicate Valid()
      reads this
    {
      |updates| <= 1
    }

    ghost function State(): C.Watcher
      reads this
      requires Valid()
    {
      C.Watcher(path, value, version, if updates == [] then None else Some(updates[0]))
    }

    constructor (path: Path, value: Json, version: int)
      ensures Valid() && State() == C.Watcher(path, value, version, None) && !exit
    {
      this.path, this.value, this.version, updates, exit := path, value, version, [], false;
    }

    method TrySend(u: C.Update)
      requires Valid()
      modifies this`updates
      ensures Valid() && State() == C.TrySend(old(State()), u)
      ensures updates == if old(updates) == [] then [u] else old(updates)
    {
      if updates == [] {
        updates := [u];
      }
    }

    /** The update branch of the select in `Next`. */
    method Receive(r: Reader) returns (out: Option<Snapshot>)
      requires Valid() && updates != []
      modifies this`value, this`version, this`updates
      ensures Valid() && updates == [] && (State(), out) == C.Receive(r, old(State()))
    {
      var uv := updates[0];
      updates := [];
      out := None;
      if uv.version > version && uv.value.Some? {
        version := uv.version;
        if r.bytes(value) != r.bytes(uv.value.value) {
          value := uv.value.value;
          out := Some(Snapshot(ChangeSet(r.bytes(value), r.sum(r.bytes(value)), r.name, "memory"), version));
        }
      }
    }

    /** `Next`. `arrivals` is what publishers send while it waits; of a stopped watcher's pending
        items the select takes at most `patience` before it takes the exit signal. */
    method Next(r: Reader, arrivals: seq<C.Update>, patience: nat)
      returns (out: Option<Snapshot>, used: nat, stopped: bool)
      requires Valid()
      modifies this`value, this`version, this`updates
      ensures Valid()
      ensures C.NextResult(State(), out, used, stopped)
           == C.NextFrom(r, old(State()), arrivals, if exit then Some(patience) else None)
    {
      used := 0;
      ghost var w := State();
      var turns := 0;
      while !(exit && turns == patience) && (updates != [] || used < |arrivals|)
        invariant Valid() && used <= |arrivals| && (exit ==> turns <= patience)
        invariant var rest := C.NextFrom(r, State(), arrivals[used..], if exit then Some(patience - turns) else None);
                  C.NextFrom(r, w, arrivals, if exit then Some(patience) else None) == rest.(used := rest.used + used)
        decreases |arrivals| - used, |updates|
      {
        ghost var left, rest := if exit then Some(patience - turns) else None, arrivals[used..];
        C.NextTurn(r, State(), rest, left, C.Items(State(), rest));
        if updates == [] {
          assert rest[1..] == arrivals[used + 1..];
          TrySend(arrivals[used]);
          used := used + 1;
        }
        turns := turns + 1;
        out := Receive(r);
        if out.Some? {
          stopped := false;
          return;
        }
      }
      out, stopped := None, exit;
    }

    method Stop()
      modifies this`exit
      ensures exit
    {
      if !exit {
        exit := true;
      }
    }
  }

  class Memory {
    const reader: Reader
    const watcherDisabled: bool
    var vals: Option<Json>
    var snap: Option<Snapshot>
    var sets: seq<Option<ChangeSet>>
    var sources: seq<C.SourceId>
    var watchers: seq<Watcher>

    ghost function State(): C.Core
      reads this
    {
      C.Core(vals, snap, sets, sources)
    }

    constructor (reader: Reader, configured: seq<C.SourceId>, watcherDisabled: bool)
      ensures this.reader == reader && this.watcherDisabled == watcherDisabled
      ensures State() == C.Initial(configured) && watchers == []
    {
      this.reader, this.watcherDisabled := reader, watcherDisabled;
      vals, snap, sources, watchers := None, None, configured, [];
      sets := seq(|configured|, i requires 0 <= i < |configured| => Some(ChangeSet("", "", "", configured[i])));
    }

    ghost predicate Installed(merged: ChangeSet, parsed: Option<Json>, clock: int)
      reads this
    {
      snap == Some(Snapshot(merged, clock)) && vals == parsed
    }

    /** The critical section of one turn of `watch`. */
    method SourceEvent(idx: nat, cs: Option<ChangeSet>, clock: int) returns (ok: bool)
      requires idx < |sets|
      modifies this`sets, this`vals, this`snap
      ensures State() == C.SourceEvent(reader, old(State()), idx, cs, clock)
      ensures ok == reader.merge(sets).Some?
      ensures sets == old(sets)[idx := cs]
      ensures ok ==> Installed(reader.merge(sets).value, reader.values(reader.merge(sets).value), clock)
      ensures !ok ==> vals == old(vals) && snap == old(snap)
    {
      sets := sets[idx := cs];
      var merged := reader.merge(sets);
      ok := merged.Some?;
      if ok {
        vals := reader.values(merged.value);
        snap := Some(Snapshot(merged.value, clock));
      }
    }

    /** The critical section of `reload`. */
    method Reload(clock: int) returns (ok: bool)
      modifies this`vals, this`snap
      ensures State() == C.Reload(reader, old(State()), clock)
      ensures ok == C.Installs(reader, sets)
      ensures ok <==> reader.merge(sets).Some? && reader.values(reader.merge(sets).value).Some?
      ensures ok ==> Installed(reader.merge(sets).value, reader.values(reader.merge(sets).value), clock)
      ensures !ok ==> vals == old(vals) && snap == old(snap)
    {
      var merged := reader.merge(sets);
      if merged.None? {
        return false;
      }
      var v := reader.values(merged.value);
      if v.None? {
        return false;
      }
      vals := v;
      snap := Some(Snapshot(merged.value, clock));
      ok := true;
    }

    /** From `c` the merge of `current` was installed, or nothing changed because it has no merge
        or no values. */
    ghost predicate SyncInstalls(c: C.Core, current: seq<Option<ChangeSet>>, clock: int)
      reads this
    {
      var merged := reader.merge(current);
      && sets == c.sets && sources == c.sources
      && if merged.None? || reader.values(merged.value).None? then vals == c.vals && snap == c.snap
         else Installed(merged.value, reader.values(merged.value), clock)
    }

    /** The critical section of `Sync`; `answers` are the sources' Read results. The error
        of a source that cannot be read is reported but does not stop the installation. */
    method Sync(answers: seq<ReadResult>, clock: int) returns (ok: bool)
      requires |answers| == |sources|
      modifies this`vals, this`snap
      ensures State() == C.Sync(reader, old(State()), answers, clock)
      ensures ok == (C.Installs(reader, C.Readable(answers)) && ReadErr !in answers)
      ensures SyncInstalls(old(State()), C.Readable(answers), clock)
    {
      var current: seq<Option<ChangeSet>> := [];
      var failed := false;
      for i := 0 to |sources|
        invariant current == C.Readable(answers[..i])
        invariant failed == (ReadErr in answers[..i])
      {
        assert answers[..i + 1][..i] == answers[..i];
        if answers[i].ReadErr? {
          failed := true;
        } else {
          current := current + [answers[i].read];
        }
      }
      assert answers[..|sources|] == answers;
      var merged := reader.merge(current);
      if merged.None? {
        return false;
      }
      var v := reader.values(merged.value);
      if v.None? {
        return false;
      }
      vals := v;
      snap := Some(Snapshot(merged.value, clock));
      ok := !failed;
    }

    /** The critical section of `Load` for one source; the index is the source's for good. */
    method Append(source: C.SourceId, cs: Option<ChangeSet>) returns (idx: nat)
      modifies this`sets, this`sources
      ensures State() == C.Append(old(State()), source, cs)
      ensures idx + 1 == |sets| && sets == old(sets) + [cs] && sources == old(sources) + [source]
    {
      sources := sources + [source];
      sets := sets + [cs];
      idx := |sets| - 1;
    }

    /** `Load` when nothing else runs: the unreadable sources are skipped, the others are
        appended in order, then everything is merged again. */
    method Load(added: seq<C.SourceId>, answers: seq<ReadResult>, clock: int) returns (ok: bool)
      requires |answers| == |added|
      modifies this`sets, this`sources, this`vals, this`snap
      ensures State() == C.Reload(reader, S.AppendAll(old(State()), added, answers), clock)
      ensures ok == (C.Installs(reader, sets) && ReadErr !in answers)
      ensures exists at :: S.Appended(old(sets), old(sources), sets, sources, added, answers, at)
    {
      ok := true;
      for i := 0 to |added|
        invariant State() == S.AppendAll(old(State()), added[..i], answers[..i])
        invariant ok == (ReadErr !in answers[..i])
      {
        assert added[..i + 1][..i] == added[..i] && answers[..i + 1][..i] == answers[..i];
        if answers[i].ReadErr? {
          ok := false;
        } else {
          var _ := Append(added[i], answers[i].read);
        }
      }
      assert added[..|added|] == added && answers[..|added|] == answers;
      S.AppendAllInOrder(old(State()), added, answers);
      var reloaded := Reload(clock);
      ok := ok && reloaded;
    }

    /** `update` when nothing else runs: every listed watcher is offered the values of the
        snapshot captured at the start. */
    method Update()
      requires Distinct(watchers) && forall w :: w in watchers ==> w.Valid()
      modifies (set w | w in watchers)`updates
      ensures forall w :: w in watchers ==> w.Valid()
      ensures vals.Some? && snap.Some? ==>
        forall w :: w in watchers ==> w.State() == C.Offer(reader, old(w.State()), vals.value, snap.value.version)
      ensures vals.None? || snap.None? ==> forall w :: w in watchers ==> w.State() == old(w.State())
      ensures vals.Some? && snap.Some? ==> forall w :: w in watchers ==>
        w.updates == if old(w.updates) == [] && snap.value.version > w.version
                     then [C.Update(reader.get(vals.value, w.path), snap.value.version)] else old(w.updates)
    {
      if vals.None? || snap.None? {
        return;
      }
      var captured, capturedVals, capturedSnap := watchers, vals.value, snap.value;
      for i := 0 to |captured|
        invariant forall w :: w in captured ==> w.Valid()
        invariant forall k :: 0 <= k < i ==>
          captured[k].State() == C.Offer(reader, old(captured[k].State()), capturedVals, capturedSnap.version)
        invariant forall k :: i <= k < |captured| ==> captured[k].State() == old(captured[k].State())
      {
        var w := captured[i];
        if capturedSnap.version > w.version {
          w.TrySend(C.Update(reader.get(capturedVals, w.path), capturedSnap.version));
        }
      }
    }

    /** The registration half of `Watch`: the baseline `value` was read earlier, the version
        is the one current now. */
    method Register(path: Path, value: Json) returns (w: Watcher)
      requires snap.Some?
      modifies this`watchers
      ensures fresh(w) && w.Valid() && watchers == old(watchers) + [w]
      ensures w.State() == C.Watcher(path, value, snap.value.version, None)
    {
      w := new Watcher(path, value, snap.value.version);
      watchers := watchers + [w];
    }

    /** The removal that follows `Stop`. */
    method Remove(w: Watcher)
      modifies this`watchers
      ensures watchers == Filter(old(watchers), x => x != w)
      ensures forall x :: x in watchers <==> x in old(watchers) && x != w
    {
      var kept: seq<Watcher> := [];
      for i := 0 to |watchers|
        invariant kept == Filter(watchers[..i], x => x != w)
      {
        assert watchers[..i + 1][..i] == watchers[..i];
        if watchers[i] != w {
          kept := kept + [watchers[i]];
        }
      }
      assert watchers[..|watchers|] == watchers;
      FilterIsExact(watchers, x => x != w);
      watchers := kept;
    }
  }
}
