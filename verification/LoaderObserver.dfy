/** A watcher that is given the time to take over each snapshot before the next is installed is a
    synchronous observer of the value at its path, whatever else happens; one that is not given
    it is not (config/loader/memory/memory.go:170-203, 364-382, 398-440). */
module LoaderObserver {
  import opened Common
  import opened Reading
  import opened LoaderCore
  import opened LoaderRuns
  import opened LoaderTheorems

  // ----- What an observer sees -----

  function Data(delivered: seq<Snapshot>): (d: seq<string>)
    ensures |d| == |delivered|
  {
    seq(|delivered|, i requires 0 <= i < |delivered| => delivered[i].changeSet.data)
  }

  /** The bytes of the values at `path` in the snapshots `history[from..]`. */
  ghost function ValuesAt(r: Reader, history: seq<Installed>, from: nat, path: Path): seq<string>
    requires from <= |history|
  {
    seq(|history| - from, i requires 0 <= i < |history| - from =>
      var vals := history[from + i].vals;
      if vals.Some? && r.get(vals.value, path).Some? then r.bytes(r.get(vals.value, path).value) else "")
  }

  /** `xs` without the elements equal to their predecessor, `start` preceding the first. */
  function Changes(start: string, xs: seq<string>): seq<string> {
    if xs == [] then [] else
    var previous := if |xs| == 1 then start else xs[|xs| - 2];
    Changes(start, xs[..|xs| - 1]) + if Last(xs) == previous then [] else [Last(xs)]
  }

  lemma ValuesAtGrows(r: Reader, history: seq<Installed>, h: Installed, from: nat, path: Path)
    requires from <= |history| && h.vals.Some? && r.get(h.vals.value, path).Some?
    ensures ValuesAt(r, history + [h], from, path)
         == ValuesAt(r, history, from, path) + [r.bytes(r.get(h.vals.value, path).value)]
  {
  }

  // ----- Paced runs -----

  ghost predicate CurrentIsNewest(s: System) {
    s.history != [] && forall h :: h in s.history ==> h.snap.version <= Last(s.history).snap.version
  }

  /** The watcher has moved to the version of the current snapshot. */
  ghost predicate CaughtUp(s: System, id: nat) {
    id < |s.entries| && s.history != [] && s.entries[id].w.version == Last(s.history).snap.version
  }

  ghost predicate HasValue(r: Reader, h: Installed, path: Path) {
    h.vals.Some? && r.get(h.vals.value, path).Some?
  }

  /** If the step installs, the watcher had caught up, the version grows, and the new values have
      the watcher's path. */
  ghost predicate PacedStep(r: Reader, s: System, a: Action, id: nat) {
    var s' := Step(r, s, a);
    |s'.history| > |s.history| ==>
      && CaughtUp(s, id)
      && Last(s'.history).snap.version > Last(s.history).snap.version
      && HasValue(r, Last(s'.history), s.entries[id].w.path)
  }

  /** All other steps are free: publishers may overlap, stall and send late, other watchers,
      sources and registrations may come and go, events may fail. */
  ghost predicate Paced(r: Reader, s: System, actions: seq<Action>, id: nat) {
    actions != [] ==>
      var before := actions[..|actions| - 1];
      Paced(r, s, before, id) && PacedStep(r, Run(r, s, before), Last(actions), id)
  }

  /** From `e` to `e'` the watcher delivered the run `seen` with equal neighbours collapsed, and
      holds the last of it. */
  ghost predicate Told(r: Reader, e: Entry, e': Entry, seen: seq<string>) {
    && Data(e'.delivered) == Data(e.delivered) + Changes(Held(r, e), seen)
    && Held(r, e') == if seen == [] then Held(r, e) else Last(seen)
  }

  /** The watcher has told of all that was installed at its path since `s`, or of all but the
      last. */
  ghost predicate Follows(r: Reader, s: System, s': System, id: nat)
    requires id < |s.entries|
  {
    && |s.history| <= |s'.history| && id < |s'.entries| && s'.entries[id].w.path == s.entries[id].w.path
    && var e, e' := s.entries[id], s'.entries[id];
       var seen := ValuesAt(r, s'.history, |s.history|, e.w.path);
       if CaughtUp(s', id) then Told(r, e, e', seen) else seen != [] && Told(r, e, e', seen[..|seen| - 1])
  }

  /** A watcher that has not caught up lacks only the last snapshot, which has its path. */
  ghost predicate OneBehind(r: Reader, s: System, id: nat)
    requires id < |s.entries|
  {
    && s.history != []
    && HasValue(r, Last(s.history), s.entries[id].w.path)
    && forall k :: 0 <= k < |s.history| - 1 ==> s.history[k].snap.version <= s.entries[id].w.version
  }

  ghost predicate FollowsInv(r: Reader, s: System, s': System, id: nat)
    requires id < |s.entries|
  {
    && Follows(r, s, s', id) && CurrentIsNewest(s') && Inv(r, s')
    && (!CaughtUp(s', id) ==> OneBehind(r, s', id))
  }

  /** A step that neither installs nor lets the watcher take anything. */
  lemma IdleStep(r: Reader, s: System, s1: System, s2: System, id: nat)
    requires id < |s.entries| && FollowsInv(r, s, s1, id) && Inv(r, s2)
    requires s2.history == s1.history && |s1.entries| <= |s2.entries|
    requires var e1, e2 := s1.entries[id], s2.entries[id];
             e2.w.path == e1.w.path && e2.w.version == e1.w.version &&
             e2.delivered == e1.delivered && e2.first == e1.first
    ensures FollowsInv(r, s, s2, id)
  {
    assert CaughtUp(s2, id) == CaughtUp(s1, id);
    assert Held(r, s2.entries[id]) == Held(r, s1.entries[id]);
  }

  lemma InstallStep(r: Reader, s: System, s1: System, s2: System, id: nat)
    requires id < |s.entries| && FollowsInv(r, s, s1, id) && Inv(r, s2)
    requires s2.entries == s1.entries && |s2.history| == |s1.history| + 1 && s1.history == s2.history[..|s1.history|]
    requires CaughtUp(s1, id) && Last(s2.history).snap.version > Last(s1.history).snap.version
    requires HasValue(r, Last(s2.history), s.entries[id].w.path)
    ensures FollowsInv(r, s, s2, id)
  {
    var path, h := s.entries[id].w.path, Last(s2.history);
    assert s2.history == s1.history + [h];
    ValuesAtGrows(r, s1.history, h, |s.history|, path);
    var seen := ValuesAt(r, s1.history, |s.history|, path);
    assert ValuesAt(r, s2.history, |s.history|, path)[..|seen|] == seen;
    forall k | 0 <= k < |s2.history| - 1 ensures s2.history[k].snap.version <= s2.entries[id].w.version {
      assert s2.history[k] in s1.history;
    }
  }

  /** What the watcher takes can only be the snapshot it lacks. */
  lemma TakenIsLast(r: Reader, s: System, id: nat)
    requires Inv(r, s) && CurrentIsNewest(s) && id < |s.entries|
    requires !CaughtUp(s, id) ==> OneBehind(r, s, id)
    requires s.entries[id].w.pending.Some? && Wants(s.entries[id].w, s.entries[id].w.pending.value.version)
    ensures !CaughtUp(s, id)
    ensures s.entries[id].w.pending.value
         == Update(r.get(Last(s.history).vals.value, s.entries[id].w.path), Last(s.history).snap.version)
  {
    var e := s.entries[id];
    assert e in s.entries && EntryInv(r, s.history, e);
    var k :| 0 <= k < |s.history| && Shows(r, s.history[k], e.w.path, e.w.pending.value);
    assert s.history[k] in s.history;
  }

  /** One turn that moves to a new version. */
  lemma ConsumeTells(r: Reader, e: Entry, e': Entry)
    requires e' == Consume(r, e) && Changing(r, e) && e'.w.version != e.w.version
    ensures e.w.pending.Some? && e.w.pending.value.value.Some?
    ensures var x := r.bytes(e.w.pending.value.value.value);
            && Held(r, e') == x
            && Data(e'.delivered) == Data(e.delivered) + if x == Held(r, e) then [] else [x]
  {
    ConsumeChanging(r, e, e');
    if e'.delivered != e.delivered {
      assert e'.delivered == e.delivered + [Last(e'.delivered)];
    }
  }

  lemma MovesTo(r: Reader, e: Entry, e1: Entry, e2: Entry, last: Installed, seen: seq<string>)
    requires seen != [] && Told(r, e, e1, seen[..|seen| - 1])
    requires HasValue(r, last, e1.w.path) && Last(seen) == r.bytes(r.get(last.vals.value, e1.w.path).value)
    requires e2 == Consume(r, e1) && Changing(r, e1) && e2.w.version != e1.w.version
    requires e1.w.pending == Some(Update(r.get(last.vals.value, e1.w.path), last.snap.version))
    ensures Told(r, e, e2, seen) && e2.w.version == last.snap.version && e2.w.path == e1.w.path
  {
    ConsumeTells(r, e1, e2);
    assert seen[..|seen| - 1] + [Last(seen)] == seen;
  }

  lemma LastSeen(r: Reader, history: seq<Installed>, from: nat, path: Path)
    requires from < |history| && HasValue(r, Last(history), path)
    ensures ValuesAt(r, history, from, path) != []
    ensures Last(ValuesAt(r, history, from, path)) == r.bytes(r.get(Last(history).vals.value, path).value)
  {
  }

  lemma MovesToLast(r: Reader, s: System, s1: System, s2: System, id: nat)
    requires id < |s.entries| && Follows(r, s, s1, id) && !CaughtUp(s1, id) && OneBehind(r, s1, id)
    requires s2.history == s1.history && id < |s2.entries| && s2.entries[id] == Consume(r, s1.entries[id])
    requires Changing(r, s1.entries[id]) && s2.entries[id].w.version != s1.entries[id].w.version
    requires s1.entries[id].w.pending
          == Some(Update(r.get(Last(s1.history).vals.value, s1.entries[id].w.path), Last(s1.history).snap.version))
    ensures Follows(r, s, s2, id) && CaughtUp(s2, id)
  {
    var e1, last := s1.entries[id], Last(s1.history);
    var seen := ValuesAt(r, s1.history, |s.history|, s.entries[id].w.path);
    LastSeen(r, s1.history, |s.history|, s.entries[id].w.path);
    MovesTo(r, s.entries[id], e1, s2.entries[id], last, seen);
  }

  lemma ReceiveStep(r: Reader, s: System, s1: System, s2: System, id: nat)
    requires id < |s.entries| && FollowsInv(r, s, s1, id) && Inv(r, s2)
    requires s2 == Step(r, s1, DoReceive(id))
    ensures FollowsInv(r, s, s2, id)
  {
    if s2.entries[id].w.version == s1.entries[id].w.version {
      IdleStep(r, s, s1, s2, id);
    } else {
      TakenIsLast(r, s1, id);
      EntryChanges(r, s1, id);
      MovesToLast(r, s, s1, s2, id);
    }
  }

  lemma EntryChanges(r: Reader, s: System, id: nat)
    requires Inv(r, s) && id < |s.entries|
    ensures Changing(r, s.entries[id])
  {
    assert s.entries[id] in s.entries;
    assert EntryInv(r, s.history, s.entries[id]);
  }

  lemma SendUpdates(r: Reader, s: System, p: nat, id: nat)
    requires id < |s.entries|
    ensures var s' := Step(r, s, DoSend(p));
            && |s'.entries| == |s.entries|
            && s'.entries[id].(w := s.entries[id].w) == s.entries[id]
            && s'.entries[id].w.(pending := s.entries[id].w.pending) == s.entries[id].w
  {
    if p < |s.publishers| && s.publishers[p].armed.Some? {
      var u := s.publishers[p].armed.value.1;
      assert TrySend(s.entries[id].w, u).(pending := s.entries[id].w.pending) == s.entries[id].w;
    }
  }

  /** An entry keeps its path and its registration. */
  lemma EntryStays(r: Reader, s: System, a: Action, id: nat)
    requires id < |s.entries|
    ensures var s' := Step(r, s, a);
            && |s.entries| <= |s'.entries|
            && s'.entries[id].w.path == s.entries[id].w.path && s'.entries[id].first == s.entries[id].first
  {
    var s' := Step(r, s, a);
    if a.DoSend? {
      SendUpdates(r, s, a.p, id);
    } else if a.DoReceive? && s' != s {
      assert s'.entries == s.entries[a.id := Consume(r, s.entries[a.id])];
    } else if a.DoRegister? && s' != s {
      assert s'.entries == s.entries + [Last(s'.entries)];
    } else if a.DoRemove? && s' != s {
      assert s'.entries == s.entries[a.id := s.entries[a.id].(listed := false)];
    } else {
      assert s'.entries == s.entries;
    }
  }

  lemma EntryStep(r: Reader, s: System, a: Action, id: nat)
    requires id < |s.entries| && a != DoReceive(id)
    ensures var s' := Step(r, s, a);
            && |s.entries| <= |s'.entries|
            && s'.entries[id].w.version == s.entries[id].w.version
            && s'.entries[id].delivered == s.entries[id].delivered
  {
    EntryStays(r, s, a, id);
    match a
    case DoSend(p) => SendUpdates(r, s, p, id);
    case DoReceive(i) =>
    case DoRemove(i) =>
    case DoRegister(b) =>
    case _ =>
  }

  lemma PacedStepKeeps(r: Reader, s: System, s1: System, a: Action, id: nat)
    requires id < |s.entries| && FollowsInv(r, s, s1, id) && PacedStep(r, s1, a, id)
    ensures FollowsInv(r, s, Step(r, s1, a), id)
  {
    var s2 := Step(r, s1, a);
    StepKeeps(r, s1, a);
    HistoryStep(r, s1, a);
    if |s2.history| > |s1.history| {
      InstallStep(r, s, s1, s2, id);
    } else if a == DoReceive(id) {
      ReceiveStep(r, s, s1, s2, id);
    } else {
      EntryStep(r, s1, a, id);
      EntryStays(r, s1, a, id);
      IdleStep(r, s, s1, s2, id);
    }
  }

  /** The refinement, for all runs: if at each installation the watcher has caught up with the
      snapshot before, the versions grow and the values have its path, then whenever it has caught
      up it has delivered exactly the run of values installed at its path, with equal neighbours
      collapsed, and holds the current one; otherwise it lacks just the last. */
  lemma {:induction false} PacedWatcherIsSynchronous(r: Reader, s: System, actions: seq<Action>, id: nat)
    requires Inv(r, s) && CurrentIsNewest(s) && CaughtUp(s, id)
    requires Paced(r, s, actions, id)
    ensures FollowsInv(r, s, Run(r, s, actions), id)
  {
    if actions == [] {
      assert ValuesAt(r, s.history, |s.history|, s.entries[id].w.path) == [];
      assert Data(s.entries[id].delivered) + [] == Data(s.entries[id].delivered);
    } else {
      PacedWatcherIsSynchronous(r, s, actions[..|actions| - 1], id);
      PacedStepKeeps(r, s, Run(r, s, actions[..|actions| - 1]), Last(actions), id);
    }
  }

  /** A watcher that has caught up holds the bytes that are current at its path. */
  lemma HeldIsCurrent(r: Reader, s: System, s': System, id: nat)
    requires id < |s.entries| && FollowsInv(r, s, s', id) && CaughtUp(s', id) && |s'.history| > |s.history|
    requires HasValue(r, Last(s'.history), s.entries[id].w.path)
    ensures s'.core.vals.Some? && r.get(s'.core.vals.value, s.entries[id].w.path).Some?
    ensures Held(r, s'.entries[id]) == r.bytes(r.get(s'.core.vals.value, s.entries[id].w.path).value)
  {
    assert Last(s'.history) == s'.history[|s'.history| - 1];
  }

  lemma {:induction false} LastHasValue(r: Reader, s: System, actions: seq<Action>, id: nat, path: Path)
    requires Paced(r, s, actions, id) && id < |s.entries| && s.entries[id].w.path == path
    ensures var s' := Run(r, s, actions);
            && |s.history| <= |s'.history| && |s.entries| <= |s'.entries| && s'.entries[id].w.path == path
            && if |s'.history| > |s.history| then HasValue(r, Last(s'.history), path) else s'.history == s.history
  {
    if actions != [] {
      var before := actions[..|actions| - 1];
      var s1 := Run(r, s, before);
      LastHasValue(r, s, before, id, path);
      HistoryStep(r, s1, Last(actions));
      EntryStays(r, s1, Last(actions), id);
    }
  }

  // ----- Registration -----

  /** `Watch` with nothing between its two critical sections. */
  function Registered(r: Reader, s: System, path: Path): System {
    Step(r, Step(r, s, DoReadBaseline(path)), DoRegister(|s.baselines|))
  }

  lemma RegisteredEntry(r: Reader, s: System, path: Path)
    requires s.core.vals.Some? && s.core.snap.Some? && r.get(s.core.vals.value, path).Some?
    ensures var s1 := Registered(r, s, path);
            && s1.core == s.core && s1.history == s.history && |s1.entries| == |s.entries| + 1
            && s1.entries[|s.entries|]
               == Entry(Watcher(path, r.get(s.core.vals.value, path).value, s.core.snap.value.version, None),
                        r.get(s.core.vals.value, path).value, s.core.snap.value.version, [], [], true)
  {
  }

  /** For a watcher registered in any reachable state whose current snapshot is the newest, its
      baseline read and its registration done together, and any paced run from there: whenever it
      has caught up it has delivered exactly the changes of the values installed since, and the
      bytes it holds are those of the current value. */
  lemma {:induction false} RegisteredWatcherIsSynchronous(r: Reader, sources: seq<SourceId>, actions: seq<Action>,
        path: Path, s: System, more: seq<Action>)
    requires s == Run(r, Start(sources), actions) && CurrentIsNewest(s)
    requires s.core.vals.Some? && r.get(s.core.vals.value, path).Some?
    requires Paced(r, Registered(r, s, path), more, |s.entries|)
    ensures var s' := Run(r, Registered(r, s, path), more);
            var current := r.bytes(r.get(s.core.vals.value, path).value);
            && |s.entries| < |s'.entries| && |s.history| <= |s'.history|
            && var e, seen := s'.entries[|s.entries|], ValuesAt(r, s'.history, |s.history|, path);
               if CaughtUp(s', |s.entries|)
               then Data(e.delivered) == Changes(current, seen)
                    && s'.core.vals.Some? && r.get(s'.core.vals.value, path).Some?
                    && r.bytes(e.w.value) == r.bytes(r.get(s'.core.vals.value, path).value)
               else seen != [] && Data(e.delivered) == Changes(current, seen[..|seen| - 1])
  {
    RunInv(r, sources, actions);
    var s1, id := Registered(r, s, path), |s.entries|;
    var s' := Run(r, s1, more);
    RegisteredEntry(r, s, path);
    StepKeeps(r, s, DoReadBaseline(path));
    StepKeeps(r, Step(r, s, DoReadBaseline(path)), DoRegister(|s.baselines|));
    PacedWatcherIsSynchronous(r, s1, more, id);
    LastHasValue(r, s1, more, id, path);
    assert Data(s1.entries[id].delivered) == [];
    assert s'.entries[id] in s'.entries && EntryInv(r, s'.history, s'.entries[id]);
    if CaughtUp(s', id) && |s'.history| > |s.history| {
      HeldIsCurrent(r, s1, s', id);
    }
  }

  /** A run without installations is paced. */
  lemma {:induction false} InstallFreeIsPaced(r: Reader, s: System, actions: seq<Action>, id: nat)
    requires |Run(r, s, actions).history| == |s.history|
    ensures Paced(r, s, actions, id) && Run(r, s, actions).history == s.history
  {
    if actions != [] {
      var before := actions[..|actions| - 1];
      HistoryGrows(r, s, before);
      HistoryStep(r, Run(r, s, before), Last(actions));
      InstallFreeIsPaced(r, s, before, id);
    }
  }

  lemma {:induction false} HistoryGrows(r: Reader, s: System, actions: seq<Action>)
    ensures |s.history| <= |Run(r, s, actions).history|
  {
    if actions != [] {
      HistoryGrows(r, s, actions[..|actions| - 1]);
      HistoryStep(r, Run(r, s, actions[..|actions| - 1]), Last(actions));
    }
  }

  /** When the registration comes later than the read of the baseline `b`, and as long as nothing
      is installed after it, nothing is ever delivered, whatever is still in flight; so the watcher
      holds the current value exactly when the baseline has that value's bytes. */
  lemma {:induction false} RegistrationIsCurrentIff(r: Reader, sources: seq<SourceId>, actions: seq<Action>, s: System,
                                 b: nat, more: seq<Action>)
    requires s == Run(r, Start(sources), actions) && CurrentIsNewest(s) && b < |s.baselines|
    requires |Run(r, Step(r, s, DoRegister(b)), more).history| == |s.history|
    ensures var s' := Run(r, Step(r, s, DoRegister(b)), more);
            var path := s.baselines[b].path;
            && |s.entries| < |s'.entries| && s'.history == s.history
            && var e := s'.entries[|s.entries|];
               && e.delivered == [] && e.w.path == path
               && (s'.core.vals.Some? && r.get(s'.core.vals.value, path).Some? ==>
                     var current := r.bytes(r.get(s'.core.vals.value, path).value);
                     (r.bytes(e.w.value) == current <==> r.bytes(s.baselines[b].value) == current))
  {
    RunInv(r, sources, actions);
    var s1, id := Step(r, s, DoRegister(b)), |s.entries|;
    var s' := Run(r, s1, more);
    StepKeeps(r, s, DoRegister(b));
    InstallFreeIsPaced(r, s1, more, id);
    PacedWatcherIsSynchronous(r, s1, more, id);
    FirstStays(r, s1, more, id);
    assert |Data(s'.entries[id].delivered)| == 0;
    assert s'.entries[id] in s'.entries && EntryInv(r, s'.history, s'.entries[id]);
  }

  lemma {:induction false} FirstStays(r: Reader, s: System, actions: seq<Action>, id: nat)
    requires id < |s.entries|
    ensures id < |Run(r, s, actions).entries| && Run(r, s, actions).entries[id].first == s.entries[id].first
  {
    if actions != [] {
      FirstStays(r, s, actions[..|actions| - 1], id);
      EntryStays(r, Run(r, s, actions[..|actions| - 1]), Last(actions), id);
    }
  }

  // ----- One slot -----

  /** Nothing is sent to the watcher. */
  ghost predicate Quiet(r: Reader, s: System, actions: seq<Action>, id: nat) {
    actions != [] ==>
      var before := actions[..|actions| - 1];
      Quiet(r, s, before, id) && !SendsTo(Run(r, s, before), Last(actions), id)
  }

  ghost predicate SendsTo(s: System, a: Action, id: nat) {
    a.DoSend? && a.p < |s.publishers| && s.publishers[a.p].armed.Some? && s.publishers[a.p].armed.value.0 == id
  }

  /** A stale item keeps a newer one out: once publisher `p` has sent `u` and the watcher has then
      taken what its slot held, it has moved to the version of `u` exactly when the send found the
      slot empty, or holding an item of that same version. Installations, other publications and
      other watchers may interleave in any way. */
  lemma {:induction false} SentIsTakenIff(r: Reader, s: System, p: nat, id: nat, u: Update, actions: seq<Action>)
    requires id < |s.entries| && p < |s.publishers| && s.publishers[p].armed == Some((id, u))
    requires u.value.Some? && Wants(s.entries[id].w, u.version)
    requires Quiet(r, Step(r, s, DoSend(p)), actions, id) && DoReceive(id) in actions
    ensures var s' := Run(r, Step(r, s, DoSend(p)), actions);
            var slot := s.entries[id].w.pending;
            && id < |s'.entries| && s'.entries[id].w.pending.None?
            && (s'.entries[id].w.version == u.version <==>
                  slot.None? || (slot.value.version == u.version && slot.value.value.Some?))
  {
    Drained(r, Step(r, s, DoSend(p)), actions, id);
  }

  /** The watcher is not sent to: its slot is as it was, or has been taken. */
  lemma QuietStep(r: Reader, s: System, a: Action, id: nat)
    requires id < |s.entries| && !SendsTo(s, a, id)
    ensures var s' := Step(r, s, a);
            && id < |s'.entries|
            && s'.entries[id].w == if a == DoReceive(id) then Receive(r, s.entries[id].w).0 else s.entries[id].w
  {
    match a
    case DoSend(p) =>
    case DoReceive(i) =>
    case DoRemove(i) =>
    case DoRegister(b) =>
    case _ =>
  }

  /** A second turn finds nothing. */
  lemma ReceiveTwice(r: Reader, w: Watcher)
    ensures Receive(r, Receive(r, w).0).0 == Receive(r, w).0
  {
  }

  lemma {:induction false} Drained(r: Reader, s: System, actions: seq<Action>, id: nat)
    requires id < |s.entries| && Quiet(r, s, actions, id)
    ensures id < |Run(r, s, actions).entries|
    ensures DoReceive(id) in actions ==> Run(r, s, actions).entries[id].w == Receive(r, s.entries[id].w).0
    ensures DoReceive(id) !in actions ==> Run(r, s, actions).entries[id].w == s.entries[id].w
  {
    if actions != [] {
      var before := actions[..|actions| - 1];
      Drained(r, s, before, id);
      QuietStep(r, Run(r, s, before), Last(actions), id);
      ReceiveTwice(r, s.entries[id].w);
      InConcat(before, Last(actions), DoReceive(id));
      assert actions == before + [Last(actions)];
    }
  }

  lemma InConcat(before: seq<Action>, last: Action, a: Action)
    ensures a in before + [last] <==> a in before || a == last
  {
  }

  // ----- Without draining -----

  /** The first item that is sent to the watcher. */
  ghost function FirstSent(r: Reader, s: System, actions: seq<Action>, id: nat): Option<Update> {
    if actions == [] then None else
    var before, a := actions[..|actions| - 1], Last(actions);
    var sent, s1 := FirstSent(r, s, before, id), Run(r, s, before);
    if sent.None? && SendsTo(s1, a, id) then Some(s1.publishers[a.p].armed.value.1) else sent
  }

  /** What stands in the watcher's slot if it does not call `Next`: the item that was there, or
      the first one sent. */
  ghost function Oldest(r: Reader, s: System, actions: seq<Action>, id: nat): Option<Update>
    requires id < |s.entries|
  {
    var slot := s.entries[id].w.pending;
    if slot.Some? then slot else FirstSent(r, s, actions, id)
  }

  /** In any run in which the watcher takes nothing its slot keeps the oldest item, and all later
      ones are lost. */
  lemma {:induction false} UndrainedKeepsOldest(r: Reader, s: System, actions: seq<Action>, id: nat)
    requires id < |s.entries| && DoReceive(id) !in actions
    ensures var s' := Run(r, s, actions);
            && id < |s'.entries|
            && s'.entries[id].w == s.entries[id].w.(pending := Oldest(r, s, actions, id))
            && s'.entries[id].delivered == s.entries[id].delivered
  {
    if actions != [] {
      var before := actions[..|actions| - 1];
      InConcat(before, Last(actions), DoReceive(id));
      assert actions == before + [Last(actions)];
      UndrainedKeepsOldest(r, s, before, id);
      EntryStep(r, Run(r, s, before), Last(actions), id);
      UndrainedStep(r, Run(r, s, before), Last(actions), id);
    }
  }

  lemma UndrainedStep(r: Reader, s: System, a: Action, id: nat)
    requires id < |s.entries| && a != DoReceive(id)
    ensures var s', w := Step(r, s, a), s.entries[id].w;
            && id < |s'.entries|
            && s'.entries[id].w == if SendsTo(s, a, id) then TrySend(w, s.publishers[a.p].armed.value.1) else w
  {
    if SendsTo(s, a, id) {
      var u := s.publishers[a.p].armed.value.1;
      assert Step(r, s, a).entries == s.entries[id := s.entries[id].(w := TrySend(s.entries[id].w, u))];
    } else {
      QuietStep(r, s, a, id);
    }
  }

  /** So a watcher that takes its slot only after such a run delivers at most the oldest item, the
      value of an installed snapshot, and is current exactly when the current value has the bytes
      of that item, or those it held if the item is none for it: whatever else was sent does not
      matter. */
  lemma {:induction false} UndrainedIsCurrentIff(r: Reader, s: System, actions: seq<Action>, id: nat, oldest: Update)
    requires Inv(r, s) && id < |s.entries| && DoReceive(id) !in actions
    requires Oldest(r, s, actions, id) == Some(oldest)
    ensures var s' := Step(r, Run(r, s, actions), DoReceive(id));
            && id < |s'.entries| && Published(r, s'.history, s.entries[id].w.path, oldest)
            && var e, e' := s.entries[id], s'.entries[id];
               var taken := oldest.value.Some? && oldest.version > e.w.version;
               var bytes := if taken then r.bytes(oldest.value.value) else Held(r, e);
               && e'.w.pending.None?
               && e'.w.version == (if taken then oldest.version else e.w.version)
               && Data(e'.delivered) == Data(e.delivered) + (if bytes == Held(r, e) then [] else [bytes])
               && (s'.core.vals.Some? && r.get(s'.core.vals.value, e.w.path).Some? ==>
                     var current := r.bytes(r.get(s'.core.vals.value, e.w.path).value);
                     (r.bytes(e'.w.value) == current <==> bytes == current))
  {
    var s1 := Run(r, s, actions);
    UndrainedKeepsOldest(r, s, actions, id);
    RunKeeps(r, s, actions);
    EntryChanges(r, s, id);
    TakesPending(r, s1, id);
    OldestIsTaken(r, s.entries[id], s1.entries[id], oldest);
  }

  lemma TakesPending(r: Reader, s: System, id: nat)
    requires Inv(r, s) && id < |s.entries| && s.entries[id].w.pending.Some?
    ensures var s' := Step(r, s, DoReceive(id));
            && s'.core == s.core && s'.history == s.history
            && id < |s'.entries| && s'.entries[id] == Consume(r, s.entries[id])
            && Published(r, s.history, s.entries[id].w.path, s.entries[id].w.pending.value)
  {
    assert s.entries[id] in s.entries;
    assert EntryInv(r, s.history, s.entries[id]);
  }

  /** What one turn makes of a watcher that only differs from `e` in its slot. */
  lemma OldestIsTaken(r: Reader, e: Entry, e1: Entry, oldest: Update)
    requires Changing(r, e) && e1.w == e.w.(pending := Some(oldest)) && e1.delivered == e.delivered
    ensures var e' := Consume(r, e1);
            var taken := oldest.value.Some? && oldest.version > e.w.version;
            var bytes := if taken then r.bytes(oldest.value.value) else Held(r, e);
            && e'.w.pending.None? && r.bytes(e'.w.value) == bytes
            && e'.w.version == (if taken then oldest.version else e.w.version)
            && Data(e'.delivered) == Data(e.delivered) + (if bytes == Held(r, e) then [] else [bytes])
  {
    var e' := Consume(r, e1);
    assert r.bytes(e.w.value) == Held(r, e);
  }

  lemma {:induction false} RunKeeps(r: Reader, s: System, actions: seq<Action>)
    requires Inv(r, s)
    ensures Inv(r, Run(r, s, actions))
  {
    if actions != [] {
      RunKeeps(r, s, actions[..|actions| - 1]);
      StepKeeps(r, Run(r, s, actions[..|actions| - 1]), Last(actions));
    }
  }
}
