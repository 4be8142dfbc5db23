/** One schedule that keeps a watcher up to date: each installation is published without
    interference and taken at once (config/loader/memory/memory.go:170-203, 416-439). */
module LoaderRounds {
  import opened Common
  import opened Reading
  import opened LoaderCore
  import opened LoaderRuns
  import opened LoaderObserver

  // ----- One publication, uninterrupted -----

  /** `n` turns of the loop of the publisher with index `p`. */
  function PublishSteps(p: nat, n: nat): seq<Action> {
    if n == 0 then [] else PublishSteps(p, n - 1) + [DoArm(p), DoSend(p)]
  }

  lemma RunTwo(r: Reader, s: System, pre: seq<Action>, a: Action, b: Action)
    ensures Run(r, s, pre + [a, b]) == Step(r, Step(r, Run(r, s, pre), a), b)
  {
    assert (pre + [a, b])[..|pre| + 1] == pre + [a];
    assert (pre + [a])[..|pre|] == pre;
  }

  /** What `k` turns have done: the first `k` watchers were offered the snapshot. */
  ghost predicate Published(r: Reader, s: System, p: nat, k: nat, s': System)
    requires p < |s.publishers| && k <= |s.publishers[p].todo|
  {
    var q := s.publishers[p];
    && s'.core == s.core && s'.history == s.history
    && |s'.publishers| == |s.publishers| && s'.publishers[p] == q.(todo := q.todo[k..])
    && |s'.entries| == |s.entries|
    && (forall i :: 0 <= i < |s.entries| ==>
          s'.entries[i] == if i in q.todo[..k] then s.entries[i].(w := Offer(r, s.entries[i].w, q.vals, q.snap.version))
                           else s.entries[i])
  }

  lemma {:induction false} PublishPrefix(r: Reader, s: System, p: nat, k: nat)
    requires p < |s.publishers| && k <= |s.publishers[p].todo|
    requires s.publishers[p].armed.None? && Distinct(s.publishers[p].todo)
    requires forall id :: id in s.publishers[p].todo ==> id < |s.entries|
    ensures Published(r, s, p, k, Run(r, s, PublishSteps(p, k)))
  {
    if k == 0 {
      PublishNone(r, s, p);
    } else {
      var s1 := Run(r, s, PublishSteps(p, k - 1));
      PublishPrefix(r, s, p, k - 1);
      PublishTurn(r, s, p, k - 1, s1);
      RunTwo(r, s, PublishSteps(p, k - 1), DoArm(p), DoSend(p));
      PublishedBy(r, s, p, k, Step(r, Step(r, s1, DoArm(p)), DoSend(p)), Run(r, s, PublishSteps(p, k)));
    }
  }

  lemma PublishedBy(r: Reader, s: System, p: nat, k: nat, s': System, s'': System)
    requires p < |s.publishers| && k <= |s.publishers[p].todo| && Published(r, s, p, k, s') && s'' == s'
    ensures Published(r, s, p, k, s'')
  {
  }

  lemma PublishNone(r: Reader, s: System, p: nat)
    requires p < |s.publishers|
    ensures Published(r, s, p, 0, s)
  {
    assert s.publishers[p].todo[0..] == s.publishers[p].todo;
  }

  lemma PublishTurn(r: Reader, s: System, p: nat, k: nat, s1: System)
    requires p < |s.publishers| && k < |s.publishers[p].todo|
    requires s.publishers[p].armed.None? && Distinct(s.publishers[p].todo)
    requires forall id :: id in s.publishers[p].todo ==> id < |s.entries|
    requires Published(r, s, p, k, s1)
    ensures Published(r, s, p, k + 1, Step(r, Step(r, s1, DoArm(p)), DoSend(p)))
  {
    var q := s.publishers[p];
    assert q.todo[k..][1..] == q.todo[k + 1..];
    assert q.todo[k] in q.todo && q.todo[k] !in q.todo[..k];
    assert q.todo[..k + 1] == q.todo[..k] + [q.todo[k]];
  }

  lemma ListedAscends(entries: seq<Entry>, n: nat)
    requires n <= |entries|
    ensures Distinct(Listed(entries, n))
  {
  }

  // ----- One round: install, publish, drain -----

  /** A critical section, its `update`, and one turn of the watcher's `Next`. */
  function Round(s: System, install: Action, id: nat): seq<Action> {
    [install, DoCapture] + PublishSteps(|s.publishers|, |Listed(s.entries, |s.entries|)|) + [DoReceive(id)]
  }

  /** `install` installs values that have `path`, under a version newer than the current. */
  ghost predicate Installing(r: Reader, s: System, install: Action, path: Path) {
    var c := Step(r, s, install).core;
    && (install.DoEvent? || install.DoReload? || install.DoSync?)
    && |Step(r, s, install).history| == |s.history| + 1
    && c.snap.Some? && c.vals.Some?
    && (s.core.snap.Some? ==> c.snap.value.version > s.core.snap.value.version)
    && r.get(c.vals.value, path).Some?
  }

  /** What a watcher makes of a publication it is drained after. */
  function Observe(r: Reader, e: Entry, vals: Json, version: int): Entry {
    Consume(r, e.(w := Offer(r, e.w, vals, version)))
  }

  lemma InstallThenCapture(r: Reader, s: System, install: Action)
    requires exists path :: Installing(r, s, install, path)
    ensures var s1 := Step(r, s, install);
            var s2 := Run(r, s, [install, DoCapture]);
            && s1.core.vals.Some? && s1.core.snap.Some?
            && s2.core == s1.core && s2.history == s1.history && s2.entries == s.entries
            && s2.publishers == s.publishers +
                 [Publisher(s1.core.vals.value, s1.core.snap.value, Listed(s.entries, |s.entries|), None)]
  {
    RunTwo(r, s, [], install, DoCapture);
    assert [] + [install, DoCapture] == [install, DoCapture];
  }

  /** A whole `update` without interference offers the snapshot to every listed watcher. */
  lemma PublishAll(r: Reader, s: System, p: nat, id: nat)
    requires p < |s.publishers| && id < |s.entries| && s.entries[id].listed
    requires s.publishers[p].armed.None? && s.publishers[p].todo == Listed(s.entries, |s.entries|)
    ensures var q := s.publishers[p];
            var s' := Run(r, s, PublishSteps(p, |q.todo|));
            && s'.core == s.core && s'.history == s.history && |s'.entries| == |s.entries|
            && s'.entries[id] == s.entries[id].(w := Offer(r, s.entries[id].w, q.vals, q.snap.version))
  {
    var todo := s.publishers[p].todo;
    ListedAscends(s.entries, |s.entries|);
    PublishPrefix(r, s, p, |todo|);
    assert todo[..|todo|] == todo;
  }

  lemma PublishThenDrain(r: Reader, s: System, p: nat, id: nat)
    requires p < |s.publishers| && id < |s.entries| && s.entries[id].listed
    requires s.publishers[p].armed.None? && s.publishers[p].todo == Listed(s.entries, |s.entries|)
    ensures var q := s.publishers[p];
            var s' := Run(r, s, PublishSteps(p, |q.todo|) + [DoReceive(id)]);
            && s'.core == s.core && s'.history == s.history && |s'.entries| == |s.entries|
            && s'.entries[id] == Observe(r, s.entries[id], q.vals, q.snap.version)
  {
    PublishAll(r, s, p, id);
  }

  lemma RoundEffect(r: Reader, s: System, install: Action, id: nat)
    requires id < |s.entries| && s.entries[id].listed && Installing(r, s, install, s.entries[id].w.path)
    ensures var s1 := Step(r, s, install);
            var s' := Run(r, s, Round(s, install, id));
            && s'.core == s1.core && s'.history == s1.history
            && |s'.entries| == |s.entries|
            && s'.entries[id] == Observe(r, s.entries[id], s1.core.vals.value, s1.core.snap.value.version)
  {
    var p, n := |s.publishers|, |Listed(s.entries, |s.entries|)|;
    var rest := PublishSteps(p, n) + [DoReceive(id)];
    InstallThenCapture(r, s, install);
    PublishThenDrain(r, Run(r, s, [install, DoCapture]), p, id);
    RunConcat(r, s, [install, DoCapture], rest);
    assert Round(s, install, id) == [install, DoCapture] + rest;
  }

  // ----- Runs of rounds -----

  /** The rounds of `installs`, one after the other. */
  function Rounds(r: Reader, s: System, installs: seq<Action>, id: nat): seq<Action> {
    if installs == [] then [] else
    var before := Rounds(r, s, installs[..|installs| - 1], id);
    before + Round(Run(r, s, before), Last(installs), id)
  }

  ghost predicate AllInstall(r: Reader, s: System, installs: seq<Action>, id: nat, path: Path) {
    installs != [] ==>
      var before := installs[..|installs| - 1];
      && AllInstall(r, s, before, id, path)
      && Installing(r, Run(r, s, Rounds(r, s, before, id)), Last(installs), path)
  }

  ghost predicate InstallsNothing(actions: seq<Action>) {
    forall a :: a in actions ==> !a.DoEvent? && !a.DoReload? && !a.DoSync?
  }

  lemma {:induction false} NothingIsPaced(r: Reader, s: System, actions: seq<Action>, id: nat)
    requires InstallsNothing(actions)
    ensures Paced(r, s, actions, id) && Run(r, s, actions).history == s.history
  {
    if actions != [] {
      NothingIsPaced(r, s, actions[..|actions| - 1], id);
      assert Last(actions) in actions;
    }
  }

  lemma {:induction false} PublishingInstallsNothing(p: nat, n: nat)
    ensures InstallsNothing(PublishSteps(p, n))
  {
    if n > 0 {
      PublishingInstallsNothing(p, n - 1);
    }
  }

  lemma {:induction false} PacedConcat(r: Reader, s: System, a: seq<Action>, b: seq<Action>, id: nat)
    requires Paced(r, s, a, id) && Paced(r, Run(r, s, a), b, id)
    ensures Paced(r, s, a + b, id)
    decreases |b|
  {
    if b == [] {
      assert a + b == a;
    } else {
      var before := b[..|b| - 1];
      assert (a + b)[..|a + b| - 1] == a + before;
      PacedConcat(r, s, a, before, id);
      RunConcat(r, s, a, before);
    }
  }

  /** What one round needs and keeps: the watcher is listed, has nothing pending and has caught
      up. */
  ghost predicate Ready(s: System, id: nat) {
    CaughtUp(s, id) && s.entries[id].listed && s.entries[id].w.pending.None?
      && s.core.snap == Some(Last(s.history).snap)
  }

  lemma ThenNothing(r: Reader, s: System, first: seq<Action>, rest: seq<Action>, id: nat)
    requires Paced(r, s, first, id) && InstallsNothing(rest)
    ensures Paced(r, s, first + rest, id)
  {
    NothingIsPaced(r, Run(r, s, first), rest, id);
    PacedConcat(r, s, first, rest, id);
  }

  lemma RoundParts(s: System, install: Action, id: nat) returns (rest: seq<Action>)
    ensures InstallsNothing(rest) && Round(s, install, id) == [install] + rest
  {
    var p, n := |s.publishers|, |Listed(s.entries, |s.entries|)|;
    rest := [DoCapture] + PublishSteps(p, n) + [DoReceive(id)];
    PublishingInstallsNothing(p, n);
    assert [install, DoCapture] == [install] + [DoCapture];
  }

  lemma RoundIsPaced(r: Reader, s: System, install: Action, id: nat)
    requires Ready(s, id) && Installing(r, s, install, s.entries[id].w.path)
    ensures Paced(r, s, Round(s, install, id), id)
  {
    var rest := RoundParts(s, install, id);
    ThenNothing(r, s, [install], rest, id);
  }

  lemma RoundKeepsReady(r: Reader, s: System, install: Action, id: nat)
    requires Ready(s, id) && Installing(r, s, install, s.entries[id].w.path)
    ensures var s' := Run(r, s, Round(s, install, id));
            Ready(s', id) && |s'.history| == |s.history| + 1 && s'.entries[id].w.path == s.entries[id].w.path
  {
    var s1 := Step(r, s, install);
    RoundEffect(r, s, install, id);
  }

  lemma {:induction false} RoundsArePaced(r: Reader, s: System, installs: seq<Action>, id: nat)
    requires Ready(s, id) && AllInstall(r, s, installs, id, s.entries[id].w.path)
    ensures Paced(r, s, Rounds(r, s, installs, id), id)
    ensures var s' := Run(r, s, Rounds(r, s, installs, id));
            Ready(s', id) && |s'.history| == |s.history| + |installs| && s'.entries[id].w.path == s.entries[id].w.path
  {
    if installs != [] {
      var before := installs[..|installs| - 1];
      var acts := Rounds(r, s, before, id);
      var s1 := Run(r, s, acts);
      RoundsArePaced(r, s, before, id);
      RoundIsPaced(r, s1, Last(installs), id);
      RoundKeepsReady(r, s1, Last(installs), id);
      PacedConcat(r, s, acts, Round(s1, Last(installs), id), id);
      RunConcat(r, s, acts, Round(s1, Last(installs), id));
    }
  }

  /** So a watcher that is drained after each publication is told of every installation at once:
      after any number of rounds it has delivered the changes of all the values installed. */
  lemma DrainedWatcherIsSynchronous(r: Reader, s: System, installs: seq<Action>, id: nat)
    requires Inv(r, s) && CurrentIsNewest(s) && Ready(s, id)
    requires AllInstall(r, s, installs, id, s.entries[id].w.path)
    ensures var s' := Run(r, s, Rounds(r, s, installs, id));
            && |s'.history| == |s.history| + |installs| && id < |s'.entries|
            && Told(r, s.entries[id], s'.entries[id], ValuesAt(r, s'.history, |s.history|, s.entries[id].w.path))
  {
    RoundsArePaced(r, s, installs, id);
    PacedWatcherIsSynchronous(r, s, Rounds(r, s, installs, id), id);
  }
}
