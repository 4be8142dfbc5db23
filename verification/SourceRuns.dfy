/** Every interleaving of a memory source's updates and watchers, and of one of its watchers
    with the loader goroutine that feeds on it (config/source/memory/memory.go:37-82,
    config/source/memory/watcher.go:17-35, config/loader/memory/memory.go:57-85, 328-346). */
module SourceRuns {
  import opened Common
  import opened Reading
  import opened SourceMemory
  import LR = LoaderRuns

  /** A watcher with its history: `since` updates had happened when it was registered, `dropped`
      of the later ones found its channel full, and `missed` says whether the latest did. */
  datatype Watched = Watched(
    since: nat,
    queue: seq<ChangeSet>,
    received: seq<ChangeSet>,
    dropped: nat,
    missed: bool,
    listed: bool)

  datatype Src = Src(current: ChangeSet, updates: seq<ChangeSet>, watchers: seq<Watched>)

  datatype Act =
    | Publish(data: string, format: string)
    | Register
    | Take(w: nat)
    | Unregister(w: nat)

  function Fresh(format: string): Src {
    Src(ChangeSet("", "", format, "memory"), [], [])
  }

  function Offer(w: Watched, cs: ChangeSet): Watched {
    if !w.listed then w else
    w.(queue := Push(w.queue, cs),
       dropped := if |w.queue| < CAPACITY then w.dropped else w.dropped + 1,
       missed := |w.queue| >= CAPACITY)
  }

  function Step(sum: string -> string, s: Src, a: Act): Src {
    match a
    case Publish(data, format) =>
      var cs := Stamp(sum, data, format);
      Src(cs, s.updates + [cs], seq(|s.watchers|, i requires 0 <= i < |s.watchers| => Offer(s.watchers[i], cs)))
    case Register => s.(watchers := s.watchers + [Watched(|s.updates|, [], [], 0, false, true)])
    case Take(i) =>
      if i >= |s.watchers| || s.watchers[i].queue == [] then s else
      var w := s.watchers[i];
      s.(watchers := s.watchers[i := w.(queue := w.queue[1..], received := w.received + [w.queue[0]])])
    case Unregister(i) =>
      if i >= |s.watchers| then s else s.(watchers := s.watchers[i := s.watchers[i].(listed := false)])
  }

  function Run(sum: string -> string, s: Src, acts: seq<Act>): Src {
    if acts == [] then s else Step(sum, Run(sum, s, acts[..|acts| - 1]), Last(acts))
  }

  /** `a` is `b` with some elements left out. */
  ghost predicate Subsequence(a: seq<ChangeSet>, b: seq<ChangeSet>) {
    a == [] ||
    (b != [] && (|| (Last(a) == Last(b) && Subsequence(a[..|a| - 1], b[..|b| - 1]))
                 || Subsequence(a, b[..|b| - 1])))
  }

  lemma SubsequenceBoth(a: seq<ChangeSet>, b: seq<ChangeSet>, x: ChangeSet)
    requires Subsequence(a, b)
    ensures Subsequence(a + [x], b + [x])
  {
    assert (a + [x])[..|a|] == a && (b + [x])[..|b|] == b;
  }

  /** Everything the watcher was or will be given. */
  function Seen(w: Watched): seq<ChangeSet> {
    w.received + w.queue
  }

  ghost predicate WatchedInv(s: Src, w: Watched) {
    && w.since <= |s.updates| && |w.queue| <= CAPACITY
    && Subsequence(Seen(w), s.updates[w.since..])
    && (w.listed ==> |Seen(w)| + w.dropped == |s.updates| - w.since)
    && (w.listed && w.dropped == 0 ==> Seen(w) == s.updates[w.since..])
    && (w.listed && !w.missed && |s.updates| > w.since ==> Seen(w) != [] && Last(Seen(w)) == Last(s.updates))
  }

  ghost predicate Inv(sum: string -> string, s: Src) {
    && (forall cs :: cs in s.updates ==> cs.checksum == sum(cs.data) && cs.source == "memory")
    && (s.updates != [] ==> s.current == Last(s.updates))
    && (forall i :: 0 <= i < |s.watchers| ==> WatchedInv(s, s.watchers[i]))
  }

  lemma OfferKeeps(s: Src, s': Src, w: Watched, cs: ChangeSet)
    requires WatchedInv(s, w) && s'.updates == s.updates + [cs]
    ensures WatchedInv(s', Offer(w, cs))
  {
    var w' := Offer(w, cs);
    assert s'.updates[w.since..] == s.updates[w.since..] + [cs];
    if w'.queue != w.queue {
      assert Seen(w') == Seen(w) + [cs];
      SubsequenceBoth(Seen(w), s.updates[w.since..], cs);
    }
  }

  lemma PublishKeeps(sum: string -> string, s: Src, data: string, format: string)
    requires Inv(sum, s)
    ensures Inv(sum, Step(sum, s, Publish(data, format)))
  {
    var s' := Step(sum, s, Publish(data, format));
    forall i | 0 <= i < |s'.watchers| ensures WatchedInv(s', s'.watchers[i]) {
      OfferKeeps(s, s', s.watchers[i], s'.current);
    }
  }

  lemma RegisterKeeps(sum: string -> string, s: Src)
    requires Inv(sum, s)
    ensures Inv(sum, Step(sum, s, Register))
  {
    var s' := Step(sum, s, Register);
    assert s.updates[|s.updates|..] == [];
    forall j | 0 <= j < |s'.watchers| ensures WatchedInv(s', s'.watchers[j]) {
      if j < |s.watchers| {
        assert WatchedInv(s, s.watchers[j]);
      }
    }
  }

  lemma StepKeeps(sum: string -> string, s: Src, a: Act)
    requires Inv(sum, s)
    ensures Inv(sum, Step(sum, s, a))
  {
    var s' := Step(sum, s, a);
    match a
    case Publish(data, format) => PublishKeeps(sum, s, data, format);
    case Register => RegisterKeeps(sum, s);
    case Take(i) =>
      if s' != s {
        assert WatchedInv(s, s.watchers[i]);
        assert Seen(s'.watchers[i]) == Seen(s.watchers[i]);
      }
    case Unregister(i) =>
      if s' != s {
        assert WatchedInv(s, s.watchers[i]);
        assert Seen(s'.watchers[i]) == Seen(s.watchers[i]);
      }
  }

  lemma {:induction false} RunInv(sum: string -> string, format: string, acts: seq<Act>)
    ensures Inv(sum, Run(sum, Fresh(format), acts))
  {
    if acts != [] {
      RunInv(sum, format, acts[..|acts| - 1]);
      StepKeeps(sum, Run(sum, Fresh(format), acts[..|acts| - 1]), Last(acts));
    }
  }

  /** In every run, what a watcher received followed by what it has buffered is an in-order
      subsequence of the updates since its registration, each with the checksum of its data;
      while it is registered nothing is missing exactly when no update found its channel full. */
  lemma WatcherSeesUpdatesInOrder(sum: string -> string, format: string, acts: seq<Act>, s: Src, w: Watched)
    requires s == Run(sum, Fresh(format), acts) && w in s.watchers
    ensures w.since <= |s.updates| && Subsequence(w.received + w.queue, s.updates[w.since..])
    ensures forall cs :: cs in s.updates ==> cs.checksum == sum(cs.data)
    ensures w.listed ==> (w.received + w.queue == s.updates[w.since..] <==> w.dropped == 0)
    ensures w.listed ==> |w.received| + |w.queue| + w.dropped == |s.updates| - w.since
  {
    RunInv(sum, format, acts);
    var i :| 0 <= i < |s.watchers| && s.watchers[i] == w;
    assert WatchedInv(s, s.watchers[i]);
  }

  /** The texts a run publishes, with their formats. */
  function Texts(acts: seq<Act>): seq<(string, string)> {
    if acts == [] then [] else
    Texts(acts[..|acts| - 1]) + match Last(acts)
                                case Publish(data, format) => [(data, format)]
                                case _ => []
  }

  /** The updates of a run are the texts it publishes, in order, with their checksums. */
  lemma {:induction false} UpdatesArePublished(sum: string -> string, format: string, acts: seq<Act>)
    ensures var s, texts := Run(sum, Fresh(format), acts), Texts(acts);
            && |s.updates| == |texts|
            && (forall i :: 0 <= i < |texts| ==>
                  s.updates[i] == ChangeSet(texts[i].0, sum(texts[i].0), texts[i].1, "memory"))
            && s.current == if texts == [] then ChangeSet("", "", format, "memory") else Last(s.updates)
  {
    if acts != [] {
      UpdatesArePublished(sum, format, acts[..|acts| - 1]);
    }
  }

  /** A watcher that was unregistered is offered nothing more, in any continuation: it only takes
      what its channel still holds. */
  lemma {:induction false} UnregisteredGetsNothingMore(sum: string -> string, s: Src, i: nat, acts: seq<Act>)
    requires i < |s.watchers|
    ensures var s' := Run(sum, Step(sum, s, Unregister(i)), acts);
            && i < |s'.watchers| && !s'.watchers[i].listed
            && s'.watchers[i].received + s'.watchers[i].queue == s.watchers[i].received + s.watchers[i].queue
  {
    if acts != [] {
      var before := Run(sum, Step(sum, s, Unregister(i)), acts[..|acts| - 1]);
      UnregisteredGetsNothingMore(sum, s, i, acts[..|acts| - 1]);
      if Last(acts) == Take(i) && before.watchers[i].queue != [] {
        var w := before.watchers[i];
        assert w.received + [w.queue[0]] + w.queue[1..] == w.received + w.queue;
      }
    }
  }

  /** A burst nobody consumes: the first hundred are kept, the rest is lost. */
  function PushAll(queue: seq<ChangeSet>, burst: seq<ChangeSet>): seq<ChangeSet> {
    if burst == [] then queue else Push(PushAll(queue, burst[..|burst| - 1]), Last(burst))
  }

  lemma {:induction false} BurstKeepsOldest(burst: seq<ChangeSet>)
    ensures PushAll([], burst) == if |burst| <= 100 then burst else burst[..100]
  {
    if burst != [] {
      BurstKeepsOldest(burst[..|burst| - 1]);
      assert burst[..|burst| - 1] + [Last(burst)] == burst;
    }
  }

  // ----- One source, one watcher, the loader -----

  /** One `Load` of `source` and the goroutine it starts. `first` was read after `readAt`
      updates; then the set is appended, giving the worker its index, and later the worker
      registers watcher `id`; `held` is a change set it has taken but not yet stored. */
  datatype Linked = Linked(
    src: Src,
    loader: LR.System,
    source: string,
    first: ChangeSet,
    readAt: nat,
    worker: Option<nat>,
    id: Option<nat>,
    held: Option<ChangeSet>)

  datatype LinkAct =
    | SourceActs(sa: Act)
    | LoaderActs(la: LR.Action)
    | AppendSet
    | WatchSource
    | TakeNext
    | Store(clock: int)

  /** The source and the loader as the Read of `Load` finds them. */
  function JustRead(src: Src, loader: LR.System, source: string): Linked {
    Linked(src, loader, source, src.current, |src.updates|, None, None, None)
  }

  /** Anybody may act on source and loader at any time; only the worker itself takes from its
      watcher and stores at its index. */
  function LinkStep(r: Reader, s: Linked, act: LinkAct): Linked {
    match act
    case SourceActs(a) =>
      if s.id.Some? && a == Take(s.id.value) then s else s.(src := Step(r.sum, s.src, a))
    case LoaderActs(a) =>
      if s.worker.Some? && a.DoEvent? && a.worker == s.worker.value then s else s.(loader := LR.Step(r, s.loader, a))
    case AppendSet =>
      if s.worker.Some? then s else
      s.(worker := Some(|s.loader.workers|), loader := LR.Step(r, s.loader, LR.DoAppend(s.source, Some(s.first))))
    case WatchSource =>
      if s.worker.None? || s.id.Some? then s else
      s.(id := Some(|s.src.watchers|), src := Step(r.sum, s.src, Register))
    case TakeNext =>
      if s.held.Some? || s.id.None? || s.id.value >= |s.src.watchers| then s else
      var queue := s.src.watchers[s.id.value].queue;
      if queue == [] then s else s.(held := Some(queue[0]), src := Step(r.sum, s.src, Take(s.id.value)))
    case Store(clock) =>
      if s.held.None? || s.worker.None? then s else
      s.(held := None, loader := LR.Step(r, s.loader, LR.DoEvent(s.worker.value, Some(s.held.value), clock)))
  }

  function LinkRun(r: Reader, s: Linked, acts: seq<LinkAct>): Linked {
    if acts == [] then s else LinkStep(r, LinkRun(r, s, acts[..|acts| - 1]), Last(acts))
  }

  /** Change sets as the loader stores them. */
  function Stored(first: ChangeSet, received: seq<ChangeSet>): seq<Option<ChangeSet>> {
    [Some(first)] + seq(|received|, i requires 0 <= i < |received| => Some(received[i]))
  }

  /** The worker has stored what it read first and then all its watcher received but what it
      holds. */
  ghost predicate WorkerInv(s: Linked) {
    && (s.id.Some? ==> s.worker.Some?)
    && (s.worker.Some? ==> s.worker.value < |s.loader.workers|)
    && (s.id.None? ==> s.held.None? &&
                       (s.worker.Some? ==> s.loader.workers[s.worker.value].received == [Some(s.first)]))
    && (s.id.Some? ==>
          && s.id.value < |s.src.watchers|
          && s.readAt <= s.src.watchers[s.id.value].since
          && var got := s.src.watchers[s.id.value].received;
             (s.held.Some? ==> got != [] && Last(got) == s.held.value)
             && s.loader.workers[s.worker.value].received
                == Stored(s.first, if s.held.Some? then got[..|got| - 1] else got))
  }

  ghost predicate LinkInv(r: Reader, s: Linked) {
    && Inv(r.sum, s.src)
    && LR.WorkersInv(s.loader.core, s.loader.workers)
    && s.readAt <= |s.src.updates|
    && (s.readAt == |s.src.updates| ==> s.first == s.src.current)
    && WorkerInv(s)
  }

  /** What the others do to a watcher. */
  lemma WatcherStays(sum: string -> string, s: Src, a: Act, id: nat)
    requires id < |s.watchers| && a != Take(id)
    ensures var s' := Step(sum, s, a);
            && |s.watchers| <= |s'.watchers|
            && s'.watchers[id].since == s.watchers[id].since && s'.watchers[id].received == s.watchers[id].received
  {
    match a
    case Publish(data, format) =>
    case Register =>
    case Take(i) =>
    case Unregister(i) =>
  }

  lemma SourceActKeeps(r: Reader, s: Linked, a: Act)
    requires LinkInv(r, s)
    ensures LinkInv(r, LinkStep(r, s, SourceActs(a)))
  {
    if s.id.None? || a != Take(s.id.value) {
      StepKeeps(r.sum, s.src, a);
      if s.id.Some? {
        WatcherStays(r.sum, s.src, a, s.id.value);
      }
    }
  }

  lemma LoaderActKeeps(r: Reader, s: Linked, a: LR.Action)
    requires LinkInv(r, s)
    ensures LinkInv(r, LinkStep(r, s, LoaderActs(a)))
  {
    LR.WorkersKeep(r, s.loader, a);
  }

  lemma AppendKeeps(r: Reader, s: Linked)
    requires LinkInv(r, s)
    ensures LinkInv(r, LinkStep(r, s, AppendSet))
  {
    LR.WorkersKeep(r, s.loader, LR.DoAppend(s.source, Some(s.first)));
  }

  lemma WatchKeeps(r: Reader, s: Linked)
    requires LinkInv(r, s)
    ensures LinkInv(r, LinkStep(r, s, WatchSource))
  {
    StepKeeps(r.sum, s.src, Register);
    assert Stored(s.first, []) == [Some(s.first)];
  }

  lemma StoreKeeps(r: Reader, s: Linked, clock: int)
    requires LinkInv(r, s)
    ensures LinkInv(r, LinkStep(r, s, Store(clock)))
  {
    if s.held.Some? {
      var got := s.src.watchers[s.id.value].received;
      LR.WorkersKeep(r, s.loader, LR.DoEvent(s.worker.value, Some(s.held.value), clock));
      assert LR.Holds(s.loader.core, s.loader.workers[s.worker.value]);
      assert Stored(s.first, got[..|got| - 1]) + [Some(s.held.value)] == Stored(s.first, got);
    }
  }

  lemma TakeKeeps(r: Reader, s: Linked)
    requires LinkInv(r, s)
    ensures LinkInv(r, LinkStep(r, s, TakeNext))
  {
    var s' := LinkStep(r, s, TakeNext);
    if s' != s {
      StepKeeps(r.sum, s.src, Take(s.id.value));
      var got, got' := s.src.watchers[s.id.value].received, s'.src.watchers[s.id.value].received;
      assert got'[..|got'| - 1] == got;
    }
  }

  lemma {:induction false} LinkRunInv(r: Reader, s: Linked, acts: seq<LinkAct>)
    requires LinkInv(r, s)
    ensures LinkInv(r, LinkRun(r, s, acts)) && LinkRun(r, s, acts).first == s.first
  {
    if acts != [] {
      var s' := LinkRun(r, s, acts[..|acts| - 1]);
      LinkRunInv(r, s, acts[..|acts| - 1]);
      match Last(acts)
      case SourceActs(a) => SourceActKeeps(r, s', a);
      case LoaderActs(a) => LoaderActKeeps(r, s', a);
      case AppendSet => AppendKeeps(r, s');
      case WatchSource => WatchKeeps(r, s');
      case TakeNext => TakeKeeps(r, s');
      case Store(clock) => StoreKeeps(r, s', clock);
    }
  }

  /** States that runs of the source and of the loader lead to. */
  ghost predicate Reachable(r: Reader, src: Src, loader: LR.System) {
    && (exists format, acts :: src == Run(r.sum, Fresh(format), acts))
    && (exists sources, actions :: loader == LR.Run(r, LR.Start(sources), actions))
  }

  lemma LinkedInv(r: Reader, src: Src, loader: LR.System, source: string, acts: seq<LinkAct>)
    requires Reachable(r, src, loader)
    ensures var s := LinkRun(r, JustRead(src, loader, source), acts);
            LinkInv(r, s) && s.first == src.current
  {
    var format, done :| src == Run(r.sum, Fresh(format), done);
    RunInv(r.sum, format, done);
    var sources, actions :| loader == LR.Run(r, LR.Start(sources), actions);
    LR.RunInv(r, sources, actions);
    LinkRunInv(r, JustRead(src, loader, source), acts);
  }

  /** End to end, in every interleaving, from the Read of `Load` on: once the watcher is drained
      and its worker idle, while it is registered and the latest update was not dropped, the
      loader's set of the source is the source's current change set exactly when nothing was
      published between the read and the registration, or something since, or what was read is
      current again. */
  lemma DrainedLoaderHoldsCurrentIff(r: Reader, src: Src, loader: LR.System, source: string, acts: seq<LinkAct>)
    requires Reachable(r, src, loader)
    ensures var s := LinkRun(r, JustRead(src, loader, source), acts);
            s.id.Some? ==>
              && s.id.value < |s.src.watchers| && s.worker.Some? && s.worker.value < |s.loader.workers|
              && var w, idx := s.src.watchers[s.id.value], s.loader.workers[s.worker.value].idx;
                 && idx < |s.loader.core.sets|
                 && (s.held.None? && w.queue == [] && w.listed && !w.missed ==>
                       (s.loader.core.sets[idx] == Some(s.src.current) <==>
                          w.since == s.readAt || |s.src.updates| > w.since || s.first == s.src.current))
  {
    LinkedInv(r, src, loader, source, acts);
    var s := LinkRun(r, JustRead(src, loader, source), acts);
    if s.id.Some? {
      assert LR.Holds(s.loader.core, s.loader.workers[s.worker.value]);
      var w := s.src.watchers[s.id.value];
      assert WatchedInv(s.src, w);
      if s.held.None? && w.queue == [] && w.listed && !w.missed {
        assert Seen(w) == w.received;
        if |s.src.updates| > w.since {
          assert Last(Stored(s.first, w.received)) == Some(Last(w.received));
        } else {
          assert w.received == [];
        }
      }
    }
  }

  ghost predicate Publishes(acts: seq<LinkAct>) {
    exists i :: 0 <= i < |acts| && acts[i].SourceActs? && acts[i].sa.Publish?
  }

  /** While nothing is published after the registration, what happened before it is never seen:
      in every continuation the worker has stored nothing but what `Load` read, so that an update
      published in between is missed for good. */
  lemma GapIsMissed(r: Reader, src: Src, loader: LR.System, source: string, acts: seq<LinkAct>, more: seq<LinkAct>)
    requires Reachable(r, src, loader) && !Publishes(more)
    requires var s := LinkRun(r, JustRead(src, loader, source), acts); s.worker.Some? && s.id.None?
    ensures var gap := LinkRun(r, JustRead(src, loader, source), acts);
            var s := LinkRun(r, LinkStep(r, gap, WatchSource), more);
            && s.src.current == gap.src.current && s.worker.Some? && s.worker.value < |s.loader.workers|
            && var w := s.loader.workers[s.worker.value];
               && w.received == [Some(src.current)]
               && w.idx < |s.loader.core.sets| && s.loader.core.sets[w.idx] == Some(src.current)
  {
    var gap := LinkRun(r, JustRead(src, loader, source), acts);
    var s1 := LinkStep(r, gap, WatchSource);
    LinkedInv(r, src, loader, source, acts);
    WatchKeeps(r, gap);
    LinkRunInv(r, s1, more);
    NothingPublished(r, s1, more);
    var s := LinkRun(r, s1, more);
    var w := s.src.watchers[s.id.value];
    assert WatchedInv(s.src, w);
    assert s.src.updates[w.since..] == [];
    assert Seen(w) == [] && w.received == [];
    assert Stored(s.first, []) == [Some(s.first)];
    assert LR.Holds(s.loader.core, s.loader.workers[s.worker.value]);
  }

  /** The source after a step of the link, as far as its updates and the link's own watcher go. */
  ghost predicate Unpublished(s: Linked, s': Linked)
    requires s.id.Some? && s.id.value < |s.src.watchers|
  {
    && s'.src.updates == s.src.updates && s'.src.current == s.src.current
    && s'.id == s.id && s'.worker == s.worker && |s'.src.watchers| >= |s.src.watchers|
    && s'.src.watchers[s.id.value].since == s.src.watchers[s.id.value].since
  }

  lemma {:induction false} NothingPublished(r: Reader, s: Linked, acts: seq<LinkAct>)
    requires !Publishes(acts) && s.id.Some? && s.worker.Some? && s.id.value < |s.src.watchers|
    ensures Unpublished(s, LinkRun(r, s, acts))
  {
    if acts != [] {
      var before := acts[..|acts| - 1];
      assert acts[|acts| - 1] == Last(acts);
      assert forall i :: 0 <= i < |before| ==> before[i] == acts[i];
      NothingPublished(r, s, before);
    }
  }

  /** In every run the current change set, which Read returns, is the latest update, or the empty
      one the source was made with. */
  lemma {:induction false} CurrentIsLatest(sum: string -> string, format: string, acts: seq<Act>)
    ensures var s := Run(sum, Fresh(format), acts);
            s.current == if s.updates == [] then ChangeSet("", "", format, "memory") else Last(s.updates)
  {
    RunInv(sum, format, acts);
    FreshWithoutUpdates(sum, format, acts);
  }

  lemma {:induction false} FreshWithoutUpdates(sum: string -> string, format: string, acts: seq<Act>)
    ensures var s := Run(sum, Fresh(format), acts); s.updates == [] ==> s.current == Fresh(format).current
  {
    if acts != [] {
      FreshWithoutUpdates(sum, format, acts[..|acts| - 1]);
    }
  }
}
