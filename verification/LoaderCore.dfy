/** The lock-protected steps of the in-memory loader (config/loader/memory/memory.go)
    as functions on its fields. */
module LoaderCore {
  import opened Common
  import opened Reading

  type SourceId = string

  /** The fields of `memory` guarded by its mutex, without the watcher list. */
  datatype Core = Core(
    vals: Option<Json>,
    snap: Option<Snapshot>,
    sets: seq<Option<ChangeSet>>,
    sources: seq<SourceId>)

  /** updateValue: what travels through a watcher's channel. */
  datatype Update = Update(value: Option<Json>, version: int)

  /** A watcher. `pending` is the content of its channel, which has capacity one. */
  datatype Watcher = Watcher(path: Path, value: Json, version: int, pending: Option<Update>)

  // ----- Steps on the core -----

  /** NewLoader: one placeholder change set per configured source. */
  function Initial(sources: seq<SourceId>): Core {
    Core(None, None, seq(|sources|, i requires 0 <= i < |sources| => Some(ChangeSet("", "", "", sources[i]))), sources)
  }

  /** Load, one readable source: source and set are appended in one critical section. */
  function Append(c: Core, source: SourceId, cs: Option<ChangeSet>): Core {
    c.(sources := c.sources + [source], sets := c.sets + [cs])
  }

  /** The critical section of `watch`. A set that does not merge is kept in `sets` but not
      installed; a merged set whose Values fail is installed with nil values. */
  function SourceEvent(r: Reader, c: Core, idx: nat, cs: Option<ChangeSet>, clock: int): Core
    requires idx < |c.sets|
  {
    var c1 := c.(sets := c.sets[idx := cs]);
    match r.merge(c1.sets)
    case None => c1
    case Some(merged) => c1.(vals := r.values(merged), snap := Some(Snapshot(merged, clock)))
  }

  /** Installs `merged`, or changes nothing when it has no values. */
  function Install(r: Reader, c: Core, merged: ChangeSet, clock: int): Core {
    match r.values(merged)
    case None => c
    case Some(v) => c.(vals := Some(v), snap := Some(Snapshot(merged, clock)))
  }

  /** The critical section of `reload`. */
  function Reload(r: Reader, c: Core, clock: int): Core {
    match r.merge(c.sets)
    case None => c
    case Some(merged) => Install(r, c, merged, clock)
  }

  /** Whether reload (or, with the sets read afresh, Sync) installs a snapshot. */
  predicate Installs(r: Reader, sets: seq<Option<ChangeSet>>) {
    r.merge(sets).Some? && r.values(r.merge(sets).value).Some?
  }

  /** The sets of the sources that could be read, in source order. */
  function Readable(answers: seq<ReadResult>): seq<Option<ChangeSet>> {
    if answers == [] then [] else
    var rest := Readable(answers[..|answers| - 1]);
    match Last(answers)
    case ReadOk(cs) => rest + [cs]
    case ReadErr => rest
  }

  /** The critical section of `Sync`: it merges what the sources return now and never
      touches `sets`. */
  function Sync(r: Reader, c: Core, answers: seq<ReadResult>, clock: int): Core {
    match r.merge(Readable(answers))
    case None => c
    case Some(merged) => Install(r, c, merged, clock)
  }

  // ----- Steps on a watcher -----

  /** The guard of `update`: only a newer snapshot is sent. */
  predicate Wants(w: Watcher, version: int) {
    version > w.version
  }

  /** The non-blocking send: a full channel drops the item. */
  function TrySend(w: Watcher, u: Update): Watcher {
    if w.pending.Some? then w else w.(pending := Some(u))
  }

  /** `update` for one watcher, guard and send together. */
  function Offer(r: Reader, w: Watcher, vals: Json, version: int): Watcher {
    if Wants(w, version) then TrySend(w, Update(r.get(vals, w.path), version)) else w
  }

  /** The change set a watcher builds from a delivered value. */
  function Render(r: Reader, v: Json): ChangeSet {
    ChangeSet(r.bytes(v), r.sum(r.bytes(v)), r.name, "memory")
  }

  /** One turn of the loop in `Next`: takes the pending item, if any, and either drops it
      or moves to its version; it is delivered when its bytes differ from the value held. */
  function Receive(r: Reader, w: Watcher): (res: (Watcher, Option<Snapshot>)) {
    match w.pending
    case None => (w, None)
    case Some(u) =>
      var w0 := w.(pending := None);
      if !Wants(w, u.version) || u.value.None? then (w0, None) else
      var w1 := w0.(version := u.version);
      if r.bytes(w.value) == r.bytes(u.value.value) then (w1, None)
      else (w1.(value := u.value.value), Some(Snapshot(Render(r, u.value.value), u.version)))
  }

  datatype NextResult = NextResult(watcher: Watcher, out: Option<Snapshot>, used: nat, stopped: bool)

  /** `Next` while `arrivals` is what publishers send whenever it waits: the first item that
      survives the filters, or no result when the arrivals run out. `exit` is None while the
      watcher is not stopped; otherwise it is the number of items the select still takes before
      it takes the exit signal, which it does at once when there is no item. */
  function NextFrom(r: Reader, w: Watcher, arrivals: seq<Update>, exit: Option<nat>): (res: NextResult)
    ensures res.used <= |arrivals|
    decreases |arrivals|, if w.pending.Some? then 1 else 0
  {
    if exit == Some(0) then NextResult(w, None, 0, true) else
    var later := if exit.Some? then Some(exit.value - 1) else None;
    if w.pending.None? then
      if arrivals == [] then NextResult(w, None, 0, exit.Some?) else
      var step := Receive(r, TrySend(w, arrivals[0]));
      if step.1.Some? then NextResult(step.0, step.1, 1, false) else
      var rest := NextFrom(r, step.0, arrivals[1..], later);
      rest.(used := rest.used + 1)
    else
      var step := Receive(r, w);
      if step.1.Some? then NextResult(step.0, step.1, 0, false) else NextFrom(r, step.0, arrivals, later)
  }

  // ----- What `Next` looks for -----

  /** All that `Next` may come to see: the item in the slot first. */
  function Items(w: Watcher, arrivals: seq<Update>): seq<Update> {
    (if w.pending.Some? then [w.pending.value] else []) + arrivals
  }

  /** How many of `n` items the select may take before the exit signal. */
  function Allowed(exit: Option<nat>, n: nat): nat {
    if exit.Some? && exit.value < n then exit.value else n
  }

  /** An item with a value whose bytes the watcher does not hold, and newer than the watcher and
      all earlier items that have a value. */
  ghost predicate News(r: Reader, w: Watcher, items: seq<Update>, i: nat)
    requires i < |items|
  {
    && items[i].value.Some? && r.bytes(items[i].value.value) != r.bytes(w.value)
    && items[i].version > w.version
    && forall j :: 0 <= j < i && items[j].value.Some? ==> items[i].version > items[j].version
  }

  /** The newest version among the watcher's and those of items that have a value. */
  function Newest(version: int, items: seq<Update>): int
    decreases |items|
  {
    if items == [] then version
    else Newest(if items[0].value.Some? && items[0].version > version then items[0].version else version, items[1..])
  }

  lemma {:induction false} NewestIsLargest(version: int, items: seq<Update>)
    ensures var newest := Newest(version, items);
            && newest >= version && (forall u :: u in items && u.value.Some? ==> u.version <= newest)
            && (newest == version || exists u :: u in items && u.value.Some? && u.version == newest)
    decreases |items|
  {
    if items != [] {
      var u := items[0];
      NewestIsLargest(if u.value.Some? && u.version > version then u.version else version, items[1..]);
    }
  }

  /** The watcher that has dropped `u`. */
  function Dropped(w: Watcher, u: Update): Watcher {
    w.(pending := None, version := if u.value.Some? && Wants(w, u.version) then u.version else w.version)
  }

  /** One item is reported exactly when it is news, and otherwise dropped; then the later items are
      news as before. */
  lemma ReceiveReportsNews(r: Reader, w: Watcher, items: seq<Update>)
    requires items != []
    ensures var step := Receive(r, w.(pending := Some(items[0])));
            && (step.1.Some? <==> News(r, w, items, 0))
            && (step.1.None? ==> step.0 == Dropped(w, items[0]))
    ensures !News(r, w, items, 0) ==>
              forall i :: 0 < i < |items| ==>
                (News(r, w, items, i) <==> News(r, Dropped(w, items[0]), items[1..], i - 1))
  {
    var w1 := Dropped(w, items[0]);
    forall i | 0 < i < |items| ensures News(r, w, items, i) <==> News(r, w1, items[1..], i - 1) {
      assert items[1..][i - 1] == items[i];
      if News(r, w, items, i) {
        assert News(r, w1, items[1..], i - 1);
      } else if News(r, w1, items[1..], i - 1) {
        forall j | 0 <= j < i && items[j].value.Some? ensures items[i].version > items[j].version {
          if j > 0 {
            assert items[1..][j - 1] == items[j];
          }
        }
      }
    }
  }

  /** The arrivals still to come once the first item is taken. */
  function Coming(w: Watcher, arrivals: seq<Update>): seq<Update>
    requires Items(w, arrivals) != []
  {
    if w.pending.Some? then arrivals else arrivals[1..]
  }

  function Later(exit: Option<nat>): Option<nat>
    requires exit != Some(0)
  {
    if exit.Some? then Some(exit.value - 1) else None
  }

  /** One turn, wherever its item comes from. */
  lemma NextTurn(r: Reader, w: Watcher, arrivals: seq<Update>, exit: Option<nat>, items: seq<Update>)
    requires items == Items(w, arrivals) != [] && exit != Some(0)
    ensures var step := Receive(r, w.(pending := Some(items[0])));
            var taken := if w.pending.Some? then 0 else 1;
            NextFrom(r, w, arrivals, exit)
            == if step.1.Some? then NextResult(step.0, step.1, taken, false)
               else var rest := NextFrom(r, step.0, Coming(w, arrivals), Later(exit)); rest.(used := rest.used + taken)
    ensures Coming(w, arrivals) == items[1..]
  {
    if w.pending.Some? {
      assert w.(pending := Some(items[0])) == w;
    }
  }

  lemma NextTurnWithoutNews(r: Reader, w: Watcher, arrivals: seq<Update>, exit: Option<nat>, items: seq<Update>)
    requires items == Items(w, arrivals) != [] && exit != Some(0) && !News(r, w, items, 0)
    ensures var rest := NextFrom(r, Dropped(w, items[0]), items[1..], Later(exit));
            NextFrom(r, w, arrivals, exit) == rest.(used := rest.used + if w.pending.Some? then 0 else 1)
  {
    NextTurn(r, w, arrivals, exit, items);
    ReceiveReportsNews(r, w, items);
  }

  lemma NewsAfterDrop(r: Reader, w: Watcher, items: seq<Update>, n: nat)
    requires 0 < n <= |items| && !News(r, w, items, 0)
    ensures var w1 := Dropped(w, items[0]);
            && Items(w1, items[1..]) == items[1..]
            && (n < |items| ==> (News(r, w1, items[1..], n - 1) <==> News(r, w, items, n)))
            && ((forall j: nat :: j < n ==> !News(r, w, items, j))
                  ==> forall j: nat :: j < n - 1 ==> !News(r, w1, items[1..], j))
  {
    ReceiveReportsNews(r, w, items);
    forall j: nat | j < n - 1 ensures News(r, Dropped(w, items[0]), items[1..], j) <==> News(r, w, items, j + 1) {
    }
  }

  /** `Next` reports the first news among the items it may take, and takes nothing behind it. */
  lemma {:induction false} NextFinds(r: Reader, w: Watcher, arrivals: seq<Update>, exit: Option<nat>, i: nat)
    requires var items := Items(w, arrivals); i < Allowed(exit, |items|) && News(r, w, items, i)
    requires forall j: nat :: j < i ==> !News(r, w, Items(w, arrivals), j)
    ensures var u, res := Items(w, arrivals)[i], NextFrom(r, w, arrivals, exit);
            && res.out == Some(Snapshot(Render(r, u.value.value), u.version))
            && res.watcher == Watcher(w.path, u.value.value, u.version, None)
            && res.used + |Items(w, [])| == i + 1 && !res.stopped
    decreases i
  {
    var items := Items(w, arrivals);
    if i == 0 {
      NextTurn(r, w, arrivals, exit, items);
      ReceiveReportsNews(r, w, items);
    } else {
      NextTurnWithoutNews(r, w, arrivals, exit, items);
      NewsAfterDrop(r, w, items, i);
      NextFinds(r, Dropped(w, items[0]), items[1..], Later(exit), i - 1);
    }
  }

  lemma NextTakesNothing(r: Reader, w: Watcher, arrivals: seq<Update>, exit: Option<nat>)
    requires Allowed(exit, |Items(w, arrivals)|) == 0
    ensures NextFrom(r, w, arrivals, exit) == NextResult(w, None, 0, exit.Some?)
  {
    if exit != Some(0) {
      assert |arrivals| == 0;
    }
  }

  /** Without news it takes all items that it may and drops them. */
  lemma {:induction false} NextFindsNothing(r: Reader, w: Watcher, arrivals: seq<Update>, exit: Option<nat>)
    requires var items := Items(w, arrivals);
             forall j: nat :: j < Allowed(exit, |items|) ==> !News(r, w, items, j)
    ensures var items, res := Items(w, arrivals), NextFrom(r, w, arrivals, exit);
            var m := Allowed(exit, |items|);
            && res.out == None && res.stopped == exit.Some?
            && res.watcher
               == Watcher(w.path, w.value, Newest(w.version, items[..m]), if m == 0 then w.pending else None)
            && res.used == (if m == 0 then 0 else m - |Items(w, [])|)
    decreases |Items(w, arrivals)|
  {
    var items := Items(w, arrivals);
    var m := Allowed(exit, |items|);
    if m == 0 {
      NextTakesNothing(r, w, arrivals, exit);
    } else {
      NextTurnWithoutNews(r, w, arrivals, exit, items);
      NewsAfterDrop(r, w, items, m);
      NextFindsNothing(r, Dropped(w, items[0]), items[1..], Later(exit));
      NewestAfterDrop(w, items, m);
    }
  }

  lemma NewestAfterDrop(w: Watcher, items: seq<Update>, m: nat)
    requires 0 < m <= |items|
    ensures Newest(w.version, items[..m]) == Newest(Dropped(w, items[0]).version, items[1..][..m - 1])
  {
    assert items[..m][1..] == items[1..][..m - 1];
  }
}
