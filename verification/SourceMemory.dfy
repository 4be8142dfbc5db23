/** The in-memory source (config/source/memory/memory.go, config/source/memory/watcher.go):
    its mutable objects, each method proved against a function on channel contents. */
module SourceMemory {
  import opened Common
  import opened Reading

  const CAPACITY := 100

  /** The non-blocking send of `Update`: a full channel drops the change set. */
  function Push(queue: seq<ChangeSet>, cs: ChangeSet): seq<ChangeSet> {
    if |queue| < CAPACITY then queue + [cs] else queue
  }

  /** The change set `Update` stores for the caller's. */
  function Stamp(sum: string -> string, data: string, format: string): ChangeSet {
    ChangeSet(data, sum(data), format, "memory")
  }

  class Watcher {
    const id: string
    var updates: seq<ChangeSet>
    var exit: bool

    constructor (id: string)
      ensures this.id == id && updates == [] && !exit
    {
      this.id, updates, exit := id, [], false;
    }

    /** `Next`. When both a change set and the exit signal are there, `preferExit` says which
        one the select takes; with neither it is still waiting. */
    method Next(preferExit: bool) returns (waiting: bool, stopped: bool, cs: Option<ChangeSet>)
      modifies this`updates
      ensures waiting <==> old(updates) == [] && !exit
      ensures stopped ==> exit && (preferExit || old(updates) == [])
      ensures cs.Some? <==> !waiting && !stopped
      ensures if cs.Some? then [cs.value] + updates == old(updates) else updates == old(updates)
    {
      waiting, stopped, cs := false, false, None;
      if updates != [] && !(exit && preferExit) {
        cs := Some(updates[0]);
        updates := updates[1..];
      } else if exit {
        stopped := true;
      } else {
        waiting := true;
      }
    }
  }

  class Source {
    const sum: string -> string
    var changeSet: Option<ChangeSet>
    var watchers: map<string, Watcher>

    ghost predicate Valid()
      reads this, watchers.Values
    {
      forall id :: id in watchers ==> watchers[id].id == id && |watchers[id].updates| <= CAPACITY
    }

    /** NewSource; `initial` is the change set in the options' context, if there is one. */
    constructor (sum: string -> string, format: string, initial: Option<ChangeSet>)
      ensures Valid() && this.sum == sum && watchers == map[]
      ensures changeSet == Some(match initial
                                case None => ChangeSet("", "", format, "memory")
                                case Some(c) => Stamp(sum, c.data, c.format))
      ensures initial.Some? ==>
        changeSet == Some(ChangeSet(initial.value.data, sum(initial.value.data), initial.value.format, "memory"))
    {
      this.sum := sum;
      changeSet, watchers := Some(ChangeSet("", "", format, "memory")), map[];
      new;
      Update(initial);
    }

    /** `Read`: a copy of the current change set, or an empty one. */
    method Read() returns (cs: ChangeSet)
      ensures cs == if changeSet.Some? then changeSet.value else ChangeSet("", "", "", "memory")
    {
      if changeSet.None? {
        return ChangeSet("", "", "", "memory");
      }
      cs := changeSet.value;
    }

    /** `Watch`; `id` is a new UUID. */
    method Watch(id: string) returns (w: Watcher)
      requires Valid() && id !in watchers
      modifies this`watchers
      ensures Valid() && fresh(w) && w.id == id && w.updates == [] && !w.exit
      ensures watchers == old(watchers)[id := w]
    {
      w := new Watcher(id);
      watchers := watchers[id := w];
    }

    /** `Update`: a nil change set is ignored; any other becomes current, stamped with its
        checksum, and is offered once to every registered watcher. */
    method Update(c: Option<ChangeSet>)
      requires Valid()
      modifies this`changeSet, watchers.Values`updates
      ensures Valid()
      ensures c.None? ==> changeSet == old(changeSet)
      ensures c.None? ==> forall id :: id in watchers ==> watchers[id].updates == old(watchers[id].updates)
      ensures c.Some? ==> changeSet == Some(Stamp(sum, c.value.data, c.value.format))
      ensures c.Some? ==> forall id :: id in watchers ==>
        watchers[id].updates == Push(old(watchers[id].updates), changeSet.value)
      ensures c.Some? ==> changeSet == Some(ChangeSet(c.value.data, sum(c.value.data), c.value.format, "memory"))
      ensures c.Some? ==> forall id :: id in watchers ==>
        watchers[id].updates == old(watchers[id].updates)
                                + if |old(watchers[id].updates)| < 100 then [changeSet.value] else []
    {
      if c.None? {
        return;
      }
      var stored := ChangeSet(c.value.data, sum(c.value.data), c.value.format, "memory");
      changeSet := Some(stored);
      var todo := watchers.Keys;
      while todo != {}
        invariant todo <= watchers.Keys && changeSet == Some(stored)
        invariant Valid()
        invariant forall id :: id in watchers ==>
          watchers[id].updates ==
            if id in todo then old(watchers[id].updates) else Push(old(watchers[id].updates), stored)
        decreases todo
      {
        var id :| id in todo;
        var w := watchers[id];
        if |w.updates| < CAPACITY {
          w.updates := w.updates + [stored];
        }
        todo := todo - {id};
      }
    }

    /** `Stop` of one of the source's watchers; only the first call does anything. */
    method Stop(w: Watcher)
      requires Valid()
      modifies this`watchers, w`exit
      ensures Valid() && w.exit
      ensures watchers == if old(w.exit) then old(watchers) else old(watchers) - {w.id}
    {
      if !w.exit {
        w.exit := true;
        watchers := watchers - {w.id};
      }
    }
  }
}
