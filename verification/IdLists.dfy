/**
  ID-list updates: lists absent from an update are dropped, lists it names are updated in place or
  created and then updated. How a list is created and how it takes an update are parameters.
 */
module IdLists {
  import opened Wrappers

  datatype ListOps<!L, !U> = ListOps(create: U -> L, apply: (L, U) -> L)

  /** The list that update u leaves under a name: the old one updated, or a fresh one updated. */
  function Updated<L, U>(ops: ListOps<L, U>, before: Option<L>, u: U): (l: L) {
    ops.apply(if before.Some? then before.value else ops.create(u), u)
  }

  function Lookup<L>(lists: map<string, L>, name: string): (l: Option<L>) {
    if name in lists then Some(lists[name]) else None
  }

  /** did_receive_id_list_updates as a function of the stored lists. */
  function AfterUpdate<L, U>(ops: ListOps<L, U>, lists: map<string, L>, updates: map<string, U>): (r: map<string, L>) {
    map name | name in updates :: Updated(ops, Lookup(lists, name), updates[name])
  }

  class IdListStore<L, U> {
    var lists: map<string, L>

    constructor ()
      ensures lists == map[]
    {
      lists := map[];
    }

    /** Retain, then one entry at a time in whatever order the hash map is iterated. */
    method DidReceiveIdListUpdates(ops: ListOps<L, U>, updates: map<string, U>, locked: bool)
      modifies this
      ensures lists == if locked then AfterUpdate(ops, old(lists), updates) else old(lists)
    {
      if !locked {
        return;
      }
      lists := map name | name in lists && name in updates :: lists[name];
      var todo := updates.Keys;
      while todo != {}
        invariant todo <= updates.Keys
        invariant lists.Keys <= updates.Keys
        invariant forall name :: name in updates && name !in todo ==>
          name in lists && lists[name] == Updated(ops, Lookup(old(lists), name), updates[name])
        invariant forall name :: name in todo ==> Lookup(lists, name) == Lookup(old(lists), name)
        decreases todo
      {
        var name :| name in todo;
        var list;
        if name in lists {
          list := ops.apply(lists[name], updates[name]);
        } else {
          list := ops.apply(ops.create(updates[name]), updates[name]);
        }
        lists := lists[name := list];
        todo := todo - {name};
      }
      assert lists.Keys == updates.Keys;
    }
  }

  function Run<L, U>(ops: ListOps<L, U>, history: seq<map<string, U>>): (lists: map<string, L>) {
    if history == [] then map[] else AfterUpdate(ops, Run(ops, history[..|history| - 1]), history[|history| - 1])
  }

  /** How many updates at the end of the history named the list without interruption. */
  function Streak<U>(history: seq<map<string, U>>, name: string): (n: nat)
    ensures n <= |history|
    ensures forall i :: |history| - n <= i < |history| ==> name in history[i]
    ensures n < |history| ==> name !in history[|history| - n - 1]
  {
    if history == [] || name !in history[|history| - 1] then 0
    else 1 + Streak(history[..|history| - 1], name)
  }

  /** A fresh list made for the first of these updates and folded with all of them, first to last. */
  function Folded<L, U>(ops: ListOps<L, U>, us: seq<U>): (l: L)
    requires us != []
  {
    if |us| == 1 then ops.apply(ops.create(us[0]), us[0])
    else ops.apply(Folded(ops, us[..|us| - 1]), us[|us| - 1])
  }

  /** The updates the list received since it was last absent. */
  function Received<U>(history: seq<map<string, U>>, name: string): (us: seq<U>)
    ensures |us| == Streak(history, name)
  {
    var n := Streak(history, name);
    seq(n, i requires 0 <= i < n => history[|history| - n + i][name])
  }

  lemma ReceivedSnoc<U>(history: seq<map<string, U>>, name: string)
    requires history != [] && name in history[|history| - 1]
    ensures Received(history, name)
            == Received(history[..|history| - 1], name) + [history[|history| - 1][name]]
  {
  }

  /**
    After any sequence of updates the stored names are exactly those of the last update, and each list
    is a fresh list folded with the updates that named it since it was last absent.
   */
  lemma {:induction false} ListsAreFolds<L, U>(ops: ListOps<L, U>, history: seq<map<string, U>>, name: string)
    ensures history != [] ==> Run(ops, history).Keys == history[|history| - 1].Keys
    ensures name in Run(ops, history) <==> Streak(history, name) > 0
    ensures name in Run(ops, history) ==> Run(ops, history)[name] == Folded(ops, Received(history, name))
  {
    if history != [] {
      var front, last := history[..|history| - 1], history[|history| - 1];
      ListsAreFolds(ops, front, name);
      if name in last {
        ReceivedSnoc(history, name);
        var us := Received(front, name);
        assert (us + [last[name]])[..|us|] == us;
      }
    }
  }
}
