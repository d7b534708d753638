/** The scheduling cycle of a single scheduler over the registry, the user store, the stored last
    executions and the distributor. */
module Schedulers {
  import opened Arith
  import opened Distribution
  import opened Intervals
  import opened Jobs
  import opened Registry
  import opened Rfc3339
  import opened Schedule
  import opened StoreKeys
  import opened UserStores

  /** How often each (type, user) pair appears in what one due type contributes. */
  lemma {:induction false} DistinctUsers(id: string, users: seq<string>, todo: Todo)
    requires forall i, j :: 0 <= i < j < |users| ==> users[i] != users[j]
    ensures multiset(Todos(id, users))[todo] == One(todo.taskType == id && todo.user in users)
    decreases |users|
  {
    if users != [] {
      var n := |users| - 1;
      DistinctUsers(id, users[..n], todo);
      assert users == users[..n] + [users[n]];
      assert Todos(id, users) == Todos(id, users[..n]) + [Todo(id, users[n])];
    }
  }

  function Todos(id: string, users: seq<string>): (r: seq<Todo>)
    ensures |r| == |users|
  {
    seq(|users|, i requires 0 <= i < |users| => Todo(id, users[i]))
  }

  /** The types that occur in a batch. */
  function TypesOf(tasks: seq<Todo>): set<string> {
    set t | t in tasks :: t.taskType
  }

  lemma TypesSnoc(tasks: seq<Todo>, k: nat)
    requires k < |tasks|
    ensures TypesOf(tasks[..k + 1]) == TypesOf(tasks[..k]) + {tasks[k].taskType}
  {
    assert tasks[..k + 1] == tasks[..k] + [tasks[k]];
    forall id ensures id in TypesOf(tasks[..k + 1]) <==> id in TypesOf(tasks[..k]) + {tasks[k].taskType} {
      if id in TypesOf(tasks[..k]) {
        var t :| t in tasks[..k] && t.taskType == id;
        assert t in tasks[..k + 1];
      }
      assert tasks[k] in tasks[..k + 1];
    }
  }

  lemma RecordedOneMore(stored: Stored, seen: set<string>, unwritten: set<string>, text: string, id: string)
    ensures var before := Recorded(stored, seen - unwritten, text);
            Recorded(stored, seen + {id} - unwritten, text) == if id in unwritten then before else before[id := text]
  {
    assert seen + {id} - unwritten == (seen - unwritten) + if id in unwritten then {} else {id};
  }

  class Scheduler {
    const registry: TaskRegistry
    const userStore: UserStore
    const distributor: Distributor
    const zones: Zones
    /** The offset of the scheduler's own time zone, in which it writes last executions. */
    const offset: int
    /** taskqueue:schedule:<type> entries. */
    var stored: Stored

    function Config(): Setup
      reads registry
    {
      Setup(registry.tasks, zones, offset)
    }

    ghost predicate Valid()
      reads this, registry, userStore
    {
      registry.Valid() && userStore.Valid()
    }

    constructor (registry: TaskRegistry, userStore: UserStore, distributor: Distributor, zones: Zones, offset: int)
      requires registry.Valid() && userStore.Valid()
      ensures Valid() && stored == map[]
      ensures this.registry == registry && this.userStore == userStore && this.distributor == distributor
      ensures this.zones == zones && this.offset == offset
    {
      this.registry, this.userStore, this.distributor := registry, userStore, distributor;
      this.zones, this.offset, this.stored := zones, offset, map[];
    }

    /** One entry per indexed user of a due type, none for a type that is not due or whose last
        execution or users cannot be read. */
    method FindDueTasks(task: TaskType, now: int, lastFails: bool, usersFail: bool)
      returns (tasks: seq<Todo>, error: bool)
      requires Valid() && task.id in registry.tasks && registry.tasks[task.id] == task
      ensures error <==> lastFails || (Due(Config(), stored, task.id, now) && usersFail)
      ensures error ==> tasks == []
      ensures forall todo :: multiset(tasks)[todo]
                == One(!error && Due(Config(), stored, task.id, now) && todo.taskType == task.id
                       && todo.user in UsersOf(userStore.store, task.id))
      ensures var zone := task.interval.timezone;
              var offset := if zone in zones then zones[zone] else 0;
              var last := if task.id in stored && Parse(stored[task.id]).Some? then Parse(stored[task.id]).value else 0;
              !error && !usersFail ==>
                forall user :: multiset(tasks)[Todo(task.id, user)]
                  == if NextExecution(task.interval, offset, last) <= now && user in UsersOf(userStore.store, task.id)
                     then 1 else 0
    {
      if lastFails {
        return [], true;
      }
      var last := 0;
      if task.id in stored {
        var parsed := Parse(stored[task.id]);
        last := if parsed.Some? then parsed.value else 0;
      }
      assert last == LastExecution(stored, task.id);
      if !IsDue(task.interval, OffsetOf(zones, task.interval.timezone), last, now) {
        return [], false;
      }
      var users := userStore.GetUsersWithEnabledTask(task.id, usersFail);
      if users.None? {
        return [], true;
      }
      tasks, error := [], false;
      var k := 0;
      while k < |users.value|
        invariant 0 <= k <= |users.value|
        invariant tasks == Todos(task.id, users.value[..k])
      {
        tasks := tasks + [Todo(task.id, users.value[k])];
        k := k + 1;
      }
      assert users.value[..k] == users.value;
      forall todo
        ensures multiset(tasks)[todo]
             == One(todo.taskType == task.id && todo.user in UsersOf(userStore.store, task.id))
      {
        DistinctUsers(task.id, users.value, todo);
      }
    }

    /** Stamps every type of the batch once; a stamp that cannot be written is skipped. */
    method UpdateLastExecutions(tasks: seq<Todo>, scheduledAt: int, unwritten: set<string>)
      requires Writable(offset, scheduledAt)
      modifies this`stored
      ensures stored == Recorded(old(stored), TypesOf(tasks) - unwritten, Format(offset, scheduledAt))
    {
      var seen: set<string> := {};
      var text := Format(offset, scheduledAt);
      var k := 0;
      while k < |tasks|
        invariant 0 <= k <= |tasks|
        invariant seen == TypesOf(tasks[..k])
        invariant stored == Recorded(old(stored), seen - unwritten, text)
      {
        var id := tasks[k].taskType;
        TypesSnoc(tasks, k);
        if id !in seen {
          RecordedOneMore(old(stored), seen, unwritten, text, id);
          if id !in unwritten {
            stored := stored[id := text];
          }
          seen := seen + {id};
        }
        k := k + 1;
      }
      assert tasks[..k] == tasks;
    }

    /** The cycle as the schedule's state machine sees it. */
    ghost function TickOf(now: int, lastUnread: set<string>, usersUnread: set<string>, unwritten: set<string>): Tick
      reads this, userStore
    {
      Tick(now, userStore.store.index, lastUnread + usersUnread, unwritten)
    }

    /** What belongs in the batch: the indexed users of every type that fires. */
    ghost predicate Wanted(tick: Tick, todo: Todo)
      reads this, registry, userStore
    {
      Fires(Config(), stored, todo.taskType, tick) && todo.user in UsersOf(userStore.store, todo.taskType)
    }

    /** All types' due tasks, one type after the other in the map's arbitrary order; types that cannot
        be read are skipped. */
    method CollectDueTasks(now: int, lastUnread: set<string>, usersUnread: set<string>) returns (tasks: seq<Todo>)
      requires Valid()
      ensures forall todo :: multiset(tasks)[todo] == One(Wanted(TickOf(now, lastUnread, usersUnread, {}), todo))
    {
      tasks := [];
      var left := registry.tasks.Keys;
      ghost var tick := TickOf(now, lastUnread, usersUnread, {});
      while left != {}
        invariant left <= registry.tasks.Keys
        invariant forall todo :: multiset(tasks)[todo] == One(todo.taskType !in left && Wanted(tick, todo))
        decreases |left|
      {
        var id :| id in left;
        left := left - {id};
        var due, error := FindDueTasks(registry.tasks[id], now, id in lastUnread, id in usersUnread);
        assert error || id in tick.unreadable ==> due == [];
        tasks := tasks + due;
      }
    }

    /** A batch holds entries of exactly the types that fire. */
    lemma BatchTypes(tasks: seq<Todo>, tick: Tick)
      requires tick.index == userStore.store.index
      requires forall todo :: multiset(tasks)[todo] == One(Wanted(tick, todo))
      ensures TypesOf(tasks) == FiredNow(Config(), stored, tick)
    {
      forall id ensures id in TypesOf(tasks) <==> id in FiredNow(Config(), stored, tick) {
        if id in TypesOf(tasks) {
          var todo :| todo in tasks && todo.taskType == id;
          assert multiset(tasks)[todo] > 0;
        }
        if id in FiredNow(Config(), stored, tick) {
          var users := UsersOf(userStore.store, id);
          assert |users| != 0;
          var user :| user in users;
          assert multiset(tasks)[Todo(id, user)] == 1;
          assert Todo(id, user) in tasks;
        }
      }
    }

    lemma BatchRecorded(tasks: seq<Todo>, tick: Tick)
      requires Writable(offset, tick.now) && tick.index == userStore.store.index
      requires forall todo :: multiset(tasks)[todo] == One(Wanted(tick, todo))
      ensures Recorded(stored, TypesOf(tasks) - tick.unwritten, Format(offset, tick.now))
           == AfterTick(Config(), stored, tick)
      ensures tasks == [] ==> AfterTick(Config(), stored, tick) == stored
    {
      BatchTypes(tasks, tick);
    }

    /** One cycle conserves work: over the jobs it creates, whatever the shuffle, every (type, user)
        with a due, readable type and an indexed user appears exactly once and nothing else does; the
        jobs take distinct slots from now on; and the last executions of exactly the fired types
        become now, except those that cannot be written. */
    method CheckAndScheduleTasks(
      now: int, lastUnread: set<string>, usersUnread: set<string>, unwritten: set<string>)
      returns (created: seq<Job>, ghost slots: seq<int>, ghost ok: seq<bool>)
      requires Valid() && Writable(offset, now)
      modifies this`stored, distributor`queue
      ensures Valid()
      ensures forall todo :: multiset(PairsOf(created))[todo]
                == One(old(Wanted(TickOf(now, lastUnread, usersUnread, unwritten), todo)))
      ensures |slots| == |created| && PossibleSlots(distributor.distributionWindow, slots)
      ensures forall i :: 0 <= i < |created| ==>
                created[i].executeAfter == now + slots[i] && now <= created[i].executeAfter
      ensures forall i, j :: 0 <= i < j < |created| ==> created[i].executeAfter != created[j].executeAfter
      ensures |ok| == |created| && distributor.queue == old(distributor.queue) + Accepted(created, ok)
      ensures stored == AfterTick(Config(), old(stored), TickOf(now, lastUnread, usersUnread, unwritten))
    {
      var tasks := CollectDueTasks(now, lastUnread, usersUnread);
      ghost var tick := TickOf(now, lastUnread, usersUnread, unwritten);
      assert forall todo :: Wanted(TickOf(now, lastUnread, usersUnread, {}), todo) <==> Wanted(tick, todo);
      BatchRecorded(tasks, tick);
      if |tasks| == 0 {
        assert PairsOf([]) == tasks;
        return [], [], [];
      }
      created, slots, ok := distributor.DistributeTasks(tasks, now, now);
      UpdateLastExecutions(tasks, now, unwritten);
    }
  }
}
