/** Pipelines that break off: a connection that fails after some commands leaves their effect behind.
    What repeating the operation repairs, and what it does not. */
module Recovery {
  import opened Cells
  import opened Pipelines
  import opened Preferences
  import opened StoreKeys
  import opened Wrappers

  ghost predicate Lists(order: seq<string>, tasks: map<string, bool>) {
    forall t :: t in order <==> t in tasks
  }

  ghost predicate IndexedBy(cs: seq<Command>, head: seq<Command>, user: string, tasks: map<string, bool>) {
    exists order :: Lists(order, tasks) && cs == head + IndexCommands(user, tasks, order)
  }

  /** The commands an accepted operation sends, the index updates in any order. */
  ghost predicate IsPipeline(st: Store, op: Op, cs: seq<Command>) {
    match op
    case Save(u, enabled, settings, stamp) =>
      u != "" && IndexedBy(cs, SaveHead(u, enabled, settings, stamp), u, enabled)
    case Enable(u, t, stamp) => u != "" && t != "" && cs == EnablePipeline(u, t, stamp)
    case Disable(u, t, stamp) => u != "" && t != "" && cs == DisablePipeline(u, t, stamp)
    case Delete(u) => u != "" && IndexedBy(cs, DeleteHead(u), u, Gone(st, u))
  }

  lemma PipelineEffect(st: Store, op: Op, cs: seq<Command>)
    requires IsPipeline(st, op, cs)
    ensures AllValid(cs) && Effects(st, cs) == Apply(st, op)
  {
    match op
    case Save(u, enabled, settings, stamp) =>
      var order :| Lists(order, enabled)
                   && cs == SaveHead(u, enabled, settings, stamp) + IndexCommands(u, enabled, order);
      SavePipelineEffect(st, u, enabled, settings, stamp, order);
    case Enable(u, t, stamp) => EnablePipelineEffect(st, u, t, stamp);
    case Disable(u, t, stamp) => DisablePipelineEffect(st, u, t, stamp);
    case Delete(u) =>
      var order :| Lists(order, Gone(st, u)) && cs == DeleteHead(u) + IndexCommands(u, Gone(st, u), order);
      DeletePipelineEffect(st, u, Gone(st, u), order);
  }

  /** A command of the store: task hashes get "1" and "0" only. */
  predicate Proper(c: Command) {
    Plain(c) && (c.HSet? && c.kind == Tasks ==> forall f <- c.fields :: c.fields[f] in {OFF, ON})
  }

  predicate AllProper(cs: seq<Command>) {
    forall c <- cs :: Proper(c)
  }

  lemma SaveHeadProper(user: string, enabled: map<string, bool>, settings: SettingsMap, stamp: string)
    ensures AllProper(SaveHead(user, enabled, settings, stamp))
  {
    assert "last_modified" in map["last_modified" := stamp];
    assert AllProper(Fill(Tasks, user, Encoded(enabled)));
    assert AllProper(Fill(Settings, user, EncodedSettings(settings)));
    assert AllProper([Stamp(user, stamp), SAdd(AllUsers, "", user)]);
  }

  lemma PipelineProper(st: Store, op: Op, cs: seq<Command>)
    requires IsPipeline(st, op, cs)
    ensures AllProper(cs)
  {
    match op
    case Save(u, enabled, settings, stamp) =>
      var order :| Lists(order, enabled)
                   && cs == SaveHead(u, enabled, settings, stamp) + IndexCommands(u, enabled, order);
      SaveHeadProper(u, enabled, settings, stamp);
    case Enable(_, _, _) =>
    case Disable(_, _, _) =>
    case Delete(u) =>
      var order :| Lists(order, Gone(st, u)) && cs == DeleteHead(u) + IndexCommands(u, Gone(st, u), order);
  }

  lemma {:induction false} ProperKeepsBinary(st: Store, cs: seq<Command>)
    requires AllProper(cs) && Binary(st)
    ensures AllValid(cs) && Binary(Effects(st, cs))
    decreases cs
  {
    if cs != [] {
      assert cs[0] in cs;
      var next := Effect(st, cs[0]);
      forall user, task ensures BinaryAt(next, user, task) {
        assert BinaryAt(st, user, task);
        EffectOnCell(st, cs[0], Field(Tasks, user, task));
        assert task in TasksOf(next, user) ==> View(next, Field(Tasks, user, task)) == Some(TasksOf(next, user)[task]);
        assert task in TasksOf(st, user) ==> View(st, Field(Tasks, user, task)) == Some(TasksOf(st, user)[task]);
      }
      ProperKeepsBinary(next, cs[1..]);
    }
  }

  // ----- repeating an operation -----

  /** What a sequence of commands leaves in a cell it touches does not depend on what was there. */
  lemma {:induction false} TouchedForgets(a: Store, b: Store, cs: seq<Command>, cell: Cell)
    requires cell.Valid() && (forall c <- cs :: Plain(c)) && Touched(cs, cell)
    ensures AllValid(cs) && View(Effects(a, cs), cell) == View(Effects(b, cs), cell)
    decreases cs
  {
    EffectOnCell(a, cs[0], cell);
    EffectOnCell(b, cs[0], cell);
    if !Touches(cs[0], cell) {
      var c :| c in cs && Touches(c, cell);
      assert c in cs[1..];
    }
    if Touched(cs[1..], cell) {
      TouchedForgets(Effect(a, cs[0]), Effect(b, cs[0]), cs[1..], cell);
    } else {
      CellAfter(Effect(a, cs[0]), cs[1..], cell, None);
      CellAfter(Effect(b, cs[0]), cs[1..], cell, None);
    }
  }

  /** Commands already sent change nothing once a sequence follows that touches all their cells. */
  lemma RepeatedCell(st: Store, sent: seq<Command>, cs: seq<Command>, cell: Cell)
    requires cell.Valid() && (forall c <- cs :: Plain(c)) && (forall c <- sent :: Plain(c))
    requires Touched(sent, cell) ==> Touched(cs, cell)
    ensures AllValid(cs) && AllValid(sent)
    ensures View(Effects(Effects(st, sent), cs), cell) == View(Effects(st, cs), cell)
  {
    if Touched(cs, cell) {
      TouchedForgets(Effects(st, sent), st, cs, cell);
    } else {
      CellAfter(st, sent, cell, None);
      CellAfter(st, cs, cell, None);
      CellAfter(Effects(st, sent), cs, cell, None);
    }
  }

  /** Hashes, stamps, index and set of all users are equal. */
  ghost predicate SameStore(a: Store, b: Store) {
    SameHashesAndIndex(a, b) && a.all == b.all && forall user :: Row(a.meta, user) == Row(b.meta, user)
  }

  lemma AllCellsDetermine(a: Store, b: Store)
    requires forall cell: Cell :: cell.Valid() ==> View(a, cell) == View(b, cell)
    ensures SameStore(a, b)
  {
    CellsDetermine(a, b);
    forall user ensures Row(a.meta, user) == Row(b.meta, user) {
      forall f
        ensures f in Row(a.meta, user) <==> f in Row(b.meta, user)
        ensures f in Row(a.meta, user) ==> Row(a.meta, user)[f] == Row(b.meta, user)[f]
      {
        assert View(a, Field(Meta, user, f)) == View(b, Field(Meta, user, f));
      }
    }
  }

  lemma SameIsSound(before: Store, op: Op, after: Store)
    requires Sound(before) && SameStore(after, Apply(before, op))
    ensures Sound(after)
  {
    forall user, task ensures SoundAt(after, user, task) {
      assert SoundAt(before, user, task);
      ApplyKeepsSoundAt(before, op, user, task);
    }
  }

  /** The same operation at another time. */
  function Restamped(op: Op, stamp: string): Op
    requires !op.Delete?
  {
    match op
    case Save(u, enabled, settings, _) => Save(u, enabled, settings, stamp)
    case Enable(u, t, _) => Enable(u, t, stamp)
    case Disable(u, t, _) => Disable(u, t, stamp)
  }

  /** A command of some attempt at the operation, whenever it was made. */
  ghost predicate OfSomeAttempt(st: Store, op: Op, c: Command)
    requires !op.Delete?
  {
    exists stamp, cs :: IsPipeline(st, Restamped(op, stamp), cs) && c in cs
  }

  /** Only the stamp differs between attempts, and it goes to the same cell. */
  lemma SameCells(st: Store, op: Op, stamp: string, cs1: seq<Command>, cs2: seq<Command>, c: Command, cell: Cell)
    requires !op.Delete? && IsPipeline(st, Restamped(op, stamp), cs1) && IsPipeline(st, op, cs2)
    requires c in cs1 && Touches(c, cell)
    ensures Touched(cs2, cell)
  {
    if c == Stamp(op.user, stamp) {
      assert Stamp(op.user, op.stamp) in cs2 && Touches(Stamp(op.user, op.stamp), cell);
    } else {
      CommonCommand(st, op, stamp, cs1, cs2, c);
    }
  }

  lemma CommonCommand(st: Store, op: Op, stamp: string, cs1: seq<Command>, cs2: seq<Command>, c: Command)
    requires !op.Delete? && IsPipeline(st, Restamped(op, stamp), cs1) && IsPipeline(st, op, cs2)
    requires c in cs1 && c != Stamp(op.user, stamp)
    ensures c in cs2
  {
    match op
    case Save(u, enabled, settings, stamp2) =>
      var order1 :| Lists(order1, enabled)
                    && cs1 == SaveHead(u, enabled, settings, stamp) + IndexCommands(u, enabled, order1);
      var order2 :| Lists(order2, enabled)
                    && cs2 == SaveHead(u, enabled, settings, stamp2) + IndexCommands(u, enabled, order2);
      if c in IndexCommands(u, enabled, order1) {
        var i :| 0 <= i < |order1| && IndexCommands(u, enabled, order1)[i] == c;
        assert order1[i] in order2;
        var j :| 0 <= j < |order2| && order2[j] == order1[i];
        assert IndexCommands(u, enabled, order2)[j] == c;
      }
    case Enable(_, _, _) =>
    case Disable(_, _, _) =>
  }

  lemma AttemptProper(st: Store, op: Op, c: Command)
    requires !op.Delete? && OfSomeAttempt(st, op, c)
    ensures Plain(c)
  {
    var stamp, cs :| IsPipeline(st, Restamped(op, stamp), cs) && c in cs;
    PipelineProper(st, Restamped(op, stamp), cs);
  }

  /** Attempts at a save, enable or disable that broke off, however many, whenever they were made and
      after whichever commands, are made good by one that goes through: the store ends as if nothing
      had failed, with nobody missing from the index. */
  lemma RetryRepairs(st: Store, op: Op, sent: seq<Command>, cs: seq<Command>)
    requires !op.Delete? && IsPipeline(st, op, cs) && (forall c <- sent :: OfSomeAttempt(st, op, c))
    ensures AllValid(sent)
    ensures SameStore(Apply(Effects(st, sent), op), Apply(st, op))
    ensures Sound(st) ==> Sound(Apply(Effects(st, sent), op))
  {
    PipelineProper(st, op, cs);
    PipelineEffect(st, op, cs);
    forall c | c in sent ensures Plain(c) {
      AttemptProper(st, op, c);
    }
    assert AllValid(sent);
    PipelineEffect(Effects(st, sent), op, cs);
    forall cell: Cell | cell.Valid()
      ensures View(Apply(Effects(st, sent), op), cell) == View(Apply(st, op), cell)
    {
      if c :| c in sent && Touches(c, cell) {
        var stamp, cs1 :| IsPipeline(st, Restamped(op, stamp), cs1) && c in cs1;
        SameCells(st, op, stamp, cs1, cs, c, cell);
      }
      RepeatedCell(st, sent, cs, cell);
    }
    AllCellsDetermine(Apply(Effects(st, sent), op), Apply(st, op));
    if Sound(st) {
      SameIsSound(st, op, Apply(Effects(st, sent), op));
    }
  }

  /** The user's index entries that a broken delete has not removed. */
  predicate LeftBehind(st: Store, user: string, sent: seq<Command>, task: string) {
    task in TasksOf(st, user) && user in UsersOf(st, task) && SRem(TaskUsers, task, user) !in sent
  }

  /** Every command of a delete takes something of the user away. */
  lemma DeleteCommands(st: Store, user: string, cs: seq<Command>, c: Command)
    requires IsPipeline(st, Delete(user), cs) && c in cs
    ensures c == Del(user, true) || c == SRem(AllUsers, "", user)
         || (c.SRem? && c.kind == TaskUsers && c.member == user && c.id in TasksOf(st, user))
  {
    var order :| Lists(order, Gone(st, user)) && cs == DeleteHead(user) + IndexCommands(user, Gone(st, user), order);
    if c !in DeleteHead(user) {
      var i :| 0 <= i < |order| && IndexCommands(user, Gone(st, user), order)[i] == c;
      assert order[i] in order;
    }
  }

  lemma BrokenDeleteCell(st: Store, user: string, sent: seq<Command>, cs: seq<Command>, cell: Cell)
    requires IsPipeline(st, Delete(user), cs) && (forall c <- sent :: c in cs) && cell.Valid()
    ensures AllValid(sent)
    ensures View(Effects(st, sent), cell) == if Touched(sent, cell) then None else View(st, cell)
  {
    PipelineProper(st, Delete(user), cs);
    forall c | c in sent && Touches(c, cell) ensures Written(c, cell) == None {
      DeleteCommands(st, user, cs, c);
    }
    CellAfter(st, sent, cell, None);
  }

  lemma DeleteBegins(st: Store, user: string, sent: seq<Command>, cs: seq<Command>)
    requires IsPipeline(st, Delete(user), cs) && sent != [] && sent <= cs
    ensures AllValid(sent) && sent[0] == Del(user, true)
    ensures TasksOf(Effects(st, sent), user) == map[]
  {
    assert sent[0] == cs[0] == Del(user, true);
    BrokenDeleteCell(st, user, sent, cs, Field(Tasks, user, ""));
    forall f ensures f !in TasksOf(Effects(st, sent), user) {
      BrokenDeleteCell(st, user, sent, cs, Field(Tasks, user, f));
      assert sent[0] in sent && Touches(sent[0], Field(Tasks, user, f));
      assert View(Effects(st, sent), Field(Tasks, user, f)) == None;
    }
  }

  /** Deleting in one go clears exactly the user's own cells. */
  predicate DeletedCell(st: Store, user: string, cell: Cell) {
    match cell
    case Field(_, id, _) => id == user
    case Member(AllUsers, _, member) => member == user
    case Member(_, task, member) => member == user && task in TasksOf(st, user)
  }

  lemma DeletedView(st: Store, user: string, cell: Cell)
    requires cell.Valid()
    ensures View(Deleted(st, user), cell) == if DeletedCell(st, user, cell) then None else View(st, cell)
  {
  }

  /** A repeated delete finds no tasks listed any more, so it leaves the index as it is. */
  lemma RepeatedDeleteCell(st: Store, user: string, sent: seq<Command>, cs: seq<Command>, cell: Cell)
    requires IsPipeline(st, Delete(user), cs) && sent != [] && sent <= cs && cell.Valid()
    ensures AllValid(sent)
    ensures View(Deleted(Effects(st, sent), user), cell)
         == if DeletedCell(st, user, cell)
               && !(cell.Member? && cell.kind == TaskUsers && LeftBehind(st, user, sent, cell.id))
            then None else View(st, cell)
  {
    DeleteBegins(st, user, sent, cs);
    DeletedView(Effects(st, sent), user, cell);
    BrokenDeleteCell(st, user, sent, cs, cell);
    if c :| c in sent && Touches(c, cell) {
      DeleteCommands(st, user, cs, c);
    }
    if cell.Member? && cell.kind == TaskUsers && DeletedCell(st, user, cell) {
      assert Touches(SRem(TaskUsers, cell.id, user), cell);
    }
  }

  /** Repeating a broken delete makes it good exactly when it never began or every index entry of the
      user had already been removed: the first command takes away the list of them. */
  lemma DeleteRetryIff(st: Store, user: string, sent: seq<Command>, cs: seq<Command>)
    requires IsPipeline(st, Delete(user), cs) && sent <= cs
    ensures AllValid(sent)
    ensures SameStore(Apply(Effects(st, sent), Delete(user)), Apply(st, Delete(user)))
       <==> sent == [] || forall t :: !LeftBehind(st, user, sent, t)
  {
    PipelineProper(st, Delete(user), cs);
    var again, once := Deleted(Effects(st, sent), user), Deleted(st, user);
    if sent != [] {
      if t :| LeftBehind(st, user, sent, t) {
        RepeatedDeleteCell(st, user, sent, cs, Member(TaskUsers, t, user));
        DeletedView(st, user, Member(TaskUsers, t, user));
        assert user in UsersOf(again, t) && user !in UsersOf(once, t);
      } else {
        forall cell: Cell | cell.Valid() ensures View(again, cell) == View(once, cell) {
          RepeatedDeleteCell(st, user, sent, cs, cell);
          DeletedView(st, user, cell);
        }
        AllCellsDetermine(again, once);
      }
    }
  }

  // ----- what readers see in between -----

  /** The store after the first k commands of an enable. */
  function EnabledUpTo(st: Store, user: string, task: string, stamp: string, k: nat): Store {
    if k == 0 then st
    else if k == 1 then WithTask(st, user, task, ON)
    else
      var stamped := Stamped(WithTask(st, user, task, ON), user, stamp);
      if k == 2 then stamped
      else if k == 3 then stamped.(all := st.all + {user})
      else TaskEnabled(st, user, task, stamp)
  }

  lemma EnablePrefix(st: Store, user: string, task: string, stamp: string, k: nat)
    requires k <= 4
    ensures Effects(st, EnablePipeline(user, task, stamp)[..k]) == EnabledUpTo(st, user, task, stamp, k)
  {
    var cs := EnablePipeline(user, task, stamp);
    if k == 4 {
      assert cs[..4] == cs;
      EnablePipelineEffect(st, user, task, stamp);
    } else if 1 <= k {
      assert cs[..1] == [cs[0]] && [cs[0]][1..] == [];
      assert cs[..2] == [cs[0], cs[1]];
      TwoEffects(st, cs[0], cs[1]);
      assert cs[..3] == cs[..2] + [cs[2]] && [cs[2]][1..] == [];
      EffectsAppend(st, cs[..2], [cs[2]]);
    }
  }

  lemma EnabledUpToElsewhere(st: Store, user: string, task: string, stamp: string, k: nat, u: string, t: string)
    requires SoundAt(st, u, t) && (u != user || t != task)
    ensures SoundAt(EnabledUpTo(st, user, task, stamp, k), u, t)
  {
  }

  lemma EnabledUpToHere(st: Store, user: string, task: string, stamp: string, k: nat)
    requires SoundAt(st, user, task) && k <= 4
    ensures SoundAt(EnabledUpTo(st, user, task, stamp, k), user, task)
       <==> k == 0 || ((user in st.all || 3 <= k) && (user in UsersOf(st, task) || k == 4))
  {
    if 0 < k {
      assert Enabled(EnabledUpTo(st, user, task, stamp, k), user, task);
    }
  }

  /** An enable that broke off after k commands leaves an enabled task that the index or the set of
      all users misses exactly when that entry was not there before and its command was not sent. */
  lemma BrokenEnableSoundIff(st: Store, user: string, task: string, stamp: string, k: nat)
    requires Sound(st) && k <= 4
    ensures Sound(Effects(st, EnablePipeline(user, task, stamp)[..k]))
       <==> k == 0 || ((user in st.all || 3 <= k) && (user in UsersOf(st, task) || k == 4))
  {
    var broken := EnabledUpTo(st, user, task, stamp, k);
    EnablePrefix(st, user, task, stamp, k);
    forall u, t | u != user || t != task ensures SoundAt(broken, u, t) {
      assert SoundAt(st, u, t);
      EnabledUpToElsewhere(st, user, task, stamp, k, u, t);
    }
    assert SoundAt(st, user, task);
    EnabledUpToHere(st, user, task, stamp, k);
  }

  /** The store after the first k commands of a disable. */
  function DisabledUpTo(st: Store, user: string, task: string, stamp: string, k: nat): Store {
    if k == 0 then st
    else if k == 1 then WithTask(st, user, task, OFF)
    else if k == 2 then Stamped(WithTask(st, user, task, OFF), user, stamp)
    else TaskDisabled(st, user, task, stamp)
  }

  lemma DisablePrefix(st: Store, user: string, task: string, stamp: string, k: nat)
    requires k <= 3
    ensures Effects(st, DisablePipeline(user, task, stamp)[..k]) == DisabledUpTo(st, user, task, stamp, k)
  {
    var cs := DisablePipeline(user, task, stamp);
    if k == 3 {
      assert cs[..3] == cs;
      DisablePipelineEffect(st, user, task, stamp);
    } else if 1 <= k {
      assert cs[..1] == [cs[0]] && [cs[0]][1..] == [];
      assert cs[..2] == [cs[0], cs[1]];
      TwoEffects(st, cs[0], cs[1]);
    }
  }

  lemma DisabledUpToAt(st: Store, user: string, task: string, stamp: string, k: nat, u: string, t: string)
    requires SoundAt(st, u, t)
    ensures SoundAt(DisabledUpTo(st, user, task, stamp, k), u, t)
  {
    OnIsNotOff();
  }

  /** A disable takes the hash entry away first, so nobody misses anything wherever it breaks off. */
  lemma BrokenDisableSound(st: Store, user: string, task: string, stamp: string, k: nat)
    requires Sound(st) && k <= 3
    ensures Sound(Effects(st, DisablePipeline(user, task, stamp)[..k]))
  {
    DisablePrefix(st, user, task, stamp, k);
    forall u, t ensures SoundAt(DisabledUpTo(st, user, task, stamp, k), u, t) {
      assert SoundAt(st, u, t);
      DisabledUpToAt(st, user, task, stamp, k, u, t);
    }
  }

  /** A delete clears the hashes first, so nobody misses anything wherever it breaks off. */
  lemma BrokenDeleteSound(st: Store, user: string, sent: seq<Command>, cs: seq<Command>)
    requires Sound(st) && IsPipeline(st, Delete(user), cs) && sent <= cs
    ensures AllValid(sent) && Sound(Effects(st, sent))
  {
    PipelineProper(st, Delete(user), cs);
    forall u, t ensures SoundAt(Effects(st, sent), u, t) {
      assert SoundAt(st, u, t);
      if sent != [] {
        DeleteBegins(st, user, sent, cs);
        if u != user {
          OthersKept(st, user, sent, cs, Field(Tasks, u, t));
          OthersKept(st, user, sent, cs, Member(TaskUsers, t, u));
          OthersKept(st, user, sent, cs, Member(AllUsers, "", u));
          SameEntries(st, Effects(st, sent), u, t);
        }
      }
    }
  }

  lemma OthersKept(st: Store, user: string, sent: seq<Command>, cs: seq<Command>, cell: Cell)
    requires IsPipeline(st, Delete(user), cs) && (forall c <- sent :: c in cs) && cell.Valid()
    requires if cell.Field? then cell.id != user else cell.member != user
    ensures AllValid(sent) && View(Effects(st, sent), cell) == View(st, cell)
  {
    BrokenDeleteCell(st, user, sent, cs, cell);
    if c :| c in sent && Touches(c, cell) {
      DeleteCommands(st, user, cs, c);
    }
  }

  lemma SameEntries(a: Store, b: Store, user: string, task: string)
    requires View(a, Field(Tasks, user, task)) == View(b, Field(Tasks, user, task))
    requires View(a, Member(TaskUsers, task, user)) == View(b, Member(TaskUsers, task, user))
    requires View(a, Member(AllUsers, "", user)) == View(b, Member(AllUsers, "", user))
    ensures SoundAt(a, user, task) <==> SoundAt(b, user, task)
  {
    assert Enabled(a, user, task) <==> View(a, Field(Tasks, user, task)) == Some(ON);
    assert Enabled(b, user, task) <==> View(b, Field(Tasks, user, task)) == Some(ON);
  }

  // ----- a save that breaks off -----

  function TasksWritten(op: Op): Command
    requires op.Save?
  {
    HSet(Tasks, op.user, Encoded(op.enabled))
  }

  /** The commands of a save after the one that clears the hashes and the one that fills the tasks. */
  ghost predicate LaterInSave(op: Op, c: Command)
    requires op.Save?
  {
    || (c.HSet? && c.kind != Tasks && c.id == op.user)
    || c == SAdd(AllUsers, "", op.user)
    || exists t :: t in op.enabled && c == IndexCommand(op.user, t, op.enabled[t])
  }

  lemma IndexIsLater(op: Op, order: seq<string>, c: Command)
    requires op.Save? && Lists(order, op.enabled) && c in IndexCommands(op.user, op.enabled, order)
    ensures LaterInSave(op, c)
  {
    var i :| 0 <= i < |order| && IndexCommands(op.user, op.enabled, order)[i] == c;
    assert order[i] in order;
  }

  lemma SaveBegins(st: Store, op: Op, cs: seq<Command>)
    requires op.Save? && IsPipeline(st, op, cs)
    ensures cs != [] && cs[0] == Del(op.user, false)
    ensures op.enabled != map[] ==> 1 < |cs| && cs[1] == TasksWritten(op)
    ensures var later := cs[if op.enabled == map[] then 1 else 2..]; forall c <- later :: LaterInSave(op, c)
  {
    var u, enabled := op.user, op.enabled;
    var order :| Lists(order, enabled)
                 && cs == SaveHead(u, enabled, op.settings, op.stamp) + IndexCommands(u, enabled, order);
    EncodedEmpty(enabled);
    var rest := Fill(Settings, u, EncodedSettings(op.settings)) + [Stamp(u, op.stamp), SAdd(AllUsers, "", u)]
                + IndexCommands(u, enabled, order);
    assert cs == [Del(u, false)] + Fill(Tasks, u, Encoded(enabled)) + rest;
    assert cs[if enabled == map[] then 1 else 2..] == rest;
    RestIsLater(op, order);
  }

  lemma RestIsLater(op: Op, order: seq<string>)
    requires op.Save? && Lists(order, op.enabled)
    ensures forall c <- Fill(Settings, op.user, EncodedSettings(op.settings))
                        + [Stamp(op.user, op.stamp), SAdd(AllUsers, "", op.user)]
                        + IndexCommands(op.user, op.enabled, order) :: LaterInSave(op, c)
  {
    forall c | c in IndexCommands(op.user, op.enabled, order) ensures LaterInSave(op, c) {
      IndexIsLater(op, order, c);
    }
  }

  lemma EncodedEmpty(enabled: map<string, bool>)
    ensures Encoded(enabled) == map[] <==> enabled == map[]
  {
    assert Encoded(enabled).Keys == enabled.Keys;
  }

  lemma LaterLeavesTasks(op: Op, c: Command, task: string)
    requires op.Save? && LaterInSave(op, c)
    ensures !Touches(c, Field(Tasks, op.user, task))
  {
  }

  lemma WrittenTask(st: Store, op: Op, sent: seq<Command>, task: string)
    requires op.Save? && task in op.enabled && (forall c <- sent :: Plain(c))
    requires 1 < |sent| && sent[1] == TasksWritten(op) && (forall c <- sent[2..] :: LaterInSave(op, c))
    ensures AllValid(sent)
    ensures View(Effects(st, sent), Field(Tasks, op.user, task)) == Some(Encoded(op.enabled)[task])
  {
    forall c | c in sent[2..] ensures Plain(c) && !Touches(c, Field(Tasks, op.user, task)) {
      LaterLeavesTasks(op, c, task);
    }
    assert sent[0] in sent && sent[1] in sent && sent == [sent[0]] + ([sent[1]] + sent[2..]);
    LastWrite(st, [sent[0]], sent[1], sent[2..], Field(Tasks, op.user, task));
  }

  lemma ClearedTask(st: Store, op: Op, sent: seq<Command>, task: string)
    requires op.Save? && sent != [] && sent[0] == Del(op.user, false) && (forall c <- sent :: Plain(c))
    requires forall c <- sent[1..] :: LaterInSave(op, c) || (c == TasksWritten(op) && task !in op.enabled)
    ensures AllValid(sent)
    ensures View(Effects(st, sent), Field(Tasks, op.user, task)) == None
  {
    forall c | c in sent[1..] ensures Plain(c) && !Touches(c, Field(Tasks, op.user, task)) {
      if LaterInSave(op, c) {
        LaterLeavesTasks(op, c, task);
      }
    }
    assert sent[0] in sent && sent == [] + ([sent[0]] + sent[1..]);
    LastWrite(st, [], sent[0], sent[1..], Field(Tasks, op.user, task));
  }

  /** A task field of the saving user once the save has begun. */
  lemma BrokenSaveTask(st: Store, op: Op, sent: seq<Command>, cs: seq<Command>, task: string)
    requires op.Save? && IsPipeline(st, op, cs) && sent != [] && sent <= cs
    ensures AllValid(sent)
    ensures View(Effects(st, sent), Field(Tasks, op.user, task))
         == if TasksWritten(op) in sent && task in op.enabled then Some(Encoded(op.enabled)[task]) else None
  {
    PipelineProper(st, op, cs);
    SentOfSave(st, op, sent, cs);
    if TasksWritten(op) in sent && task in op.enabled {
      WrittenTask(st, op, sent, task);
    } else {
      ClearedTask(st, op, sent, task);
    }
  }

  /** What has been sent of a save: the first command, then perhaps the tasks, then later ones. */
  lemma SentOfSave(st: Store, op: Op, sent: seq<Command>, cs: seq<Command>)
    requires op.Save? && IsPipeline(st, op, cs) && sent != [] && sent <= cs
    ensures sent[0] == Del(op.user, false)
    ensures forall c <- sent[1..] :: LaterInSave(op, c) || (c == TasksWritten(op) && op.enabled != map[])
    ensures TasksWritten(op) in sent && op.enabled != map[] ==>
              1 < |sent| && sent[1] == TasksWritten(op) && forall c <- sent[2..] :: LaterInSave(op, c)
  {
    SaveBegins(st, op, cs);
    var from := if op.enabled == map[] then 1 else 2;
    forall i | 1 <= i < |sent|
      ensures LaterInSave(op, sent[i]) || (i == 1 && from == 2 && sent[i] == TasksWritten(op))
    {
      assert sent[i] == cs[i];
      if from <= i {
        assert cs[from..][i - from] in cs[from..];
      }
    }
  }

  /** The saving user's entries in the sets: there when they were before or have been sent. */
  lemma BrokenSaveEntry(st: Store, op: Op, sent: seq<Command>, cs: seq<Command>, add: Command)
    requires op.Save? && IsPipeline(st, op, cs) && sent <= cs
    requires add == SAdd(AllUsers, "", op.user)
          || exists t :: t in op.enabled && op.enabled[t] && add == SAdd(TaskUsers, t, op.user)
    ensures AllValid(sent)
    ensures var cell := Member(add.kind, add.id, op.user);
            View(Effects(st, sent), cell) == if add in sent then Some("") else View(st, cell)
  {
    var cell := Member(add.kind, add.id, op.user);
    PipelineProper(st, op, cs);
    forall c | c in sent && Touches(c, cell) ensures c == add {
      SentOfSave(st, op, sent, cs);
      assert c in sent[1..];
    }
    CellAfter(st, sent, cell, Some(""));
    assert add in sent ==> Touches(add, cell);
  }

  lemma OthersKeptBySave(st: Store, op: Op, sent: seq<Command>, cs: seq<Command>, cell: Cell)
    requires op.Save? && IsPipeline(st, op, cs) && sent <= cs && cell.Valid()
    requires if cell.Field? then cell.id != op.user else cell.member != op.user
    ensures AllValid(sent) && View(Effects(st, sent), cell) == View(st, cell)
  {
    PipelineProper(st, op, cs);
    forall c | c in sent ensures !Touches(c, cell) {
      SentOfSave(st, op, sent, cs);
      assert c == sent[0] || c in sent[1..];
    }
    CellAfter(st, sent, cell, None);
  }

  /** The saving user can be found for a task: from before, or because the entry was sent. */
  predicate Findable(st: Store, op: Op, sent: seq<Command>, task: string)
    requires op.Save?
  {
    && (op.user in st.all || SAdd(AllUsers, "", op.user) in sent)
    && (op.user in UsersOf(st, task) || SAdd(TaskUsers, task, op.user) in sent)
  }

  lemma BrokenSaveSoundAt(st: Store, op: Op, sent: seq<Command>, cs: seq<Command>, task: string)
    requires op.Save? && IsPipeline(st, op, cs) && sent != [] && sent <= cs
    ensures AllValid(sent)
    ensures SoundAt(Effects(st, sent), op.user, task)
       <==> TasksWritten(op) in sent && task in op.enabled && op.enabled[task] ==> Findable(st, op, sent, task)
  {
    var broken := Field(Tasks, op.user, task);
    BrokenSaveTask(st, op, sent, cs, task);
    var after := Effects(st, sent);
    EncodedMeans(op.enabled, task);
    assert Enabled(after, op.user, task) <==> View(after, broken) == Some(ON);
    if task in op.enabled && op.enabled[task] {
      BrokenSaveEntry(st, op, sent, cs, SAdd(AllUsers, "", op.user));
      BrokenSaveEntry(st, op, sent, cs, SAdd(TaskUsers, task, op.user));
      assert op.user in after.all <==> View(after, Member(AllUsers, "", op.user)) == Some("");
      assert op.user in UsersOf(after, task) <==> View(after, Member(TaskUsers, task, op.user)) == Some("");
    }
  }

  /** A save that broke off leaves everybody findable exactly when its tasks were not written, or the
      user is in both sets for every task saved as enabled, from before or because it was sent. */
  lemma BrokenSaveSoundIff(st: Store, op: Op, sent: seq<Command>, cs: seq<Command>)
    requires Sound(st) && op.Save? && IsPipeline(st, op, cs) && sent <= cs
    ensures AllValid(sent)
    ensures Sound(Effects(st, sent))
       <==> TasksWritten(op) !in sent
            || forall t :: t in op.enabled && op.enabled[t] ==> Findable(st, op, sent, t)
  {
    PipelineProper(st, op, cs);
    assert AllValid(sent);
    if sent != [] {
      forall u, t | u != op.user ensures SoundAt(Effects(st, sent), u, t) {
        assert SoundAt(st, u, t);
        OthersKeptBySave(st, op, sent, cs, Field(Tasks, u, t));
        OthersKeptBySave(st, op, sent, cs, Member(TaskUsers, t, u));
        OthersKeptBySave(st, op, sent, cs, Member(AllUsers, "", u));
        SameEntries(st, Effects(st, sent), u, t);
      }
      forall t
        ensures SoundAt(Effects(st, sent), op.user, t)
           <==> TasksWritten(op) in sent && t in op.enabled && op.enabled[t] ==> Findable(st, op, sent, t)
      {
        BrokenSaveSoundAt(st, op, sent, cs, t);
      }
    }
  }
}
