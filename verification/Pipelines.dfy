/** The user store's operations as the pipelines of single Redis commands they send, what a
    pipeline does to the five maps, and why interleaved pipelines do not disturb each other. */
module Pipelines {
  import opened Preferences
  import opened Redis
  import opened StoreKeys

  datatype Command =
    | HSet(kind: Kind, id: string, fields: map<string, string>)
    | SAdd(kind: Kind, id: string, member: string)
    | SRem(kind: Kind, id: string, member: string)
    | Del(id: string, withMeta: bool)
  {
    predicate Valid() {
      match this
      case HSet(kind, _, fields) => kind.HoldsHash() && fields != map[]
      case SAdd(kind, _, _) => !kind.HoldsHash()
      case SRem(kind, _, _) => !kind.HoldsHash()
      case Del(_, _) => true
    }
  }

  /** The command on the flat database. */
  function Do(db: Db, c: Command): Db {
    match c
    case HSet(kind, id, fields) => Redis.HSet(db, Key(kind, id), fields)
    case SAdd(kind, id, member) => Redis.SAdd(db, Key(kind, id), member)
    case SRem(kind, id, member) => Redis.SRem(db, Key(kind, id), member)
    case Del(id, withMeta) =>
      var hashes := Redis.Del(Redis.Del(db, {Key(Tasks, id)}), {Key(Settings, id)});
      if withMeta then Redis.Del(hashes, {Key(Meta, id)}) else hashes
  }

  /** The command on the five maps. */
  function Effect(st: Store, c: Command): Store
    requires c.Valid()
  {
    match c
    case HSet(kind, id, fields) => WithHash(st, kind, id, HashOf(st, kind, id) + fields)
    case SAdd(kind, id, member) => WithMembers(st, kind, id, MembersOf(st, kind, id) + {member})
    case SRem(kind, id, member) => WithMembers(st, kind, id, MembersOf(st, kind, id) - {member})
    case Del(id, withMeta) =>
      var cleared := WithHash(WithHash(st, Tasks, id, map[]), Settings, id, map[]);
      if withMeta then WithHash(cleared, Meta, id, map[]) else cleared
  }

  predicate AllValid(cs: seq<Command>) {
    forall c <- cs :: c.Valid()
  }

  function Exec(db: Db, cs: seq<Command>): Db
    decreases cs
  {
    if cs == [] then db else Exec(Do(db, cs[0]), cs[1..])
  }

  function Effects(st: Store, cs: seq<Command>): Store
    requires AllValid(cs)
    decreases cs
  {
    if cs == [] then st else Effects(Effect(st, cs[0]), cs[1..])
  }

  lemma DoRepresents(db: Db, st: Store, c: Command)
    requires Represents(db, st) && c.Valid()
    ensures Represents(Do(db, c), Effect(st, c))
  {
    match c
    case HSet(kind, id, fields) => HSetRepresents(db, st, kind, id, fields);
    case SAdd(kind, id, member) => SAddRepresents(db, st, kind, id, member);
    case SRem(kind, id, member) => SRemRepresents(db, st, kind, id, member);
    case Del(id, withMeta) =>
      var db1, st1 := Redis.Del(db, {Key(Tasks, id)}), WithHash(st, Tasks, id, map[]);
      var db2, st2 := Redis.Del(db1, {Key(Settings, id)}), WithHash(st1, Settings, id, map[]);
      DelRepresents(db, st, Tasks, id);
      DelRepresents(db1, st1, Settings, id);
      DelRepresents(db2, st2, Meta, id);
  }

  /** The flat database follows the five maps through any sequence of commands. */
  lemma {:induction false} ExecRepresents(db: Db, st: Store, cs: seq<Command>)
    requires Represents(db, st) && AllValid(cs)
    ensures Represents(Exec(db, cs), Effects(st, cs))
    decreases cs
  {
    if cs != [] {
      DoRepresents(db, st, cs[0]);
      ExecRepresents(Do(db, cs[0]), Effect(st, cs[0]), cs[1..]);
    }
  }

  lemma {:induction false} EffectsAppend(st: Store, xs: seq<Command>, ys: seq<Command>)
    requires AllValid(xs) && AllValid(ys)
    ensures Effects(st, xs + ys) == Effects(Effects(st, xs), ys)
    decreases xs
  {
    if xs == [] {
      assert xs + ys == ys;
    } else {
      assert (xs + ys)[0] == xs[0] && (xs + ys)[1..] == xs[1..] + ys;
      EffectsAppend(Effect(st, xs[0]), xs[1..], ys);
    }
  }

  // ----- the pipelines -----

  function Stamp(user: string, stamp: string): Command {
    HSet(Meta, user, map["last_modified" := stamp])
  }

  function EnablePipeline(user: string, task: string, stamp: string): (cs: seq<Command>)
    ensures AllValid(cs)
  {
    assert task in map[task := ON];
    assert "last_modified" in map["last_modified" := stamp];
    [HSet(Tasks, user, map[task := ON]), Stamp(user, stamp), SAdd(AllUsers, "", user), SAdd(TaskUsers, task, user)]
  }

  function DisablePipeline(user: string, task: string, stamp: string): (cs: seq<Command>)
    ensures AllValid(cs)
  {
    assert task in map[task := OFF];
    assert "last_modified" in map["last_modified" := stamp];
    [HSet(Tasks, user, map[task := OFF]), Stamp(user, stamp), SRem(TaskUsers, task, user)]
  }

  /** HMSET is sent only when there is something to write. */
  function Fill(kind: Kind, id: string, fields: map<string, string>): (cs: seq<Command>)
    requires kind.HoldsHash()
    ensures AllValid(cs)
  {
    if fields == map[] then [] else [HSet(kind, id, fields)]
  }

  function SaveHead(user: string, enabled: map<string, bool>, settings: SettingsMap, stamp: string): (cs: seq<Command>)
    ensures AllValid(cs)
  {
    assert "last_modified" in map["last_modified" := stamp];
    ([Del(user, false)] + (Fill(Tasks, user, Encoded(enabled)) + Fill(Settings, user, EncodedSettings(settings))))
    + [Stamp(user, stamp), SAdd(AllUsers, "", user)]
  }

  function IndexCommand(user: string, task: string, on: bool): Command {
    if on then SAdd(TaskUsers, task, user) else SRem(TaskUsers, task, user)
  }

  /** One index command per task, in the order the map iteration happened to take. */
  function IndexCommands(user: string, enabled: map<string, bool>, order: seq<string>): (cs: seq<Command>)
    requires forall t <- order :: t in enabled
    ensures AllValid(cs) && |cs| == |order|
  {
    seq(|order|, i requires 0 <= i < |order| => IndexCommand(user, order[i], enabled[order[i]]))
  }

  function DeleteHead(user: string): (cs: seq<Command>)
    ensures AllValid(cs)
  {
    [Del(user, true), SRem(AllUsers, "", user)]
  }

  lemma TwoEffects(st: Store, a: Command, b: Command)
    requires a.Valid() && b.Valid()
    ensures Effects(st, [a, b]) == Effect(Effect(st, a), b)
  {
    assert [a, b][1..] == [b] && [b][1..] == [];
    assert Effects(Effect(st, a), [b]) == Effect(Effect(st, a), b);
  }

  lemma EnablePipelineEffect(st: Store, user: string, task: string, stamp: string)
    ensures Effects(st, EnablePipeline(user, task, stamp)) == TaskEnabled(st, user, task, stamp)
  {
    var cs := EnablePipeline(user, task, stamp);
    assert cs == cs[..2] + cs[2..];
    EffectsAppend(st, cs[..2], cs[2..]);
    TwoEffects(st, cs[0], cs[1]);
    TwoEffects(Effects(st, cs[..2]), cs[2], cs[3]);
    assert cs[..2] == [cs[0], cs[1]] && cs[2..] == [cs[2], cs[3]];
  }

  lemma DisablePipelineEffect(st: Store, user: string, task: string, stamp: string)
    ensures Effects(st, DisablePipeline(user, task, stamp)) == TaskDisabled(st, user, task, stamp)
  {
    var cs := DisablePipeline(user, task, stamp);
    assert cs == [cs[0]] + [cs[1], cs[2]];
    EffectsAppend(st, [cs[0]], [cs[1], cs[2]]);
    assert [cs[0]][1..] == [];
    TwoEffects(Effect(st, cs[0]), cs[1], cs[2]);
  }

  lemma FillEffect(st: Store, kind: Kind, id: string, fields: map<string, string>)
    requires kind.HoldsHash() && HashOf(st, kind, id) == map[]
    requires WithHash(st, kind, id, map[]) == st
    ensures Effects(st, Fill(kind, id, fields)) == WithHash(st, kind, id, fields)
  {
    if fields != map[] {
      assert [HSet(kind, id, fields)][1..] == [];
      assert map[] + fields == fields;
    }
  }

  function HashesReplaced(st: Store, user: string, tasks: map<string, string>, settings: map<string, string>): Store {
    st.(tasks := st.tasks[user := tasks], settings := st.settings[user := settings])
  }

  lemma FillTasksEffect(st: Store, user: string, tasks: map<string, string>)
    ensures Effects(HashesReplaced(st, user, map[], map[]), Fill(Tasks, user, tasks))
         == HashesReplaced(st, user, tasks, map[])
  {
    var cleared := HashesReplaced(st, user, map[], map[]);
    assert cleared.tasks[user := map[]] == cleared.tasks;
    FillEffect(cleared, Tasks, user, tasks);
    assert st.tasks[user := map[]][user := tasks] == st.tasks[user := tasks];
  }

  lemma FillSettingsEffect(st: Store, user: string, tasks: map<string, string>, settings: map<string, string>)
    ensures Effects(HashesReplaced(st, user, tasks, map[]), Fill(Settings, user, settings))
         == HashesReplaced(st, user, tasks, settings)
  {
    var cleared := HashesReplaced(st, user, tasks, map[]);
    assert cleared.settings[user := map[]] == cleared.settings;
    FillEffect(cleared, Settings, user, settings);
    assert st.settings[user := map[]][user := settings] == st.settings[user := settings];
  }

  lemma ReplaceEffect(st: Store, user: string, tasks: map<string, string>, settings: map<string, string>)
    ensures Effects(st, [Del(user, false)] + (Fill(Tasks, user, tasks) + Fill(Settings, user, settings)))
         == HashesReplaced(st, user, tasks, settings)
  {
    EffectsAppend(st, [Del(user, false)], Fill(Tasks, user, tasks) + Fill(Settings, user, settings));
    assert [Del(user, false)][1..] == [];
    assert Effect(st, Del(user, false)) == HashesReplaced(st, user, map[], map[]);
    EffectsAppend(HashesReplaced(st, user, map[], map[]), Fill(Tasks, user, tasks), Fill(Settings, user, settings));
    FillTasksEffect(st, user, tasks);
    FillSettingsEffect(st, user, tasks, settings);
  }

  lemma SaveHeadEffect(st: Store, user: string, enabled: map<string, bool>, settings: SettingsMap, stamp: string)
    ensures Effects(st, SaveHead(user, enabled, settings, stamp))
         == Saved(st, user, enabled, settings, stamp).(index := st.index)
  {
    var tasks, fields := Encoded(enabled), EncodedSettings(settings);
    assert "last_modified" in map["last_modified" := stamp];
    var stampAndJoin := [Stamp(user, stamp), SAdd(AllUsers, "", user)];
    EffectsAppend(st, [Del(user, false)] + (Fill(Tasks, user, tasks) + Fill(Settings, user, fields)), stampAndJoin);
    ReplaceEffect(st, user, tasks, fields);
    TwoEffects(HashesReplaced(st, user, tasks, fields), stampAndJoin[0], stampAndJoin[1]);
  }

  function Chosen(enabled: map<string, bool>, order: seq<string>): map<string, bool>
    requires forall t <- order :: t in enabled
  {
    map t | t in order :: enabled[t]
  }

  lemma IndexCommandsSnoc(user: string, enabled: map<string, bool>, init: seq<string>, task: string)
    requires task in enabled && forall t <- init :: t in enabled
    ensures IndexCommands(user, enabled, init + [task])
         == IndexCommands(user, enabled, init) + [IndexCommand(user, task, enabled[task])]
  {
  }

  /** The index commands amount to one reindexing, in whatever order they come. */
  lemma {:induction false} IndexCommandsEffect(st: Store, user: string, enabled: map<string, bool>, order: seq<string>)
    requires forall t <- order :: t in enabled
    ensures Effects(st, IndexCommands(user, enabled, order))
         == st.(index := Reindexed(st.index, user, Chosen(enabled, order)))
    decreases |order|
  {
    if order == [] {
      assert Reindexed(st.index, user, Chosen(enabled, [])) == st.index;
    } else {
      var n := |order| - 1;
      var init := order[..n];
      var last := IndexCommand(user, order[n], enabled[order[n]]);
      IndexCommandsEffect(st, user, enabled, init);
      assert order == init + [order[n]];
      IndexCommandsSnoc(user, enabled, init, order[n]);
      EffectsAppend(st, IndexCommands(user, enabled, init), [last]);
      OneMoreIndexCommand(st, user, enabled, init, order[n]);
    }
  }

  lemma OneMoreIndexCommand(st: Store, user: string, enabled: map<string, bool>, init: seq<string>, task: string)
    requires task in enabled && forall t <- init :: t in enabled
    ensures var before := st.(index := Reindexed(st.index, user, Chosen(enabled, init)));
            Effects(before, [IndexCommand(user, task, enabled[task])])
            == st.(index := Reindexed(st.index, user, Chosen(enabled, init + [task])))
  {
    var last := IndexCommand(user, task, enabled[task]);
    assert [last][1..] == [];
    LastIndexCommand(st.index, user, Chosen(enabled, init), task, enabled[task]);
    assert Chosen(enabled, init + [task]) == Chosen(enabled, init)[task := enabled[task]];
  }

  lemma LastIndexCommand(index: map<string, set<string>>, user: string, done: map<string, bool>, task: string, on: bool)
    requires task in done ==> done[task] == on
    ensures var users := IndexRow(Reindexed(index, user, done), task);
            Reindexed(index, user, done)[task := if on then users + {user} else users - {user}]
            == Reindexed(index, user, done[task := on])
  {
    var users := IndexRow(Reindexed(index, user, done), task);
    var left := Reindexed(index, user, done)[task := if on then users + {user} else users - {user}];
    var right := Reindexed(index, user, done[task := on]);
    assert left.Keys == right.Keys;
    forall t | t in left ensures left[t] == right[t] {
    }
  }

  lemma SavePipelineEffect(
    st: Store, user: string, enabled: map<string, bool>, settings: SettingsMap, stamp: string, order: seq<string>)
    requires forall t :: t in order <==> t in enabled
    ensures Effects(st, SaveHead(user, enabled, settings, stamp) + IndexCommands(user, enabled, order))
         == Saved(st, user, enabled, settings, stamp)
  {
    EffectsAppend(st, SaveHead(user, enabled, settings, stamp), IndexCommands(user, enabled, order));
    SaveHeadEffect(st, user, enabled, settings, stamp);
    IndexCommandsEffect(Saved(st, user, enabled, settings, stamp).(index := st.index), user, enabled, order);
    assert Chosen(enabled, order) == enabled;
  }

  lemma DeletePipelineEffect(st: Store, user: string, gone: map<string, bool>, order: seq<string>)
    requires gone == Gone(st, user)
    requires forall t :: t in order <==> t in gone
    ensures Effects(st, DeleteHead(user) + IndexCommands(user, gone, order)) == Deleted(st, user)
  {
    EffectsAppend(st, DeleteHead(user), IndexCommands(user, gone, order));
    TwoEffects(st, Del(user, true), SRem(AllUsers, "", user));
    IndexCommandsEffect(Deleted(st, user).(index := st.index), user, gone, order);
    assert Chosen(gone, order) == gone;
  }
}
