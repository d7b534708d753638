/** What each user-store operation does to the five maps, and what whole runs of them keep:
    the index agrees with the hashes, and read-modify-write agrees with the direct operations. */
module Preferences {
  import opened StoreKeys
  import opened Wrappers

  /** Settings as their JSON text; None is a nil pointer in the settings map. */
  type SettingsMap = map<string, Option<string>>

  const ON: string := "1"
  const OFF: string := "0"

  function Encoded(enabled: map<string, bool>): map<string, string> {
    map t | t in enabled :: if enabled[t] then ON else OFF
  }

  function Decoded(fields: map<string, string>): map<string, bool> {
    map t | t in fields :: fields[t] == ON
  }

  function EncodedSettings(settings: SettingsMap): map<string, string> {
    map t | t in settings && settings[t].Some? :: settings[t].value
  }

  function DecodedSettings(fields: map<string, string>): SettingsMap {
    map t | t in fields :: Some(fields[t])
  }

  /** The index after a save: the user joins or leaves the sets of the tasks in the saved map only. */
  function Reindexed(
    index: map<string, set<string>>, user: string, enabled: map<string, bool>): map<string, set<string>>
  {
    map t | t in index.Keys + enabled.Keys ::
      (if t !in enabled then IndexRow(index, t)
       else if enabled[t] then IndexRow(index, t) + {user}
       else IndexRow(index, t) - {user})
  }

  function Stamped(st: Store, user: string, stamp: string): Store {
    st.(meta := st.meta[user := Row(st.meta, user) + map["last_modified" := stamp]])
  }

  function Saved(st: Store, user: string, enabled: map<string, bool>, settings: SettingsMap, stamp: string): Store {
    Stamped(st, user, stamp).(
      tasks := st.tasks[user := Encoded(enabled)],
      settings := st.settings[user := EncodedSettings(settings)],
      all := st.all + {user},
      index := Reindexed(st.index, user, enabled))
  }

  function WithTask(st: Store, user: string, task: string, value: string): Store {
    st.(tasks := st.tasks[user := TasksOf(st, user) + map[task := value]])
  }

  function TaskEnabled(st: Store, user: string, task: string, stamp: string): Store {
    Stamped(WithTask(st, user, task, ON), user, stamp).(
      all := st.all + {user},
      index := st.index[task := UsersOf(st, task) + {user}])
  }

  function TaskDisabled(st: Store, user: string, task: string, stamp: string): Store {
    Stamped(WithTask(st, user, task, OFF), user, stamp).(
      index := st.index[task := UsersOf(st, task) - {user}])
  }

  /** The tasks a delete takes its user out of: those its read listed. */
  function Gone(st: Store, user: string): map<string, bool> {
    map t | t in TasksOf(st, user) :: false
  }

  function Deleted(st: Store, user: string): Store {
    Store(
      st.tasks[user := map[]], st.settings[user := map[]], st.meta[user := map[]],
      st.all - {user},
      Reindexed(st.index, user, Gone(st, user)))
  }

  // ----- runs of atomic operations -----

  datatype Op =
    | Save(user: string, enabled: map<string, bool>, settings: SettingsMap, stamp: string)
    | Enable(user: string, task: string, stamp: string)
    | Disable(user: string, task: string, stamp: string)
    | Delete(user: string)

  /** An empty user or task id is refused without effect. */
  function Apply(st: Store, op: Op): Store {
    match op
    case Save(u, enabled, settings, stamp) => if u == "" then st else Saved(st, u, enabled, settings, stamp)
    case Enable(u, t, stamp) => if u == "" || t == "" then st else TaskEnabled(st, u, t, stamp)
    case Disable(u, t, stamp) => if u == "" || t == "" then st else TaskDisabled(st, u, t, stamp)
    case Delete(u) => if u == "" then st else Deleted(st, u)
  }

  function Run(st: Store, ops: seq<Op>): Store
    decreases ops
  {
    if ops == [] then st else Run(Apply(st, ops[0]), ops[1..])
  }

  /** The hashes are the truth about who has what enabled. */
  predicate Enabled(st: Store, user: string, task: string) {
    task in TasksOf(st, user) && TasksOf(st, user)[task] == ON
  }

  predicate SoundAt(st: Store, user: string, task: string) {
    Enabled(st, user, task) ==> user in UsersOf(st, task) && user in st.all
  }

  /** Nobody with an enabled task is missing from its index set or from the set of all users. */
  ghost predicate Sound(st: Store) {
    forall user, task :: SoundAt(st, user, task)
  }

  predicate ExactAt(st: Store, user: string, task: string) {
    user in UsersOf(st, task) <==> Enabled(st, user, task)
  }

  ghost predicate Exact(st: Store) {
    forall user, task :: ExactAt(st, user, task)
  }

  /** Hashes hold "1" and "0" only. */
  ghost predicate Binary(st: Store) {
    forall user, task :: BinaryAt(st, user, task)
  }

  predicate BinaryAt(st: Store, user: string, task: string) {
    task in TasksOf(st, user) ==> TasksOf(st, user)[task] in {OFF, ON}
  }

  /** The abstract relation: what an operation does to who has what enabled. */
  predicate EnabledAfter(st: Store, op: Op, user: string, task: string) {
    match op
    case Save(u, enabled, _, _) =>
      if user == u && u != "" then task in enabled && enabled[task] else Enabled(st, user, task)
    case Enable(u, t, _) => (user == u && task == t && u != "" && t != "") || Enabled(st, user, task)
    case Disable(u, t, _) => Enabled(st, user, task) && !(user == u && task == t && u != "" && t != "")
    case Delete(u) => Enabled(st, user, task) && !(user == u && u != "")
  }

  lemma OnIsNotOff()
    ensures ON != OFF
  {
    assert ON[0] != OFF[0];
  }

  lemma EncodedMeans(enabled: map<string, bool>, task: string)
    ensures (task in Encoded(enabled) && Encoded(enabled)[task] == ON) <==> (task in enabled && enabled[task])
  {
    OnIsNotOff();
  }

  lemma SavedRelation(st: Store, op: Op, user: string, task: string)
    requires op.Save?
    ensures Enabled(Apply(st, op), user, task) <==> EnabledAfter(st, op, user, task)
  {
    EncodedMeans(op.enabled, task);
  }

  lemma WithTaskRelation(st: Store, u: string, t: string, value: string, user: string, task: string)
    ensures Enabled(WithTask(st, u, t, value), user, task)
        <==> if user == u && task == t then value == ON else Enabled(st, user, task)
  {
  }

  lemma SwitchedRelation(st: Store, op: Op, user: string, task: string)
    requires op.Enable? || op.Disable?
    ensures Enabled(Apply(st, op), user, task) <==> EnabledAfter(st, op, user, task)
  {
    OnIsNotOff();
    var written := WithTask(st, op.user, op.task, if op.Enable? then ON else OFF);
    if op.user != "" && op.task != "" {
      assert TasksOf(Apply(st, op), user) == TasksOf(written, user);
      WithTaskRelation(st, op.user, op.task, if op.Enable? then ON else OFF, user, task);
    }
  }

  /** Every operation changes who has what enabled just as the relation says. */
  lemma ApplyRefinesRelation(st: Store, op: Op, user: string, task: string)
    ensures Enabled(Apply(st, op), user, task) <==> EnabledAfter(st, op, user, task)
  {
    match op
    case Save(_, _, _, _) => SavedRelation(st, op, user, task);
    case Enable(_, _, _) => SwitchedRelation(st, op, user, task);
    case Disable(_, _, _) => SwitchedRelation(st, op, user, task);
    case Delete(u) => assert u != "" ==> TasksOf(Apply(st, op), u) == map[];
  }

  lemma ApplyKeepsSoundAt(st: Store, op: Op, user: string, task: string)
    requires SoundAt(st, user, task)
    ensures SoundAt(Apply(st, op), user, task)
  {
    ApplyRefinesRelation(st, op, user, task);
  }

  lemma ApplyKeepsBinaryAt(st: Store, op: Op, user: string, task: string)
    requires BinaryAt(st, user, task)
    ensures BinaryAt(Apply(st, op), user, task)
  {
  }

  /** Over every run of atomic operations, the index never misses an enabled user. */
  lemma {:induction false} RunKeepsSound(st: Store, ops: seq<Op>)
    requires Sound(st) && Binary(st)
    ensures Sound(Run(st, ops)) && Binary(Run(st, ops))
    decreases ops
  {
    if ops != [] {
      forall user, task ensures SoundAt(Apply(st, ops[0]), user, task) {
        assert SoundAt(st, user, task);
        ApplyKeepsSoundAt(st, ops[0], user, task);
      }
      forall user, task ensures BinaryAt(Apply(st, ops[0]), user, task) {
        assert BinaryAt(st, user, task);
        ApplyKeepsBinaryAt(st, ops[0], user, task);
      }
      RunKeepsSound(Apply(st, ops[0]), ops[1..]);
    }
  }

  /** The saved map mentions every task the user has enabled. */
  ghost predicate Covers(st: Store, user: string, enabled: map<string, bool>) {
    forall task :: Enabled(st, user, task) ==> task in enabled
  }

  ghost predicate Covered(st: Store, op: Op) {
    op.Save? && op.user != "" ==> Covers(st, op.user, op.enabled)
  }

  lemma ApplyKeepsExactAt(st: Store, op: Op, user: string, task: string)
    requires ExactAt(st, user, task) && Covered(st, op)
    ensures ExactAt(Apply(st, op), user, task)
  {
    ApplyRefinesRelation(st, op, user, task);
  }

  /** From an exact index, an operation leaves the index exact exactly when a save covers the
      tasks its user had enabled. */
  lemma ApplyKeepsExactIff(st: Store, op: Op)
    requires Exact(st)
    ensures Exact(Apply(st, op)) <==> Covered(st, op)
  {
    if Covered(st, op) {
      forall user, task ensures ExactAt(Apply(st, op), user, task) {
        assert ExactAt(st, user, task);
        ApplyKeepsExactAt(st, op, user, task);
      }
    } else {
      var task :| Enabled(st, op.user, task) && task !in op.enabled;
      assert ExactAt(st, op.user, task);
      assert !ExactAt(Apply(st, op), op.user, task);
    }
  }

  ghost predicate RunCovered(st: Store, ops: seq<Op>)
    decreases ops
  {
    ops == [] || (Covered(st, ops[0]) && RunCovered(Apply(st, ops[0]), ops[1..]))
  }

  lemma {:induction false} RunKeepsExact(st: Store, ops: seq<Op>)
    requires Exact(st) && RunCovered(st, ops)
    ensures Exact(Run(st, ops))
    decreases ops
  {
    if ops != [] {
      ApplyKeepsExactIff(st, ops[0]);
      RunKeepsExact(Apply(st, ops[0]), ops[1..]);
    }
  }

  lemma EmptyStore()
    ensures Sound(EMPTY) && Exact(EMPTY) && Binary(EMPTY)
  {
  }

  // ----- what each operation leaves to be read -----

  /** Nothing of another user changes. */
  ghost predicate OthersUntouched(a: Store, b: Store, user: string) {
    forall u :: u != user ==> Untouched(a, b, u)
  }

  ghost predicate Untouched(a: Store, b: Store, u: string) {
    && TasksOf(a, u) == TasksOf(b, u) && Row(a.settings, u) == Row(b.settings, u) && Row(a.meta, u) == Row(b.meta, u)
    && (u in a.all <==> u in b.all) && forall t :: u in UsersOf(a, t) <==> u in UsersOf(b, t)
  }

  function Lookup(fields: map<string, string>, field: string): Option<string> {
    if field in fields then Some(fields[field]) else None
  }

  lemma DecodesBack(enabled: map<string, bool>, settings: SettingsMap)
    ensures Decoded(Encoded(enabled)) == enabled
    ensures DecodedSettings(EncodedSettings(settings)) == map t | t in settings && settings[t].Some? :: settings[t]
  {
    OnIsNotOff();
    assert Decoded(Encoded(enabled)).Keys == enabled.Keys;
    forall t | t in enabled ensures Decoded(Encoded(enabled))[t] == enabled[t] {
      EncodedMeans(enabled, t);
    }
  }

  lemma SaveLeavesOthers(st: Store, user: string, enabled: map<string, bool>, settings: SettingsMap, stamp: string)
    ensures OthersUntouched(st, Saved(st, user, enabled, settings, stamp), user)
  {
    var saved := Saved(st, user, enabled, settings, stamp);
    forall u | u != user ensures Untouched(st, saved, u) {
      forall t ensures u in UsersOf(st, t) <==> u in UsersOf(saved, t) {
        ReindexedElsewhere(st.index, user, enabled, t, u);
      }
    }
  }

  lemma ReindexedElsewhere(
    index: map<string, set<string>>, user: string, enabled: map<string, bool>, task: string, other: string)
    requires other != user
    ensures other in IndexRow(Reindexed(index, user, enabled), task) <==> other in IndexRow(index, task)
  {
  }

  /** What was saved is read back: the tasks, the settings that are not nil, and the stamp. */
  lemma SaveReadsBack(st: Store, user: string, enabled: map<string, bool>, settings: SettingsMap, stamp: string)
    requires user != ""
    ensures var saved := Apply(st, Save(user, enabled, settings, stamp));
            && Decoded(TasksOf(saved, user)) == enabled
            && DecodedSettings(Row(saved.settings, user)) == (map t | t in settings && settings[t].Some? :: settings[t])
            && Lookup(Row(saved.meta, user), "last_modified") == Some(stamp)
            && user in saved.all && OthersUntouched(st, saved, user)
  {
    var saved := Apply(st, Save(user, enabled, settings, stamp));
    assert TasksOf(saved, user) == Encoded(enabled) && Row(saved.settings, user) == EncodedSettings(settings);
    DecodesBack(enabled, settings);
    SaveLeavesOthers(st, user, enabled, settings, stamp);
  }

  lemma SwitchLeavesOthers(st: Store, user: string, task: string, stamp: string)
    ensures OthersUntouched(st, TaskEnabled(st, user, task, stamp), user)
    ensures OthersUntouched(st, TaskDisabled(st, user, task, stamp), user)
  {
    var on, off := TaskEnabled(st, user, task, stamp), TaskDisabled(st, user, task, stamp);
    forall u | u != user ensures Untouched(st, on, u) && Untouched(st, off, u) {
    }
  }

  lemma DecodesEdit(fields: map<string, string>, task: string, on: bool)
    ensures Decoded(fields + map[task := if on then ON else OFF]) == Decoded(fields)[task := on]
  {
    OnIsNotOff();
  }

  /** Enabling or disabling changes the one task and the stamp; enabling also enters the user. */
  lemma SwitchReadsBack(st: Store, user: string, task: string, on: bool, stamp: string)
    requires user != "" && task != ""
    ensures var switched := Apply(st, if on then Enable(user, task, stamp) else Disable(user, task, stamp));
            && Decoded(TasksOf(switched, user)) == Decoded(TasksOf(st, user))[task := on]
            && Row(switched.settings, user) == Row(st.settings, user)
            && Lookup(Row(switched.meta, user), "last_modified") == Some(stamp)
            && (user in switched.all <==> on || user in st.all)
            && (user in UsersOf(switched, task) <==> on) && OthersUntouched(st, switched, user)
  {
    var switched := Apply(st, if on then Enable(user, task, stamp) else Disable(user, task, stamp));
    assert TasksOf(switched, user) == TasksOf(st, user) + map[task := if on then ON else OFF];
    DecodesEdit(TasksOf(st, user), task, on);
    SwitchLeavesOthers(st, user, task, stamp);
  }

  /** Deleting leaves nothing of the user but index entries of tasks its hash did not list. */
  lemma DeleteReadsBack(st: Store, user: string)
    requires user != ""
    ensures var deleted := Apply(st, Delete(user));
            && TasksOf(deleted, user) == map[] && Row(deleted.settings, user) == map[]
            && Row(deleted.meta, user) == map[] && user !in deleted.all
            && (forall t :: user in UsersOf(deleted, t) <==> user in UsersOf(st, t) && t !in TasksOf(st, user))
            && OthersUntouched(st, deleted, user)
  {
  }

  // ----- read, modify, save -----

  /** In-memory edits of a preference: EnableTask and DisableTask. */
  datatype Edit = Edit(task: string, on: bool)

  function Edited(enabled: map<string, bool>, edits: seq<Edit>): map<string, bool>
    decreases edits
  {
    if edits == [] then enabled else Edited(enabled[edits[0].task := edits[0].on], edits[1..])
  }

  lemma {:induction false} EditsKeepKeys(enabled: map<string, bool>, edits: seq<Edit>)
    ensures enabled.Keys <= Edited(enabled, edits).Keys
    decreases edits
  {
    if edits != [] {
      EditsKeepKeys(enabled[edits[0].task := edits[0].on], edits[1..]);
    }
  }

  /** GetUserPreference, any edits, then Save always covers, so it keeps an exact index exact. */
  lemma ReadEditSaveCovers(st: Store, user: string, edits: seq<Edit>)
    ensures Covers(st, user, Edited(Decoded(TasksOf(st, user)), edits))
  {
    EditsKeepKeys(Decoded(TasksOf(st, user)), edits);
  }

  /** Two stores that no query of hashes or index can tell apart. */
  ghost predicate SameHashesAndIndex(a: Store, b: Store) {
    && (forall user :: TasksOf(a, user) == TasksOf(b, user))
    && (forall user :: Row(a.settings, user) == Row(b.settings, user))
    && (forall task :: UsersOf(a, task) == UsersOf(b, task))
  }

  /** GetUserPreference, one edit, SaveUserPreference. */
  function ReadEditSave(st: Store, user: string, task: string, on: bool, stamp: string): Store {
    Saved(st, user, Decoded(TasksOf(st, user))[task := on], DecodedSettings(Row(st.settings, user)), stamp)
  }

  /** Rewriting a hash of "1" and "0" through booleans changes only the edited task. */
  lemma DecodeEncode(fields: map<string, string>, task: string, on: bool)
    requires forall t <- fields :: fields[t] in {OFF, ON}
    ensures Encoded(Decoded(fields)[task := on]) == fields + map[task := if on then ON else OFF]
  {
    OnIsNotOff();
    var rewritten := Encoded(Decoded(fields)[task := on]);
    assert rewritten.Keys == fields.Keys + {task};
    forall t | t in rewritten ensures rewritten[t] == (fields + map[task := if on then ON else OFF])[t] {
    }
  }

  lemma SettingsRoundTrip(fields: map<string, string>)
    ensures EncodedSettings(DecodedSettings(fields)) == fields
  {
  }

  lemma SaveReindexesOnlyTask(st: Store, user: string, task: string, on: bool, t: string)
    requires Exact(st)
    ensures var enabled := Decoded(TasksOf(st, user))[task := on];
            IndexRow(Reindexed(st.index, user, enabled), t)
            == if t != task then UsersOf(st, t) else if on then UsersOf(st, t) + {user} else UsersOf(st, t) - {user}
  {
    assert ExactAt(st, user, t);
  }

  lemma ReadEditSaveTasks(st: Store, user: string, task: string, on: bool, stamp: string, other: string)
    requires Binary(st)
    ensures TasksOf(ReadEditSave(st, user, task, on, stamp), other)
         == TasksOf(WithTask(st, user, task, if on then ON else OFF), other)
  {
    forall t | t in TasksOf(st, user) ensures TasksOf(st, user)[t] in {OFF, ON} {
      assert BinaryAt(st, user, t);
    }
    DecodeEncode(TasksOf(st, user), task, on);
  }

  lemma ReadEditSaveIndex(st: Store, user: string, task: string, on: bool, stamp: string, t: string)
    requires Exact(st)
    ensures UsersOf(ReadEditSave(st, user, task, on, stamp), t)
         == if t != task then UsersOf(st, t) else if on then UsersOf(st, t) + {user} else UsersOf(st, t) - {user}
  {
    SaveReindexesOnlyTask(st, user, task, on, t);
  }

  lemma ReadEditSaveSettings(st: Store, user: string, task: string, on: bool, stamp: string, other: string)
    ensures Row(ReadEditSave(st, user, task, on, stamp).settings, other) == Row(st.settings, other)
  {
    SettingsRoundTrip(Row(st.settings, user));
  }

  /** What read-edit-save leaves: the edited hash entry, the index of that one task, nothing else. */
  lemma ReadEditSaveEffect(st: Store, target: Store, user: string, task: string, on: bool, stamp: string)
    requires Exact(st) && Binary(st)
    requires target.tasks == WithTask(st, user, task, if on then ON else OFF).tasks
    requires target.settings == st.settings
    requires target.index == st.index[task := if on then UsersOf(st, task) + {user} else UsersOf(st, task) - {user}]
    ensures SameHashesAndIndex(target, ReadEditSave(st, user, task, on, stamp))
  {
    var rewritten := ReadEditSave(st, user, task, on, stamp);
    forall u ensures TasksOf(target, u) == TasksOf(rewritten, u) {
      ReadEditSaveTasks(st, user, task, on, stamp, u);
    }
    forall u ensures Row(target.settings, u) == Row(rewritten.settings, u) {
      ReadEditSaveSettings(st, user, task, on, stamp, u);
    }
    forall t ensures UsersOf(target, t) == UsersOf(rewritten, t) {
      ReadEditSaveIndex(st, user, task, on, stamp, t);
    }
  }

  /** Read, EnableTask, Save does what EnableTaskForUser does. */
  lemma ReadEnableSaveIsEnable(st: Store, user: string, task: string, stamp: string)
    requires Exact(st) && Binary(st)
    ensures var direct, rewritten := TaskEnabled(st, user, task, stamp), ReadEditSave(st, user, task, true, stamp);
            SameHashesAndIndex(direct, rewritten) && direct.all == rewritten.all
  {
    ReadEditSaveEffect(st, TaskEnabled(st, user, task, stamp), user, task, true, stamp);
  }

  /** Read, DisableTask, Save does what DisableTaskForUser does, except that it also enters the user
      in the set of all users. */
  lemma ReadDisableSaveIsDisable(st: Store, user: string, task: string, stamp: string)
    requires Exact(st) && Binary(st)
    ensures var direct, rewritten := TaskDisabled(st, user, task, stamp), ReadEditSave(st, user, task, false, stamp);
            SameHashesAndIndex(direct, rewritten) && rewritten.all == direct.all + {user}
  {
    ReadEditSaveEffect(st, TaskDisabled(st, user, task, stamp), user, task, false, stamp);
  }
}
