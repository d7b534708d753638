/** The user store as it works on a flat Redis database, one command after another, and the
    in-memory preference object it reads and writes. A read may fail, and a pipeline may break off
    with some of its commands executed. */
module UserStores {
  import opened Pattern
  import opened Pipelines
  import opened Preferences
  import opened Recovery
  import Redis
  import Rfc3339
  import opened StoreKeys
  import opened Wrappers

  class UserPreference {
    var userID: string
    var enabledTasks: map<string, bool>
    var taskSettings: SettingsMap
    var lastModified: string

    constructor (userID: string, enabledTasks: map<string, bool>, taskSettings: SettingsMap, lastModified: string)
      ensures this.userID == userID && this.enabledTasks == enabledTasks
      ensures this.taskSettings == taskSettings && this.lastModified == lastModified
    {
      this.userID, this.enabledTasks := userID, enabledTasks;
      this.taskSettings, this.lastModified := taskSettings, lastModified;
    }

    method EnableTask(task: string, now: string)
      modifies this
      ensures enabledTasks == Edited(old(enabledTasks), [Edit(task, true)]) && lastModified == now
      ensures userID == old(userID) && taskSettings == old(taskSettings)
    {
      enabledTasks := enabledTasks[task := true];
      lastModified := now;
    }

    method DisableTask(task: string, now: string)
      modifies this
      ensures enabledTasks == Edited(old(enabledTasks), [Edit(task, false)]) && lastModified == now
      ensures userID == old(userID) && taskSettings == old(taskSettings)
    {
      enabledTasks := enabledTasks[task := false];
      lastModified := now;
    }
  }

  /** How a pipeline went: all of it executed and answered, or an error after so many commands (all
      of them when only the reply was lost). */
  datatype Delivery = Delivered | Broken(executed: nat)

  function Executed(cs: seq<Command>, delivery: Delivery): seq<Command> {
    if delivery.Broken? && delivery.executed < |cs| then cs[..delivery.executed] else cs
  }

  /** The stored stamp if there is a readable one, else the time of reading. */
  function LastModified(meta: map<string, string>, now: string): string {
    if "last_modified" in meta && Rfc3339.Parse(meta["last_modified"]).Some? then meta["last_modified"] else now
  }

  /** What a call leaves: the operation's whole effect when it succeeds; when it fails, that of some
      first commands of the operation's pipeline; and nothing when it was refused. */
  ghost predicate Outcome(before: Store, op: Op, ok: bool, refused: bool, after: Store, sent: seq<Command>) {
    if refused then !ok && sent == [] && after == before
    else
      && (exists cs :: IsPipeline(before, op, cs) && sent <= cs)
      && AllValid(sent) && after == Effects(before, sent) && (ok ==> after == Apply(before, op))
  }

  class UserStore {
    var db: Redis.Db
    /** The five maps the database holds. */
    ghost var store: Store

    ghost predicate Valid()
      reads this
    {
      Represents(db, store) && Binary(store)
    }

    constructor ()
      ensures Valid() && store == EMPTY && Sound(store)
    {
      db, store := map[], EMPTY;
      EmptyStore();
    }

    /** Sends a pipeline: its commands reach the database in order, perhaps not all of them. */
    method ExecPipeline(cs: seq<Command>, delivery: Delivery, ghost op: Op)
      returns (ok: bool, ghost sent: seq<Command>)
      requires Valid() && IsPipeline(store, op, cs)
      modifies this
      ensures Valid() && ok == delivery.Delivered? && sent == Executed(cs, delivery)
      ensures Outcome(old(store), op, ok, false, store, sent) && db == Exec(old(db), sent)
    {
      PipelineEffect(store, op, cs);
      PipelineProper(store, op, cs);
      var executed := Executed(cs, delivery);
      assert executed <= cs && AllProper(executed) && AllValid(executed);
      ExecRepresents(db, store, executed);
      ProperKeepsBinary(store, executed);
      db, store := Exec(db, executed), Effects(store, executed);
      return delivery.Delivered?, executed;
    }

    // ----- the operations -----

    /** Settings whose text does not parse are skipped. */
    method GetUserPreference(user: string, now: string, fails: bool, garbled: set<string>)
      returns (pref: UserPreference?)
      requires Valid()
      ensures pref == null <==> user == "" || fails
      ensures pref != null ==>
                && fresh(pref) && pref.userID == user
                && pref.enabledTasks == Decoded(TasksOf(store, user))
                && pref.taskSettings == DecodedSettings(Row(store.settings, user) - garbled)
                && pref.lastModified == LastModified(Row(store.meta, user), now)
                && (match Lookup(Row(store.meta, user), "last_modified")
                    case Some(stamp) => pref.lastModified == if Rfc3339.Parse(stamp).Some? then stamp else now
                    case None => pref.lastModified == now)
    {
      if user == "" || fails {
        return null;
      }
      assert RepresentsAt(db, store, Tasks, user) && RepresentsAt(db, store, Settings, user);
      assert RepresentsAt(db, store, Meta, user);
      var fields, settings := Redis.HashAt(db, Key(Tasks, user)), Redis.HashAt(db, Key(Settings, user));
      var meta := Redis.HashAt(db, Key(Meta, user));
      var enabled := DecodeTasks(fields);
      var stamp := now;
      if "last_modified" in meta {
        var parsed := Rfc3339.Parse(meta["last_modified"]);
        if parsed.Some? {
          stamp := meta["last_modified"];
        }
      }
      pref := new UserPreference(user, enabled, DecodedSettings(settings - garbled), stamp);
    }

    method SaveUserPreference(pref: UserPreference, now: string, delivery: Delivery)
      returns (ok: bool, ghost sent: seq<Command>)
      requires Valid()
      modifies this, pref
      ensures Valid()
      ensures ok <==> pref.userID != "" && delivery.Delivered?
      ensures pref.userID == old(pref.userID) && pref.enabledTasks == old(pref.enabledTasks)
      ensures pref.taskSettings == old(pref.taskSettings)
      ensures pref.lastModified == if pref.userID == "" then old(pref.lastModified) else now
      ensures Outcome(old(store), Save(pref.userID, pref.enabledTasks, pref.taskSettings, now), ok,
                      pref.userID == "", store, sent)
    {
      if pref.userID == "" {
        return false, [];
      }
      pref.lastModified := now;
      var user, enabled, settings := pref.userID, pref.enabledTasks, pref.taskSettings;
      var head := SaveHeadCommands(user, enabled, settings, now);
      var updates, order := IndexUpdates(user, enabled);
      assert Lists(order, enabled);
      ok, sent := ExecPipeline(head + updates, delivery, Save(user, enabled, settings, now));
    }

    method EnableTaskForUser(user: string, task: string, now: string, delivery: Delivery)
      returns (ok: bool, ghost sent: seq<Command>)
      requires Valid()
      modifies this
      ensures Valid()
      ensures ok <==> user != "" && task != "" && delivery.Delivered?
      ensures Outcome(old(store), Enable(user, task, now), ok, user == "" || task == "", store, sent)
    {
      if user == "" || task == "" {
        return false, [];
      }
      ok, sent := ExecPipeline(EnablePipeline(user, task, now), delivery, Enable(user, task, now));
    }

    method DisableTaskForUser(user: string, task: string, now: string, delivery: Delivery)
      returns (ok: bool, ghost sent: seq<Command>)
      requires Valid()
      modifies this
      ensures Valid()
      ensures ok <==> user != "" && task != "" && delivery.Delivered?
      ensures Outcome(old(store), Disable(user, task, now), ok, user == "" || task == "", store, sent)
    {
      if user == "" || task == "" {
        return false, [];
      }
      ok, sent := ExecPipeline(DisablePipeline(user, task, now), delivery, Disable(user, task, now));
    }

    /** When the user's tasks cannot be read the delete does nothing and reports success. */
    method DeleteUser(user: string, now: string, readFails: bool, delivery: Delivery)
      returns (ok: bool, ghost sent: seq<Command>)
      requires Valid()
      modifies this
      ensures Valid()
      ensures ok <==> user != "" && (readFails || delivery.Delivered?)
      ensures readFails ==> store == old(store) && sent == []
      ensures !readFails ==> Outcome(old(store), Delete(user), ok, user == "", store, sent)
    {
      if user == "" {
        return false, [];
      }
      var pref := GetUserPreference(user, now, readFails, {});
      if pref == null {
        return true, [];
      }
      var gone := map t | t in pref.enabledTasks :: false;
      var updates, order := IndexUpdates(user, gone);
      assert gone == Gone(store, user) && Lists(order, gone);
      ok, sent := ExecPipeline(DeleteHead(user) + updates, delivery, Delete(user));
    }

    // ----- queries -----

    /** The users of a task's index set, each once; under an exact index, those who enabled it. */
    method GetUsersWithEnabledTask(task: string, fails: bool) returns (users: Option<seq<string>>)
      requires Valid()
      ensures users.None? <==> task == "" || fails
      ensures users.Some? ==>
                && (forall u :: u in users.value <==> u in UsersOf(store, task))
                && (forall i, j :: 0 <= i < j < |users.value| ==> users.value[i] != users.value[j])
    {
      if task == "" || fails {
        return None;
      }
      assert RepresentsAt(db, store, TaskUsers, task);
      var members := Redis.Members(Redis.MembersAt(db, Key(TaskUsers, task)));
      users := Some(members);
    }

    /** Every user with an enabled task that matches, each once; users that cannot be read are
        skipped. */
    method GetUsersByTaskPattern(pattern: string, now: string, fails: bool, unreadable: set<string>)
      returns (users: Option<seq<string>>)
      requires Valid()
      ensures users.None? <==> fails
      ensures users.Some? ==>
                && (forall i, j :: 0 <= i < j < |users.value| ==> users.value[i] != users.value[j])
                && (forall u :: u in users.value <==>
                      u != "" && u in store.all && u !in unreadable && HasMatch(Decoded(TasksOf(store, u)), pattern))
                && (Sound(store) ==> forall u :: u in users.value <==>
                      u != "" && u !in unreadable && HasMatch(Decoded(TasksOf(store, u)), pattern))
                && (Sound(store) && Exact(store) ==> forall u :: u in users.value <==>
                      u != "" && u !in unreadable && exists t :: MatchesPattern(t, pattern) && u in UsersOf(store, t))
    {
      if fails {
        return None;
      }
      assert RepresentsAt(db, store, AllUsers, "");
      var all := Redis.Members(Redis.MembersAt(db, Key(AllUsers, "")));
      var matching: seq<string> := [];
      var k := 0;
      while k < |all|
        invariant 0 <= k <= |all|
        invariant forall u :: u in matching <==>
                    u in all[..k] && u != "" && u !in unreadable && HasMatch(Decoded(TasksOf(store, u)), pattern)
        invariant forall i, j :: 0 <= i < j < |matching| ==> matching[i] != matching[j]
      {
        var user := all[k];
        var pref := GetUserPreference(user, now, user in unreadable, {});
        if pref != null {
          var found := AnyMatch(pref.enabledTasks, pattern);
          if found {
            matching := matching + [user];
          }
        }
        k := k + 1;
      }
      assert all[..k] == all;
      users := Some(matching);
      if Sound(store) {
        MatchingUsersAreListed(store, pattern);
      }
      if Exact(store) {
        MatchesAreIndexed(store, pattern);
      }
    }
  }

  /** The first commands of a save: drop both hashes, write them anew, stamp, enter the user. */
  method SaveHeadCommands(user: string, enabled: map<string, bool>, settings: SettingsMap, now: string)
    returns (pipe: seq<Command>)
    ensures pipe == SaveHead(user, enabled, settings, now)
  {
    pipe := [Del(user, false)];
    if |enabled| > 0 {
      var tasksData := EncodeTasks(enabled);
      pipe := pipe + [HSet(Tasks, user, tasksData)];
    }
    FillOrSkip(enabled, user);
    assert pipe == [Del(user, false)] + Fill(Tasks, user, Encoded(enabled));
    var settingsCommands: seq<Command> := [];
    if |settings| > 0 {
      var settingsData := EncodeSettings(settings);
      if |settingsData| > 0 {
        settingsCommands := [HSet(Settings, user, settingsData)];
      }
    }
    assert settingsCommands == Fill(Settings, user, EncodedSettings(settings));
    pipe := pipe + settingsCommands + [HSet(Meta, user, map["last_modified" := now]), SAdd(AllUsers, "", user)];
  }

  lemma FillOrSkip(enabled: map<string, bool>, user: string)
    ensures Fill(Tasks, user, Encoded(enabled))
         == if |enabled| > 0 then [HSet(Tasks, user, Encoded(enabled))] else []
  {
    assert Encoded(enabled).Keys == enabled.Keys;
  }

  /** The loop over the task map that appends one index command per task. */
  method IndexUpdates(user: string, enabled: map<string, bool>) returns (cs: seq<Command>, ghost order: seq<string>)
    ensures forall t :: t in order <==> t in enabled
    ensures cs == IndexCommands(user, enabled, order)
  {
    cs, order := [], [];
    var todo := enabled.Keys;
    while todo != {}
      invariant todo <= enabled.Keys
      invariant forall t :: t in order <==> t in enabled && t !in todo
      invariant cs == IndexCommands(user, enabled, order)
      decreases |todo|
    {
      var task :| task in todo;
      todo := todo - {task};
      IndexCommandsSnoc(user, enabled, order, task);
      if enabled[task] {
        cs := cs + [SAdd(TaskUsers, task, user)];
      } else {
        cs := cs + [SRem(TaskUsers, task, user)];
      }
      order := order + [task];
    }
  }

  method EncodeTasks(enabled: map<string, bool>) returns (data: map<string, string>)
    ensures data == Encoded(enabled)
  {
    data := map[];
    var todo := enabled.Keys;
    while todo != {}
      invariant todo <= enabled.Keys
      invariant data == map t | t in enabled && t !in todo :: if enabled[t] then ON else OFF
      decreases |todo|
    {
      var task :| task in todo;
      todo := todo - {task};
      data := data[task := if enabled[task] then "1" else "0"];
    }
  }

  method EncodeSettings(settings: SettingsMap) returns (data: map<string, string>)
    ensures data == EncodedSettings(settings)
  {
    data := map[];
    var todo := settings.Keys;
    while todo != {}
      invariant todo <= settings.Keys
      invariant data == map t | t in settings && t !in todo && settings[t].Some? :: settings[t].value
      decreases |todo|
    {
      var task :| task in todo;
      todo := todo - {task};
      if settings[task].Some? {
        data := data[task := settings[task].value];
      }
    }
  }

  method DecodeTasks(fields: map<string, string>) returns (enabled: map<string, bool>)
    ensures enabled == Decoded(fields)
  {
    enabled := map[];
    var todo := fields.Keys;
    while todo != {}
      invariant todo <= fields.Keys
      invariant enabled == map t | t in fields && t !in todo :: fields[t] == ON
      decreases |todo|
    {
      var task :| task in todo;
      todo := todo - {task};
      enabled := enabled[task := fields[task] == "1"];
    }
  }

  predicate HasMatch(enabled: map<string, bool>, pattern: string) {
    exists t :: t in enabled && enabled[t] && MatchesPattern(t, pattern)
  }

  /** The inner loop of the pattern query: stops at the first enabled task that matches. */
  method AnyMatch(enabled: map<string, bool>, pattern: string) returns (found: bool)
    ensures found <==> HasMatch(enabled, pattern)
  {
    found := false;
    var todo := enabled.Keys;
    while todo != {}
      invariant todo <= enabled.Keys
      invariant forall t :: t in enabled && t !in todo ==> !(enabled[t] && MatchesPattern(t, pattern))
      decreases |todo|
    {
      var task :| task in todo;
      todo := todo - {task};
      if enabled[task] && MatchesPattern(task, pattern) {
        return true;
      }
    }
  }

  /** In a sound store the loop over all users misses nobody with an enabled matching task. */
  lemma MatchingUsersAreListed(st: Store, pattern: string)
    requires Sound(st)
    ensures forall u :: HasMatch(Decoded(TasksOf(st, u)), pattern) ==> u in st.all
  {
    forall u | HasMatch(Decoded(TasksOf(st, u)), pattern) ensures u in st.all {
      var t :| t in Decoded(TasksOf(st, u)) && Decoded(TasksOf(st, u))[t] && MatchesPattern(t, pattern);
      assert SoundAt(st, u, t);
    }
  }

  lemma MatchesAreIndexed(st: Store, pattern: string)
    requires Exact(st)
    ensures forall u :: HasMatch(Decoded(TasksOf(st, u)), pattern)
                        <==> exists t :: MatchesPattern(t, pattern) && u in UsersOf(st, t)
  {
    forall u
      ensures HasMatch(Decoded(TasksOf(st, u)), pattern)
         <==> exists t :: MatchesPattern(t, pattern) && u in UsersOf(st, t)
    {
      if HasMatch(Decoded(TasksOf(st, u)), pattern) {
        var t :| t in Decoded(TasksOf(st, u)) && Decoded(TasksOf(st, u))[t] && MatchesPattern(t, pattern);
        assert ExactAt(st, u, t);
      }
      if t :| MatchesPattern(t, pattern) && u in UsersOf(st, t) {
        assert ExactAt(st, u, t);
        assert t in Decoded(TasksOf(st, u));
      }
    }
  }

  /** The stamp an accepted save, enable or disable writes is the one read back later. */
  lemma StampReadsBack(st: Store, op: Op, offset: int, t: int, later: string)
    requires !op.Delete? && op.user != "" && (op.Save? || op.task != "")
    requires Rfc3339.Writable(offset, t) && op.stamp == Rfc3339.Format(offset, t)
    ensures LastModified(Row(Apply(st, op).meta, op.user), later) == op.stamp
  {
    Rfc3339.RoundTrip(offset, t);
    match op
    case Save(u, enabled, settings, stamp) => SaveReadsBack(st, u, enabled, settings, stamp);
    case Enable(u, task, stamp) => SwitchReadsBack(st, u, task, true, stamp);
    case Disable(u, task, stamp) => SwitchReadsBack(st, u, task, false, stamp);
  }

  /** What read, edit and save come to, for a single edit. */
  lemma RewriteEffect(before: Store, user: string, task: string, on: bool, stamp: string)
    requires Exact(before) && Binary(before) && user != "" && task != ""
    ensures var enabled := Edited(Decoded(TasksOf(before, user)), [Edit(task, on)]);
            var saved := Apply(before, Save(user, enabled, DecodedSettings(Row(before.settings, user)), stamp));
            var direct := Apply(before, if on then Enable(user, task, stamp) else Disable(user, task, stamp));
            Exact(saved) && SameHashesAndIndex(direct, saved) && saved.all == direct.all + {user}
  {
    assert [Edit(task, on)][1..] == [];
    var enabled := Edited(Decoded(TasksOf(before, user)), [Edit(task, on)]);
    ReadEditSaveCovers(before, user, [Edit(task, on)]);
    ApplyKeepsExactIff(before, Save(user, enabled, DecodedSettings(Row(before.settings, user)), stamp));
    if on {
      ReadEnableSaveIsEnable(before, user, task, stamp);
    } else {
      ReadDisableSaveIsDisable(before, user, task, stamp);
    }
  }

  /** Get, EnableTask or DisableTask, Save: on an exact index it does what the direct operation does,
      keeps the index exact, and at most enters the user in the set of all users. */
  method RewriteTask(s: UserStore, user: string, task: string, on: bool, now: string)
    requires s.Valid() && Exact(s.store) && user != "" && task != ""
    modifies s
    ensures s.Valid() && Exact(s.store)
    ensures var direct := Apply(old(s.store), if on then Enable(user, task, now) else Disable(user, task, now));
            SameHashesAndIndex(direct, s.store) && s.store.all == direct.all + {user}
  {
    RewriteEffect(s.store, user, task, on, now);
    var pref := s.GetUserPreference(user, now, false, {});
    assert Row(s.store.settings, user) - {} == Row(s.store.settings, user);
    if on {
      pref.EnableTask(task, now);
    } else {
      pref.DisableTask(task, now);
    }
    var ok, sent := s.SaveUserPreference(pref, now, Delivered);
  }
}
