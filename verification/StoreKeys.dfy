/** The key templates of the user store, and the five maps a database stands for through them. */
module StoreKeys {
  import opened Redis

  datatype Kind = Tasks | Settings | Meta | AllUsers | TaskUsers {
    predicate HoldsHash() {
      Tasks? || Settings? || Meta?
    }
  }

  function Key(kind: Kind, id: string): string {
    match kind
    case Tasks => "taskqueue:users:" + id + ":tasks"
    case Settings => "taskqueue:users:" + id + ":settings"
    case Meta => "taskqueue:users:" + id + ":meta"
    case AllUsers => "taskqueue:users:all"
    case TaskUsers => "taskqueue:tasks:" + id + ":users"
  }

  function LastTwo(kind: Kind): string {
    match kind
    case Tasks => "ks"
    case Settings => "gs"
    case Meta => "ta"
    case AllUsers => "ll"
    case TaskUsers => "rs"
  }

  lemma KeyEnds(kind: Kind, id: string)
    ensures var k := Key(kind, id); 2 <= |k| && k[|k| - 2] == LastTwo(kind)[0] && k[|k| - 1] == LastTwo(kind)[1]
  {
  }

  lemma Middle(prefix: string, id: string, suffix: string)
    ensures (prefix + id + suffix)[|prefix|..|prefix + id + suffix| - |suffix|] == id
  {
  }

  /** No two uses of the templates collide, whatever the user and task ids contain. */
  lemma KeysInjective(kind1: Kind, id1: string, kind2: Kind, id2: string)
    requires Key(kind1, id1) == Key(kind2, id2)
    ensures kind1 == kind2 && (!kind1.AllUsers? ==> id1 == id2)
  {
    KeyEnds(kind1, id1);
    KeyEnds(kind2, id2);
    match kind1
    case Tasks =>
      Middle("taskqueue:users:", id1, ":tasks");
      Middle("taskqueue:users:", id2, ":tasks");
    case Settings =>
      Middle("taskqueue:users:", id1, ":settings");
      Middle("taskqueue:users:", id2, ":settings");
    case Meta =>
      Middle("taskqueue:users:", id1, ":meta");
      Middle("taskqueue:users:", id2, ":meta");
    case AllUsers =>
    case TaskUsers =>
      Middle("taskqueue:tasks:", id1, ":users");
      Middle("taskqueue:tasks:", id2, ":users");
  }

  /** The five maps; a missing entry means an empty hash or set. */
  datatype Store = Store(
    tasks: map<string, map<string, string>>,
    settings: map<string, map<string, string>>,
    meta: map<string, map<string, string>>,
    all: set<string>,
    index: map<string, set<string>>)

  const EMPTY: Store := Store(map[], map[], map[], {}, map[])

  function Row(m: map<string, map<string, string>>, id: string): map<string, string> {
    if id in m then m[id] else map[]
  }

  function TasksOf(st: Store, user: string): map<string, string> {
    Row(st.tasks, user)
  }

  function IndexRow(index: map<string, set<string>>, task: string): set<string> {
    if task in index then index[task] else {}
  }

  function UsersOf(st: Store, task: string): set<string> {
    IndexRow(st.index, task)
  }

  function HashOf(st: Store, kind: Kind, id: string): map<string, string>
    requires kind.HoldsHash()
  {
    match kind
    case Tasks => Row(st.tasks, id)
    case Settings => Row(st.settings, id)
    case Meta => Row(st.meta, id)
  }

  function MembersOf(st: Store, kind: Kind, id: string): set<string>
    requires !kind.HoldsHash()
  {
    match kind
    case AllUsers => st.all
    case TaskUsers => UsersOf(st, id)
  }

  function WithHash(st: Store, kind: Kind, id: string, fields: map<string, string>): Store
    requires kind.HoldsHash()
  {
    match kind
    case Tasks => st.(tasks := st.tasks[id := fields])
    case Settings => st.(settings := st.settings[id := fields])
    case Meta => st.(meta := st.meta[id := fields])
  }

  function WithMembers(st: Store, kind: Kind, id: string, members: set<string>): Store
    requires !kind.HoldsHash()
  {
    match kind
    case AllUsers => st.(all := members)
    case TaskUsers => st.(index := st.index[id := members])
  }

  ghost predicate RepresentsAt(db: Db, st: Store, kind: Kind, id: string) {
    if kind.HoldsHash()
    then IsHash(db, Key(kind, id)) && HashAt(db, Key(kind, id)) == HashOf(st, kind, id)
    else IsSet(db, Key(kind, id)) && MembersAt(db, Key(kind, id)) == MembersOf(st, kind, id)
  }

  /** The flat database holds exactly the five maps under the store's keys. */
  ghost predicate Represents(db: Db, st: Store) {
    forall kind, id :: RepresentsAt(db, st, kind, id)
  }

  lemma HashChanged(db: Db, db': Db, st: Store, kind: Kind, id: string, fields: map<string, string>)
    requires Represents(db, st) && kind.HoldsHash()
    requires OnlyChanged(db, db', Key(kind, id))
    requires IsHash(db', Key(kind, id)) && HashAt(db', Key(kind, id)) == fields
    ensures Represents(db', WithHash(st, kind, id, fields))
  {
    forall kind', id' ensures RepresentsAt(db', WithHash(st, kind, id, fields), kind', id') {
      assert RepresentsAt(db, st, kind', id');
      if Key(kind', id') == Key(kind, id) {
        KeysInjective(kind', id', kind, id);
      }
    }
  }

  lemma MembersChanged(db: Db, db': Db, st: Store, kind: Kind, id: string, members: set<string>)
    requires Represents(db, st) && !kind.HoldsHash()
    requires OnlyChanged(db, db', Key(kind, id))
    requires IsSet(db', Key(kind, id)) && MembersAt(db', Key(kind, id)) == members
    ensures Represents(db', WithMembers(st, kind, id, members))
  {
    forall kind', id' ensures RepresentsAt(db', WithMembers(st, kind, id, members), kind', id') {
      assert RepresentsAt(db, st, kind', id');
      if Key(kind', id') == Key(kind, id) {
        KeysInjective(kind', id', kind, id);
      }
    }
  }

  lemma HSetRepresents(db: Db, st: Store, kind: Kind, id: string, fields: map<string, string>)
    requires Represents(db, st) && kind.HoldsHash() && fields != map[]
    ensures Represents(HSet(db, Key(kind, id), fields), WithHash(st, kind, id, HashOf(st, kind, id) + fields))
  {
    assert RepresentsAt(db, st, kind, id);
    HashChanged(db, HSet(db, Key(kind, id), fields), st, kind, id, HashOf(st, kind, id) + fields);
  }

  lemma SAddRepresents(db: Db, st: Store, kind: Kind, id: string, member: string)
    requires Represents(db, st) && !kind.HoldsHash()
    ensures Represents(SAdd(db, Key(kind, id), member), WithMembers(st, kind, id, MembersOf(st, kind, id) + {member}))
  {
    assert RepresentsAt(db, st, kind, id);
    MembersChanged(db, SAdd(db, Key(kind, id), member), st, kind, id, MembersOf(st, kind, id) + {member});
  }

  lemma SRemRepresents(db: Db, st: Store, kind: Kind, id: string, member: string)
    requires Represents(db, st) && !kind.HoldsHash()
    ensures Represents(SRem(db, Key(kind, id), member), WithMembers(st, kind, id, MembersOf(st, kind, id) - {member}))
  {
    assert RepresentsAt(db, st, kind, id);
    MembersChanged(db, SRem(db, Key(kind, id), member), st, kind, id, MembersOf(st, kind, id) - {member});
  }

  lemma DelRepresents(db: Db, st: Store, kind: Kind, id: string)
    requires Represents(db, st) && kind.HoldsHash()
    ensures Represents(Del(db, {Key(kind, id)}), WithHash(st, kind, id, map[]))
  {
    HashChanged(db, Del(db, {Key(kind, id)}), st, kind, id, map[]);
  }
}
