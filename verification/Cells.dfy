/** A store seen as single cells: what a command writes to each, and what a sequence of commands
    leaves there. */
module Cells {
  import opened Pipelines
  import opened Preferences
  import opened StoreKeys
  import opened Wrappers

  /** One hash field or one set membership. */
  datatype Cell = Field(kind: Kind, id: string, field: string) | Member(kind: Kind, id: string, member: string) {
    predicate Valid() {
      match this
      case Field(kind, _, _) => kind.HoldsHash()
      case Member(kind, id, _) => !kind.HoldsHash() && (kind.AllUsers? ==> id == "")
    }
  }

  function View(st: Store, cell: Cell): Option<string>
    requires cell.Valid()
  {
    match cell
    case Field(kind, id, field) =>
      if field in HashOf(st, kind, id) then Some(HashOf(st, kind, id)[field]) else None
    case Member(kind, id, member) => if member in MembersOf(st, kind, id) then Some("") else None
  }

  predicate Touches(c: Command, cell: Cell) {
    match c
    case HSet(kind, id, fields) => cell.Field? && cell.kind == kind && cell.id == id && cell.field in fields
    case SAdd(kind, id, member) => cell == Member(kind, id, member)
    case SRem(kind, id, member) => cell == Member(kind, id, member)
    case Del(id, withMeta) => cell.Field? && cell.id == id && (cell.kind != Meta || withMeta)
  }

  function Written(c: Command, cell: Cell): Option<string>
    requires Touches(c, cell)
  {
    match c
    case HSet(_, _, fields) => Some(fields[cell.field])
    case SAdd(_, _, _) => Some("")
    case SRem(_, _, _) => None
    case Del(_, _) => None
  }

  predicate Plain(c: Command) {
    c.Valid() && ((c.SAdd? || c.SRem?) && c.kind.AllUsers? ==> c.id == "")
  }

  lemma HashView(st: Store, kind: Kind, id: string, fields: map<string, string>, cell: Cell)
    requires kind.HoldsHash() && cell.Valid()
    ensures View(WithHash(st, kind, id, fields), cell)
         == if cell.Field? && cell.kind == kind && cell.id == id then Lookup(fields, cell.field) else View(st, cell)
  {
  }

  lemma MembersView(st: Store, kind: Kind, id: string, members: set<string>, cell: Cell)
    requires !kind.HoldsHash() && cell.Valid() && (kind.AllUsers? ==> id == "")
    ensures View(WithMembers(st, kind, id, members), cell)
         == if cell.Member? && cell.kind == kind && cell.id == id
            then (if cell.member in members then Some("") else None)
            else View(st, cell)
  {
  }

  /** A command writes the cells it touches and no others. */
  lemma EffectOnCell(st: Store, c: Command, cell: Cell)
    requires Plain(c) && cell.Valid()
    ensures View(Effect(st, c), cell) == if Touches(c, cell) then Written(c, cell) else View(st, cell)
  {
    match c
    case HSet(kind, id, fields) => HashView(st, kind, id, HashOf(st, kind, id) + fields, cell);
    case SAdd(kind, id, member) => MembersView(st, kind, id, MembersOf(st, kind, id) + {member}, cell);
    case SRem(kind, id, member) => MembersView(st, kind, id, MembersOf(st, kind, id) - {member}, cell);
    case Del(id, withMeta) =>
      var st1 := WithHash(st, Tasks, id, map[]);
      HashView(st, Tasks, id, map[], cell);
      HashView(st1, Settings, id, map[], cell);
      HashView(WithHash(st1, Settings, id, map[]), Meta, id, map[], cell);
  }

  ghost predicate Touched(cs: seq<Command>, cell: Cell) {
    exists c :: c in cs && Touches(c, cell)
  }

  /** When all commands that touch a cell write the same value there, their order is immaterial. */
  lemma {:induction false} CellAfter(st: Store, cs: seq<Command>, cell: Cell, value: Option<string>)
    requires cell.Valid() && (forall c <- cs :: Plain(c))
    requires forall c <- cs :: Touches(c, cell) ==> Written(c, cell) == value
    ensures AllValid(cs)
    ensures View(Effects(st, cs), cell) == if Touched(cs, cell) then value else View(st, cell)
    decreases cs
  {
    if cs != [] {
      EffectOnCell(st, cs[0], cell);
      CellAfter(Effect(st, cs[0]), cs[1..], cell, value);
      if Touched(cs, cell) && !Touches(cs[0], cell) {
        var c :| c in cs && Touches(c, cell);
        assert c in cs[1..];
      }
    }
  }

  /** What the last command to touch a cell wrote stays. */
  lemma LastWrite(st: Store, before: seq<Command>, c: Command, after: seq<Command>, cell: Cell)
    requires AllValid(before) && Plain(c) && (forall d <- after :: Plain(d) && !Touches(d, cell))
    requires cell.Valid() && Touches(c, cell)
    ensures AllValid(before + ([c] + after))
    ensures View(Effects(st, before + ([c] + after)), cell) == Written(c, cell)
  {
    var st1 := Effects(st, before);
    EffectsAppend(st, before, [c] + after);
    assert ([c] + after)[1..] == after;
    EffectOnCell(st1, c, cell);
    CellAfter(Effect(st1, c), after, cell, None);
  }

  /** Cell by cell equality, stamps aside, is equality of hashes, index sets and the set of all users. */
  lemma CellsDetermine(a: Store, b: Store)
    requires forall cell: Cell :: cell.Valid() && cell.kind != Meta ==> View(a, cell) == View(b, cell)
    ensures SameHashesAndIndex(a, b) && a.all == b.all
  {
    forall user ensures TasksOf(a, user) == TasksOf(b, user) && Row(a.settings, user) == Row(b.settings, user) {
      forall f
        ensures f in TasksOf(a, user) <==> f in TasksOf(b, user)
        ensures f in TasksOf(a, user) ==> TasksOf(a, user)[f] == TasksOf(b, user)[f]
      {
        assert View(a, Field(Tasks, user, f)) == View(b, Field(Tasks, user, f));
      }
      forall f
        ensures f in Row(a.settings, user) <==> f in Row(b.settings, user)
        ensures f in Row(a.settings, user) ==> Row(a.settings, user)[f] == Row(b.settings, user)[f]
      {
        assert View(a, Field(Settings, user, f)) == View(b, Field(Settings, user, f));
      }
    }
    forall task ensures UsersOf(a, task) == UsersOf(b, task) {
      forall u ensures u in UsersOf(a, task) <==> u in UsersOf(b, task) {
        assert View(a, Member(TaskUsers, task, u)) == View(b, Member(TaskUsers, task, u));
      }
    }
    forall u ensures u in a.all <==> u in b.all {
      assert View(a, Member(AllUsers, "", u)) == View(b, Member(AllUsers, "", u));
    }
  }
}
