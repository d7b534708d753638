/** Enable and Disable pipelines are not transactions: other clients' commands can fall between
    their own. That makes no difference exactly when no (user, task) pair is both enabled and
    disabled. */
module Interleaving {
  import opened Cells
  import opened Pipelines
  import opened Preferences
  import opened Redis
  import opened StoreKeys
  import opened Wrappers

  /** An accepted EnableTaskForUser or DisableTaskForUser, as one client issues it. */
  type Switch = op: Op | (op.Enable? || op.Disable?) && op.user != "" && op.task != ""
    witness Enable("user", "task", "")

  function CommandsOf(op: Switch): (cs: seq<Command>)
    ensures AllValid(cs)
  {
    if op.Enable? then EnablePipeline(op.user, op.task, op.stamp) else DisablePipeline(op.user, op.task, op.stamp)
  }

  predicate SamePair(a: Switch, b: Switch) {
    a.user == b.user && a.task == b.task
  }

  /** Operations on the same pair all switch it the same way. */
  ghost predicate Consistent(ops: seq<Switch>) {
    forall i, j :: 0 <= i < j < |ops| && SamePair(ops[i], ops[j]) ==> ops[i].Enable? == ops[j].Enable?
  }

  function Pipes(ops: seq<Switch>): (pipes: seq<seq<Command>>)
    ensures |pipes| == |ops|
  {
    seq(|ops|, i requires 0 <= i < |ops| => CommandsOf(ops[i]))
  }

  /** cs runs every pipeline to its end, each in its own order, switching between them at will. */
  ghost predicate Interleaves(pipes: seq<seq<Command>>, cs: seq<Command>)
    decreases cs
  {
    if cs == [] then forall p <- pipes :: p == []
    else exists i :: 0 <= i < |pipes| && Advances(pipes, i, cs)
  }

  ghost predicate Advances(pipes: seq<seq<Command>>, i: nat, cs: seq<Command>)
    requires i < |pipes| && cs != []
    decreases cs, 0
  {
    pipes[i] != [] && pipes[i][0] == cs[0] && Interleaves(pipes[i := pipes[i][1..]], cs[1..])
  }

  /** One pipeline after the other. */
  function Sequential(ops: seq<Switch>): seq<Command>
    decreases ops
  {
    if ops == [] then [] else CommandsOf(ops[0]) + Sequential(ops[1..])
  }

  ghost predicate IsCommandOf(ops: seq<Switch>, c: Command) {
    exists op :: op in ops && c in CommandsOf(op)
  }

  lemma {:induction false} SequentialElements(ops: seq<Switch>)
    ensures forall c :: c in Sequential(ops) <==> IsCommandOf(ops, c)
    decreases ops
  {
    if ops != [] {
      SequentialElements(ops[1..]);
      forall c ensures c in Sequential(ops) <==> IsCommandOf(ops, c) {
        if IsCommandOf(ops, c) {
          var op :| op in ops && c in CommandsOf(op);
          assert op == ops[0] || op in ops[1..];
        }
        if c in Sequential(ops[1..]) {
          var op :| op in ops[1..] && c in CommandsOf(op);
          assert op in ops;
        }
      }
    }
  }

  ghost predicate InSome(pipes: seq<seq<Command>>, c: Command) {
    exists p :: p in pipes && c in p
  }

  lemma {:induction false} InterleavedElements(pipes: seq<seq<Command>>, cs: seq<Command>)
    requires Interleaves(pipes, cs)
    ensures forall c :: c in cs <==> InSome(pipes, c)
    decreases cs
  {
    if cs != [] {
      var i :| 0 <= i < |pipes| && Advances(pipes, i, cs);
      var rest := pipes[i := pipes[i][1..]];
      InterleavedElements(rest, cs[1..]);
      forall c ensures c in cs <==> InSome(pipes, c) {
        if c in cs && c != cs[0] {
          assert c in cs[1..];
          var p :| p in rest && c in p;
          var k :| 0 <= k < |rest| && rest[k] == p;
          assert pipes[k] in pipes && c in pipes[k];
        } else if c in cs {
          assert pipes[i] in pipes;
        }
        if InSome(pipes, c) && c != cs[0] {
          var p :| p in pipes && c in p;
          var k :| 0 <= k < |pipes| && pipes[k] == p;
          assert pipes[i] == [cs[0]] + rest[i];
          assert rest[k] in rest && c in rest[k];
          assert InSome(rest, c) && c in cs[1..];
        }
      }
    }
  }

  // ----- what the operations write to single cells -----

  /** The cells the operations have to agree on: everything but last_modified. */
  predicate Observed(cell: Cell) {
    cell.Valid() && cell.kind != Meta
  }

  lemma SwitchTouch(op: Switch, c: Command, cell: Cell)
    requires c in CommandsOf(op) && Observed(cell) && Touches(c, cell)
    ensures Plain(c)
    ensures match cell
      case Field(kind, id, field) =>
        kind == Tasks && id == op.user && field == op.task && Written(c, cell) == Some(if op.Enable? then ON else OFF)
      case Member(kind, id, member) =>
        && member == op.user
        && (if kind == AllUsers then Written(c, cell) == Some("")
            else id == op.task && Written(c, cell) == if op.Enable? then Some("") else None)
  {
  }

  lemma SwitchesArePlain(ops: seq<Switch>, c: Command)
    requires IsCommandOf(ops, c)
    ensures Plain(c)
  {
    var op :| op in ops && c in CommandsOf(op);
  }

  /** Consistent operations never write different values to the same observed cell. */
  lemma TouchesAgree(ops: seq<Switch>, c1: Command, c2: Command, cell: Cell)
    requires Consistent(ops) && Observed(cell)
    requires IsCommandOf(ops, c1) && Touches(c1, cell) && IsCommandOf(ops, c2) && Touches(c2, cell)
    ensures Written(c1, cell) == Written(c2, cell)
  {
    var op1: Switch :| op1 in ops && c1 in CommandsOf(op1);
    var op2: Switch :| op2 in ops && c2 in CommandsOf(op2);
    var i :| 0 <= i < |ops| && ops[i] == op1;
    var j :| 0 <= j < |ops| && ops[j] == op2;
    assert SamePair(op1, op2) ==> op1.Enable? == op2.Enable? by {
      assert i < j || j < i || i == j;
    }
    SwitchesAgree(op1, op2, c1, c2, cell);
  }

  lemma SwitchesAgree(op1: Switch, op2: Switch, c1: Command, c2: Command, cell: Cell)
    requires Observed(cell) && (SamePair(op1, op2) ==> op1.Enable? == op2.Enable?)
    requires c1 in CommandsOf(op1) && Touches(c1, cell) && c2 in CommandsOf(op2) && Touches(c2, cell)
    ensures Written(c1, cell) == Written(c2, cell)
  {
    SwitchTouch(op1, c1, cell);
    SwitchTouch(op2, c2, cell);
  }

  lemma SameCell(st: Store, ops: seq<Switch>, cs1: seq<Command>, cs2: seq<Command>, cell: Cell)
    requires Consistent(ops) && Observed(cell)
    requires forall c :: c in cs1 <==> IsCommandOf(ops, c)
    requires forall c :: c in cs2 <==> IsCommandOf(ops, c)
    ensures AllValid(cs1) && AllValid(cs2)
    ensures View(Effects(st, cs1), cell) == View(Effects(st, cs2), cell)
  {
    forall c | IsCommandOf(ops, c) ensures Plain(c) {
      SwitchesArePlain(ops, c);
    }
    var value: Option<string> := None;
    if Touched(cs1, cell) {
      var first :| first in cs1 && Touches(first, cell);
      value := Written(first, cell);
      forall c | IsCommandOf(ops, c) && Touches(c, cell) ensures Written(c, cell) == value {
        TouchesAgree(ops, first, c, cell);
      }
      assert first in cs2;
    }
    CellAfter(st, cs1, cell, value);
    CellAfter(st, cs2, cell, value);
    if c :| c in cs2 && Touches(c, cell) {
      assert c in cs1;
    }
  }

  lemma {:induction false} SequentialEffects(st: Store, ops: seq<Switch>)
    ensures AllValid(Sequential(ops))
    ensures Effects(st, Sequential(ops)) == Run(st, ops)
    decreases ops
  {
    if ops != [] {
      var op := ops[0];
      SequentialEffects(Apply(st, op), ops[1..]);
      EffectsAppend(st, CommandsOf(op), Sequential(ops[1..]));
      if op.Enable? {
        EnablePipelineEffect(st, op.user, op.task, op.stamp);
      } else {
        DisablePipelineEffect(st, op.user, op.task, op.stamp);
      }
    }
  }

  lemma PipesHoldCommands(ops: seq<Switch>, c: Command)
    ensures InSome(Pipes(ops), c) <==> IsCommandOf(ops, c)
  {
    if InSome(Pipes(ops), c) {
      var p :| p in Pipes(ops) && c in p;
      var i :| 0 <= i < |ops| && Pipes(ops)[i] == p;
      assert ops[i] in ops && c in CommandsOf(ops[i]);
    }
    if IsCommandOf(ops, c) {
      var op :| op in ops && c in CommandsOf(op);
      var i :| 0 <= i < |ops| && ops[i] == op;
      assert Pipes(ops)[i] in Pipes(ops);
    }
  }

  ghost predicate SameOutcome(a: Store, b: Store) {
    SameHashesAndIndex(a, b) && a.all == b.all
  }

  lemma InterleavedOutcome(st: Store, ops: seq<Switch>, order: seq<Switch>, cs: seq<Command>)
    requires Consistent(ops) && multiset(order) == multiset(ops) && Interleaves(Pipes(ops), cs)
    ensures AllValid(cs) && SameOutcome(Effects(st, cs), Run(st, order))
  {
    InterleavedElements(Pipes(ops), cs);
    SequentialElements(order);
    forall c ensures IsCommandOf(order, c) <==> IsCommandOf(ops, c) {
      if IsCommandOf(order, c) {
        PermutedCommands(order, ops, c);
      }
      if IsCommandOf(ops, c) {
        PermutedCommands(ops, order, c);
      }
    }
    forall c ensures c in cs <==> IsCommandOf(ops, c) {
      PipesHoldCommands(ops, c);
    }
    var seqCs := Sequential(order);
    assert AllValid(cs) && AllValid(seqCs) by { SameCell(st, ops, cs, seqCs, Member(AllUsers, "", "")); }
    forall cell | Observed(cell) ensures View(Effects(st, cs), cell) == View(Effects(st, seqCs), cell) {
      SameCell(st, ops, cs, seqCs, cell);
    }
    CellsDetermine(Effects(st, cs), Effects(st, seqCs));
    SequentialEffects(st, order);
  }

  /** Any interleaving of consistent pipelines, run command by command on the flat database, ends in
      the hashes, index sets and set of all users of any sequential order of the operations. */
  lemma InterleavedIsSequential(db: Db, st: Store, ops: seq<Switch>, order: seq<Switch>, cs: seq<Command>)
    requires Represents(db, st) && Consistent(ops)
    requires multiset(order) == multiset(ops)
    requires Interleaves(Pipes(ops), cs)
    ensures AllValid(cs)
    ensures Represents(Exec(db, cs), Effects(st, cs))
    ensures SameOutcome(Effects(st, cs), Run(st, order))
  {
    InterleavedOutcome(st, ops, order, cs);
    ExecRepresents(db, st, cs);
  }

  lemma PermutedCommands(xs: seq<Switch>, ys: seq<Switch>, c: Command)
    requires multiset(xs) == multiset(ys) && IsCommandOf(xs, c)
    ensures IsCommandOf(ys, c)
  {
    var op :| op in xs && c in CommandsOf(op);
    assert op in multiset(xs);
    assert op in ys;
  }

  // ----- operations that contradict each other -----

  lemma StepInterleaves(pipes: seq<seq<Command>>, i: nat, rest: seq<Command>)
    requires i < |pipes| && pipes[i] != [] && Interleaves(pipes[i := pipes[i][1..]], rest)
    ensures Interleaves(pipes, [pipes[i][0]] + rest)
  {
    assert ([pipes[i][0]] + rest)[1..] == rest;
    assert Advances(pipes, i, [pipes[i][0]] + rest);
  }

  /** One pipeline may run to its end before the others go on. */
  lemma {:induction false} FinishPipe(pipes: seq<seq<Command>>, i: nat, rest: seq<Command>)
    requires i < |pipes| && Interleaves(pipes[i := []], rest)
    ensures Interleaves(pipes, pipes[i] + rest)
    decreases |pipes[i]|
  {
    if pipes[i] == [] {
      assert pipes[i := []] == pipes && pipes[i] + rest == rest;
    } else {
      var ahead := pipes[i := pipes[i][1..]];
      assert ahead[i := []] == pipes[i := []];
      FinishPipe(ahead, i, rest);
      StepInterleaves(pipes, i, pipes[i][1..] + rest);
      assert pipes[i] + rest == [pipes[i][0]] + (pipes[i][1..] + rest);
    }
  }

  function OnlyTwo(pipes: seq<seq<Command>>, i: nat, j: nat): (r: seq<seq<Command>>)
    ensures |r| == |pipes|
  {
    seq(|pipes|, m requires 0 <= m < |pipes| => if m == i || m == j then pipes[m] else [])
  }

  /** All pipelines but two may run before those two. */
  lemma {:induction false} OthersFirst(pipes: seq<seq<Command>>, k: nat, i: nat, j: nat, tail: seq<Command>)
    returns (head: seq<Command>)
    requires k <= |pipes| && (forall m :: 0 <= m < k && m != i && m != j ==> pipes[m] == [])
    requires Interleaves(OnlyTwo(pipes, i, j), tail) && (forall p <- pipes :: AllValid(p))
    ensures Interleaves(pipes, head + tail) && AllValid(head)
    decreases |pipes| - k
  {
    if k == |pipes| {
      assert OnlyTwo(pipes, i, j) == pipes;
      head := [];
      assert head + tail == tail;
    } else if k == i || k == j {
      head := OthersFirst(pipes, k + 1, i, j, tail);
    } else {
      var rest := pipes[k := []];
      assert OnlyTwo(rest, i, j) == OnlyTwo(pipes, i, j);
      var after := OthersFirst(rest, k + 1, i, j, tail);
      FinishPipe(pipes, k, after + tail);
      assert pipes[k] in pipes;
      head := pipes[k] + after;
      assert head + tail == pipes[k] + (after + tail);
    }
  }

  /** The second pipeline falls between the first command of the first one and the others. */
  lemma Wedged(pipes: seq<seq<Command>>, i: nat, j: nat)
    requires i < |pipes| && j < |pipes| && i != j && pipes[i] != []
    requires forall m :: 0 <= m < |pipes| && m != i && m != j ==> pipes[m] == []
    ensures Interleaves(pipes, [pipes[i][0]] + (pipes[j] + pipes[i][1..]))
  {
    var ahead := pipes[i := pipes[i][1..]];
    var both := ahead[j := []];
    var done := both[i := []];
    forall p | p in done ensures p == [] {
    }
    assert Interleaves(done, []);
    FinishPipe(both, i, []);
    assert pipes[i][1..] + [] == pipes[i][1..];
    FinishPipe(ahead, j, pipes[i][1..]);
    StepInterleaves(pipes, i, pipes[j] + pipes[i][1..]);
  }

  /** Disabling in between the commands of enabling leaves the user in the index of a task that the
      hash has off, whatever came before. */
  lemma WedgedOutcome(st: Store, head: seq<Command>, user: string, task: string, stamp1: string, stamp2: string)
    requires AllValid(head)
    ensures var e, d := EnablePipeline(user, task, stamp1), DisablePipeline(user, task, stamp2);
            var cs := head + ([e[0]] + (d + e[1..]));
            AllValid(cs) && !ExactAt(Effects(st, cs), user, task)
  {
    var e, d := EnablePipeline(user, task, stamp1), DisablePipeline(user, task, stamp2);
    var cs := head + ([e[0]] + (d + e[1..]));
    var off, on := Field(Tasks, user, task), Member(TaskUsers, task, user);
    assert cs == (head + [e[0]]) + ([d[0]] + (d[1..] + e[1..]));
    LastWrite(st, head + [e[0]], d[0], d[1..] + e[1..], off);
    var before := head + ([e[0]] + (d + e[1..3]));
    assert cs == before + ([e[3]] + []);
    LastWrite(st, before, e[3], [], on);
    OnIsNotOff();
    assert View(Effects(st, cs), off) == Some(OFF) && View(Effects(st, cs), on) == Some("");
  }

  /** After a switch its own pair agrees between hash and index; other pairs stay as they were. */
  lemma SwitchExactAt(st: Store, op: Switch, user: string, task: string)
    requires (op.user == user && op.task == task) || ExactAt(st, user, task)
    ensures ExactAt(Apply(st, op), user, task)
  {
    OnIsNotOff();
  }

  lemma {:induction false} SequentialExactAt(st: Store, ops: seq<Switch>, user: string, task: string)
    requires ExactAt(st, user, task) || exists op :: op in ops && op.user == user && op.task == task
    ensures ExactAt(Run(st, ops), user, task)
    decreases ops
  {
    if ops != [] {
      if ExactAt(st, user, task) || (ops[0].user == user && ops[0].task == task) {
        SwitchExactAt(st, ops[0], user, task);
      }
      SequentialExactAt(Apply(st, ops[0]), ops[1..], user, task);
    }
  }

  /** The commands end as the operations one at a time do. */
  ghost predicate EndsAlike(st: Store, cs: seq<Command>, order: seq<Switch>) {
    AllValid(cs) && SameOutcome(Effects(st, cs), Run(st, order))
  }

  predicate Permuted(ops: seq<Switch>, order: seq<Switch>) {
    multiset(order) == multiset(ops)
  }

  /** From every store, every interleaving ends as every sequential order does. */
  ghost predicate Harmless(ops: seq<Switch>) {
    forall st, order: seq<Switch>, cs | Interleaves(Pipes(ops), cs) && Permuted(ops, order) :: EndsAlike(st, cs, order)
  }

  /** From every store, every interleaving ends as at least some sequential order does. */
  ghost predicate Serializable(ops: seq<Switch>) {
    forall st, cs | Interleaves(Pipes(ops), cs) :: SerializableFrom(st, cs, ops)
  }

  ghost predicate SerializableFrom(st: Store, cs: seq<Command>, ops: seq<Switch>) {
    exists order: seq<Switch> :: Permuted(ops, order) && EndsAlike(st, cs, order)
  }

  /** When a pair is enabled and disabled, some interleaving ends as no sequential order does, whatever
      the store it starts from. */
  lemma ContradictionDiverges(ops: seq<Switch>, i: nat, j: nat) returns (cs: seq<Command>)
    requires i < |ops| && j < |ops| && SamePair(ops[i], ops[j]) && ops[i].Enable? && !ops[j].Enable?
    ensures Interleaves(Pipes(ops), cs) && AllValid(cs)
    ensures forall st :: !SerializableFrom(st, cs, ops)
  {
    var pipes, a, b := Pipes(ops), ops[i], ops[j];
    var e, d := CommandsOf(a), CommandsOf(b);
    var two := OnlyTwo(pipes, i, j);
    assert two[i] == e && two[j] == d;
    Wedged(two, i, j);
    var tail := [e[0]] + (d + e[1..]);
    var head := OthersFirst(pipes, 0, i, j, tail);
    cs := head + tail;
    forall st ensures AllValid(cs) && !ExactAt(Effects(st, cs), a.user, a.task) {
      WedgedOutcome(st, head, a.user, a.task, a.stamp, b.stamp);
    }
    forall st, order: seq<Switch> | Permuted(ops, order) ensures !EndsAlike(st, cs, order) {
      assert a in multiset(order);
      SequentialExactAt(st, order, a.user, a.task);
      NotExactDiffers(Effects(st, cs), Run(st, order), a.user, a.task);
    }
  }

  lemma NotExactDiffers(a: Store, b: Store, user: string, task: string)
    requires !ExactAt(a, user, task) && ExactAt(b, user, task)
    ensures !SameOutcome(a, b)
  {
  }

  /** Interleaving the commands of enable and disable operations is harmless exactly when no pair is
      both enabled and disabled; otherwise it is not even serializable. */
  lemma InterleavingIff(ops: seq<Switch>)
    ensures Harmless(ops) <==> Consistent(ops)
    ensures Serializable(ops) <==> Consistent(ops)
  {
    if Consistent(ops) {
      ConsistentIsHarmless(ops);
    } else {
      var i, j :| 0 <= i < j < |ops| && SamePair(ops[i], ops[j]) && ops[i].Enable? != ops[j].Enable?;
      var cs;
      if ops[i].Enable? {
        cs := ContradictionDiverges(ops, i, j);
      } else {
        cs := ContradictionDiverges(ops, j, i);
      }
      assert !SerializableFrom(EMPTY, cs, ops);
      assert Permuted(ops, ops) && !EndsAlike(EMPTY, cs, ops);
    }
  }

  lemma ConsistentIsHarmless(ops: seq<Switch>)
    requires Consistent(ops)
    ensures Harmless(ops) && Serializable(ops)
  {
    forall st, order: seq<Switch>, cs | Interleaves(Pipes(ops), cs) && Permuted(ops, order)
      ensures EndsAlike(st, cs, order)
    {
      InterleavedOutcome(st, ops, order, cs);
    }
    forall st, cs | Interleaves(Pipes(ops), cs) ensures SerializableFrom(st, cs, ops) {
      InterleavedOutcome(st, ops, ops, cs);
      assert Permuted(ops, ops) && EndsAlike(st, cs, ops);
    }
  }
}
