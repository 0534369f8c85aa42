/** Every transaction begun is committed, rolled back or still held by exactly one object. */
module Transactions {
  import opened Bytes
  import opened Slots

  type Db = nat

  /** The objects' databases, the statements that succeeded, and whether the process still runs. */
  datatype Books = Books(
    slots: seq<Option<Db>>,
    begins: multiset<Db>,
    commits: multiset<Db>,
    rollbacks: multiset<Db>,
    alive: bool)

  /** `ok` is the database's answer to the SQL statement the operation executes, if it executes one. */
  datatype Op =
    | Begin(db: Db, ok: bool)
    | MoveConstruct(from: nat)
    | MoveAssign(to: nat, from: nat, ok: bool)
    | Commit(i: nat, ok: bool)
    | Rollback(i: nat, ok: bool)
    | Destroy(i: nat, ok: bool)

  predicate Allowed(b: Books, op: Op) {
    b.alive &&
    match op
    case Begin(_, _) => true
    case MoveConstruct(from) => from < |b.slots|
    case MoveAssign(to, from, _) => to < |b.slots| && from < |b.slots|
    case Commit(i, _) => i < |b.slots|
    case Rollback(i, _) => i < |b.slots|
    case Destroy(i, _) => i < |b.slots|
  }

  /** A commit that fails throws and leaves the object active. */
  function Committed(b: Books, i: nat, ok: bool): Books
    requires i < |b.slots|
  {
    if b.slots[i].None? || !ok then b
    else b.(slots := b.slots[i := None], commits := Add(b.commits, b.slots[i]))
  }

  function RolledBack(b: Books, i: nat, ok: bool): Books
    requires i < |b.slots|
  {
    if b.slots[i].None? || !ok then b
    else b.(slots := b.slots[i := None], rollbacks := Add(b.rollbacks, b.slots[i]))
  }

  /** A throw out of a noexcept function ends the process. */
  function Step(b: Books, op: Op): Books
    requires Allowed(b, op)
  {
    match op
    case Begin(db, ok) =>
      if ok then b.(slots := b.slots + [Some(db)], begins := Add(b.begins, Some(db))) else b.(alive := false)
    case MoveConstruct(from) => b.(slots := b.slots[from := None] + [b.slots[from]])
    case MoveAssign(to, from, ok) =>
      if b.slots[to].Some? && !ok then b.(alive := false)
      else
        var r := RolledBack(b, to, ok);
        r.(slots := r.slots[to := r.slots[from]][from := r.slots[to]])
    case Commit(i, ok) => Committed(b, i, ok)
    case Rollback(i, ok) => RolledBack(b, i, ok)
    case Destroy(i, ok) => if b.slots[i].Some? && !ok then b.(alive := false) else RolledBack(b, i, ok)
  }

  // ---- Each operation, object by object ----

  /** A successful BEGIN makes an active object; one that fails ends the process. */
  lemma Beginning(b: Books, db: Db)
    requires b.alive
    ensures var c := Step(b, Op.Begin(db, true));
            && |c.slots| == |b.slots| + 1 && c.slots[|b.slots|] == Some(db)
            && (forall j :: 0 <= j < |b.slots| ==> c.slots[j] == b.slots[j])
            && c.begins == b.begins + multiset{db}
            && c.commits == b.commits && c.rollbacks == b.rollbacks && c.alive
    ensures Step(b, Op.Begin(db, false)) == b.(alive := false)
  {
  }

  /**
   Move construction takes the transaction over. Move assignment first rolls back the target's own transaction,
   which ends the process if that fails, and leaves the source empty.
   */
  lemma Moving(b: Books, to: nat, from: nat, ok: bool)
    requires b.alive && to < |b.slots| && from < |b.slots|
    ensures var c := Step(b, Op.MoveConstruct(from));
            && |c.slots| == |b.slots| + 1 && c.slots[|b.slots|] == b.slots[from] && c.slots[from] == None
            && (forall j :: 0 <= j < |b.slots| && j != from ==> c.slots[j] == b.slots[j])
            && c == b.(slots := c.slots)
    ensures var c := Step(b, Op.MoveAssign(to, from, ok));
            if b.slots[to].Some? && !ok then c == b.(alive := false)
            else
              && |c.slots| == |b.slots| && c.slots[from] == None
              && c.slots[to] == (if to == from then None else b.slots[from])
              && (forall j :: 0 <= j < |b.slots| && j != from && j != to ==> c.slots[j] == b.slots[j])
              && c.rollbacks == b.rollbacks + (if b.slots[to].Some? then multiset{b.slots[to].value} else multiset{})
              && c.begins == b.begins && c.commits == b.commits && c.alive
  {
  }

  /**
   A commit or rollback that succeeds ends the object's transaction, one that fails leaves everything as it was.
   Destruction rolls back, and ends the process if that fails. On an object without a transaction none does anything.
   */
  lemma Ending(b: Books, i: nat, db: Db)
    requires b.alive && i < |b.slots| && b.slots[i] == Some(db)
    ensures var ended := b.slots[..i] + [None] + b.slots[i + 1..];
            && Step(b, Op.Commit(i, true)) == Books(ended, b.begins, b.commits + multiset{db}, b.rollbacks, true)
            && Step(b, Op.Rollback(i, true)) == Books(ended, b.begins, b.commits, b.rollbacks + multiset{db}, true)
            && Step(b, Op.Destroy(i, true)) == Books(ended, b.begins, b.commits, b.rollbacks + multiset{db}, true)
    ensures Step(b, Op.Commit(i, false)) == b && Step(b, Op.Rollback(i, false)) == b
    ensures Step(b, Op.Destroy(i, false)) == b.(alive := false)
  {
    assert b.slots[i := None] == b.slots[..i] + [None] + b.slots[i + 1..];
  }

  lemma EndingNothing(b: Books, i: nat, ok: bool)
    requires b.alive && i < |b.slots| && b.slots[i] == None
    ensures Step(b, Op.Commit(i, ok)) == b && Step(b, Op.Rollback(i, ok)) == b && Step(b, Op.Destroy(i, ok)) == b
  {
  }

  function Run(b: Books, ops: seq<Op>): Books {
    if ops == [] then b
    else
      var before := Run(b, ops[..|ops| - 1]);
      if Allowed(before, ops[|ops| - 1]) then Step(before, ops[|ops| - 1]) else before
  }

  /** Runs go operation by operation. */
  lemma RunAppend(b: Books, ops: seq<Op>, op: Op)
    ensures Run(b, []) == b
    ensures Allowed(Run(b, ops), op) ==> Run(b, ops + [op]) == Step(Run(b, ops), op)
  {
    assert (ops + [op])[..|ops|] == ops;
  }

  /** Successful BEGINs are successful COMMITs, successful ROLLBACKs and active objects, per database. */
  ghost predicate Balanced(b: Books, db: Db) {
    b.begins[db] == b.commits[db] + b.rollbacks[db] + Owners(b.slots, db)
  }

  lemma RollbackBalances(b: Books, i: nat, ok: bool, db: Db)
    requires Balanced(b, db) && i < |b.slots|
    ensures Balanced(RolledBack(b, i, ok), db) && Balanced(Committed(b, i, ok), db)
  {
    OwnersUpdate(b.slots, i, None, db);
  }

  lemma StepBalances(b: Books, op: Op, db: Db)
    requires Balanced(b, db) && Allowed(b, op)
    ensures Balanced(Step(b, op), db)
  {
    match op
    case Begin(begun, _) => OwnersSnoc(b.slots, Some(begun), db);
    case MoveConstruct(from) =>
      OwnersUpdate(b.slots, from, None, db);
      OwnersSnoc(b.slots[from := None], b.slots[from], db);
    case MoveAssign(to, from, ok) =>
      RollbackBalances(b, to, ok, db);
      OwnersSwap(RolledBack(b, to, ok).slots, to, from, db);
    case Commit(i, ok) => RollbackBalances(b, i, ok, db);
    case Rollback(i, ok) => RollbackBalances(b, i, ok, db);
    case Destroy(i, ok) => RollbackBalances(b, i, ok, db);
  }

  const EMPTY := Books([], multiset{}, multiset{}, multiset{}, true)

  lemma {:induction false} BooksBalance(ops: seq<Op>, db: Db)
    ensures Balanced(Run(EMPTY, ops), db)
  {
    if ops != [] {
      BooksBalance(ops[..|ops| - 1], db);
      var before := Run(EMPTY, ops[..|ops| - 1]);
      if Allowed(before, ops[|ops| - 1]) {
        StepBalances(before, ops[|ops| - 1], db);
      }
    }
  }

  // ---- The objects ----

  /** The statements that succeeded on each database. */
  class Connection {
    var begins: multiset<Db>
    var commits: multiset<Db>
    var rollbacks: multiset<Db>

    constructor ()
      ensures begins == commits == rollbacks == multiset{}
    {
      begins, commits, rollbacks := multiset{}, multiset{}, multiset{};
    }
  }

  class Transaction {
    var db: Option<Db>

    /** Reached only when BEGIN succeeds: otherwise the constructor does not return. */
    constructor (db: Db, connection: Connection)
      modifies connection`begins
      ensures this.db == Some(db) && connection.begins == Add(old(connection.begins), Some(db))
    {
      this.db := Some(db);
      new;
      connection.begins := Add(connection.begins, Some(db));
    }

    constructor Move(move: Transaction)
      modifies move
      ensures db == old(move.db) && move.db == None
    {
      db := move.db;
      new;
      move.db := None;
    }

    predicate IsActive()
      reads this
    {
      db.Some?
    }

    method Rollback(connection: Connection, ok: bool) returns (threw: bool)
      modifies this, connection`rollbacks
      ensures threw == (old(IsActive()) && !ok)
      ensures db == if threw then old(db) else None
      ensures connection.rollbacks
           == if threw then old(connection.rollbacks) else Add(old(connection.rollbacks), old(db))
    {
      if IsActive() {
        if !ok {
          return true;
        }
        connection.rollbacks := Add(connection.rollbacks, db);
        db := None;
      }
      return false;
    }

    method Commit(connection: Connection, ok: bool) returns (threw: bool)
      modifies this, connection`commits
      ensures threw == (old(IsActive()) && !ok)
      ensures db == if threw then old(db) else None
      ensures connection.commits == if threw then old(connection.commits) else Add(old(connection.commits), old(db))
    {
      if IsActive() {
        if !ok {
          return true;
        }
        connection.commits := Add(connection.commits, db);
        db := None;
      }
      return false;
    }

    /** Rolls back first, then swaps; the process ends when that rollback fails. */
    method MoveAssign(move: Transaction, connection: Connection, ok: bool) returns (terminated: bool)
      modifies this, move, connection`rollbacks
      ensures terminated == (old(IsActive()) && !ok)
      ensures terminated ==>
                db == old(db) && move.db == old(move.db) && connection.rollbacks == old(connection.rollbacks)
      ensures !terminated ==> connection.rollbacks == Add(old(connection.rollbacks), old(db))
      ensures !terminated ==> db == (if move == this then None else old(move.db)) && move.db == None
    {
      terminated := Rollback(connection, ok);
      if !terminated {
        db, move.db := move.db, db;
      }
    }
  }

  /** A program holding transactions: each operation moves its books as specified. */
  class Program {
    var transactions: seq<Transaction>
    const connection: Connection
    var alive: bool

    ghost predicate Valid()
      reads this
    {
      forall i, j :: 0 <= i < j < |transactions| ==> transactions[i] != transactions[j]
    }

    ghost function State(): Books
      reads this, transactions, connection
    {
      Books(seq(|transactions|, i requires 0 <= i < |transactions| reads this, transactions => transactions[i].db),
            connection.begins, connection.commits, connection.rollbacks, alive)
    }

    constructor ()
      ensures Valid() && State() == EMPTY && fresh(connection)
    {
      transactions, alive := [], true;
      connection := new Connection();
    }

    method Begin(db: Db, ok: bool)
      requires Valid() && Allowed(State(), Op.Begin(db, ok))
      modifies this, transactions, connection
      ensures Valid()
      ensures State() == Step(old(State()), Op.Begin(db, ok))
    {
      if ok {
        var t := new Transaction(db, connection);
        transactions := transactions + [t];
      } else {
        alive := false;
      }
    }

    method MoveConstruct(from: nat)
      requires Valid() && Allowed(State(), Op.MoveConstruct(from))
      modifies this, transactions, connection
      ensures Valid()
      ensures State() == Step(old(State()), Op.MoveConstruct(from))
    {
      var t := new Transaction.Move(transactions[from]);
      transactions := transactions + [t];
    }

    method MoveAssign(to: nat, from: nat, ok: bool)
      requires Valid() && Allowed(State(), Op.MoveAssign(to, from, ok))
      modifies this, transactions, connection
      ensures Valid()
      ensures State() == Step(old(State()), Op.MoveAssign(to, from, ok))
    {
      ghost var slots := State().slots;
      var terminated := transactions[to].MoveAssign(transactions[from], connection, ok);
      assert State().slots == slots[to := transactions[to].db][from := transactions[from].db];
      if terminated {
        alive := false;
      }
    }

    method Commit(i: nat, ok: bool)
      requires Valid() && Allowed(State(), Op.Commit(i, ok))
      modifies this, transactions, connection
      ensures Valid()
      ensures State() == Step(old(State()), Op.Commit(i, ok))
    {
      var _ := transactions[i].Commit(connection, ok);
    }

    method Rollback(i: nat, ok: bool)
      requires Valid() && Allowed(State(), Op.Rollback(i, ok))
      modifies this, transactions, connection
      ensures Valid()
      ensures State() == Step(old(State()), Op.Rollback(i, ok))
    {
      var _ := transactions[i].Rollback(connection, ok);
    }

    method Destroy(i: nat, ok: bool)
      requires Valid() && Allowed(State(), Op.Destroy(i, ok))
      modifies this, transactions, connection
      ensures Valid()
      ensures State() == Step(old(State()), Op.Destroy(i, ok))
    {
      if transactions[i].IsActive() {
        ghost var slots := State().slots;
        var threw := transactions[i].Rollback(connection, ok);
        assert State().slots == slots[i := transactions[i].db];
        alive := !threw;
      }
    }
  }
}
