/** Who owns which statement handle, across moves, releases, closings and destructions. */
module StatementHandles {
  import opened Bytes
  import opened Slots

  type Handle = nat

  /** The objects' handles, those ever wrapped, and those given away or finalised. */
  datatype Ledger = Ledger(
    slots: seq<Option<Handle>>,
    wrapped: multiset<Handle>,
    released: multiset<Handle>,
    finalised: multiset<Handle>)

  datatype Op =
    | Construct(h: Handle)
    | MoveConstruct(from: nat)
    | MoveAssign(to: nat, from: nat)
    | Release(i: nat)
    | Close(i: nat)
    | Destroy(i: nat)

  /** Objects exist, and a handle is wrapped only once. */
  predicate Allowed(l: Ledger, op: Op) {
    match op
    case Construct(h) => h !in l.wrapped
    case MoveConstruct(from) => from < |l.slots|
    case MoveAssign(to, from) => to < |l.slots| && from < |l.slots|
    case Release(i) => i < |l.slots|
    case Close(i) => i < |l.slots|
    case Destroy(i) => i < |l.slots|
  }

  /** Finalising happens, and the pointer is cleared, whatever error code comes back. */
  function Closed(l: Ledger, i: nat): Ledger
    requires i < |l.slots|
  {
    l.(slots := l.slots[i := None], finalised := Add(l.finalised, l.slots[i]))
  }

  function Step(l: Ledger, op: Op): Ledger
    requires Allowed(l, op)
  {
    match op
    case Construct(h) => l.(slots := l.slots + [Some(h)], wrapped := Add(l.wrapped, Some(h)))
    case MoveConstruct(from) => l.(slots := l.slots[from := None] + [l.slots[from]])
    case MoveAssign(to, from) => l.(slots := l.slots[to := l.slots[from]][from := l.slots[to]])
    case Release(i) => l.(slots := l.slots[i := None], released := Add(l.released, l.slots[i]))
    case Close(i) => Closed(l, i)
    case Destroy(i) => Closed(l, i)
  }

  // ---- Each operation, object by object ----

  /** A new object holds what it was given, and all others what they held. */
  lemma Constructing(l: Ledger, h: Handle)
    requires Allowed(l, Op.Construct(h))
    ensures var m := Step(l, Op.Construct(h));
            && |m.slots| == |l.slots| + 1 && m.slots[|l.slots|] == Some(h)
            && (forall j :: 0 <= j < |l.slots| ==> m.slots[j] == l.slots[j])
            && m.wrapped == l.wrapped + multiset{h}
            && m.released == l.released && m.finalised == l.finalised
  {
  }

  /** Move construction takes the handle over, move assignment exchanges the two. */
  lemma Moving(l: Ledger, to: nat, from: nat)
    requires to < |l.slots| && from < |l.slots|
    ensures var m := Step(l, MoveConstruct(from));
            && |m.slots| == |l.slots| + 1 && m.slots[|l.slots|] == l.slots[from] && m.slots[from] == None
            && (forall j :: 0 <= j < |l.slots| && j != from ==> m.slots[j] == l.slots[j])
            && m == l.(slots := m.slots)
    ensures var m := Step(l, MoveAssign(to, from));
            && |m.slots| == |l.slots| && m.slots[to] == l.slots[from] && m.slots[from] == l.slots[to]
            && (forall j :: 0 <= j < |l.slots| && j != from && j != to ==> m.slots[j] == l.slots[j])
            && m == l.(slots := m.slots)
  {
  }

  /** Releasing gives the handle away, closing and destroying have it finalised; an empty object does neither. */
  lemma Ending(l: Ledger, i: nat)
    requires i < |l.slots|
    ensures var given := if l.slots[i].Some? then multiset{l.slots[i].value} else multiset{};
            var slots := seq(|l.slots|, j requires 0 <= j < |l.slots| => if j == i then None else l.slots[j]);
            && Step(l, Op.Release(i)) == Ledger(slots, l.wrapped, l.released + given, l.finalised)
            && Step(l, Op.Close(i)) == Ledger(slots, l.wrapped, l.released, l.finalised + given)
            && Step(l, Op.Destroy(i)) == Ledger(slots, l.wrapped, l.released, l.finalised + given)
  {
    assert l.slots[i := None] == seq(|l.slots|, j requires 0 <= j < |l.slots| => if j == i then None else l.slots[j]);
  }

  /** A run; what is not allowed does not happen. */
  function Run(l: Ledger, ops: seq<Op>): Ledger {
    if ops == [] then l
    else
      var before := Run(l, ops[..|ops| - 1]);
      if Allowed(before, ops[|ops| - 1]) then Step(before, ops[|ops| - 1]) else before
  }

  /** Runs go operation by operation. */
  lemma RunAppend(l: Ledger, ops: seq<Op>, op: Op)
    ensures Run(l, []) == l
    ensures Allowed(Run(l, ops), op) ==> Run(l, ops + [op]) == Step(Run(l, ops), op)
  {
    assert (ops + [op])[..|ops|] == ops;
  }

  ghost predicate Conserved(l: Ledger, h: Handle) {
    Owners(l.slots, h) + l.released[h] + l.finalised[h] == l.wrapped[h] <= 1
  }

  lemma StepConserves(l: Ledger, op: Op, h: Handle)
    requires Conserved(l, h) && Allowed(l, op)
    ensures Conserved(Step(l, op), h)
  {
    match op
    case Construct(taken) => OwnersSnoc(l.slots, Some(taken), h);
    case MoveConstruct(from) =>
      OwnersUpdate(l.slots, from, None, h);
      OwnersSnoc(l.slots[from := None], l.slots[from], h);
    case MoveAssign(to, from) => OwnersSwap(l.slots, to, from, h);
    case Release(i) => OwnersUpdate(l.slots, i, None, h);
    case Close(i) => OwnersUpdate(l.slots, i, None, h);
    case Destroy(i) => OwnersUpdate(l.slots, i, None, h);
  }

  lemma {:induction false} RunConserves(l: Ledger, ops: seq<Op>, h: Handle)
    requires Conserved(l, h)
    ensures Conserved(Run(l, ops), h)
  {
    if ops != [] {
      RunConserves(l, ops[..|ops| - 1], h);
      var before := Run(l, ops[..|ops| - 1]);
      if Allowed(before, ops[|ops| - 1]) {
        StepConserves(before, ops[|ops| - 1], h);
      }
    }
  }

  ghost predicate Unowned(l: Ledger, h: Handle) {
    forall i :: 0 <= i < |l.slots| ==> l.slots[i] != Some(h)
  }

  /** A handle is with exactly one object, or was released once, or was finalised once. */
  ghost predicate ExactlyOnce(l: Ledger, h: Handle) {
    || ((exists i :: 0 <= i < |l.slots| && SoleOwner(l.slots, i, h)) && l.released[h] == 0 && l.finalised[h] == 0)
    || (Unowned(l, h) && l.released[h] == 1 && l.finalised[h] == 0)
    || (Unowned(l, h) && l.released[h] == 0 && l.finalised[h] == 1)
  }

  const EMPTY := Ledger([], multiset{}, multiset{}, multiset{})

  /** Over every run no handle is lost and none is finalised twice. */
  lemma HandlesConserved(ops: seq<Op>, h: Handle)
    ensures h in Run(EMPTY, ops).wrapped ==> ExactlyOnce(Run(EMPTY, ops), h)
  {
    RunConserves(EMPTY, ops, h);
    OwnerFound(Run(EMPTY, ops).slots, h);
  }

  // ---- The objects ----

  /** What the SQLite library has been asked to finalise. */
  class Library {
    var finalised: multiset<Handle>

    constructor ()
      ensures finalised == multiset{}
    {
      finalised := multiset{};
    }

    /** Finalising no handle is harmless; the error code of the last step does not matter here. */
    method Finalize(handle: Option<Handle>)
      modifies this
      ensures finalised == Add(old(finalised), handle)
    {
      finalised := Add(finalised, handle);
    }
  }

  class Statement {
    var statement: Option<Handle>

    constructor (handle: Option<Handle>)
      ensures statement == handle
    {
      statement := handle;
    }

    method Swap(other: Statement)
      modifies this, other
      ensures statement == old(other.statement) && other.statement == old(statement)
    {
      statement, other.statement := other.statement, statement;
    }

    constructor Move(move: Statement)
      modifies move
      ensures statement == old(move.statement) && move.statement == None
    {
      statement := None;
      new;
      Swap(move);
    }

    method Release() returns (handle: Option<Handle>)
      modifies this
      ensures handle == old(statement) && statement == None
    {
      handle := statement;
      statement := None;
    }

    method Close(library: Library)
      modifies this, library
      ensures statement == None
      ensures library.finalised == Add(old(library.finalised), old(statement))
    {
      library.Finalize(statement);
      statement := None;
    }
  }

  /** A program holding statements: each operation moves its ledger as specified. */
  class Program {
    var statements: seq<Statement>
    var library: Library
    ghost var wrapped: multiset<Handle>
    var released: multiset<Handle>

    ghost predicate Valid()
      reads this
    {
      forall i, j :: 0 <= i < j < |statements| ==> statements[i] != statements[j]
    }

    ghost function Books(): Ledger
      reads this, statements, library
    {
      Ledger(seq(|statements|, i requires 0 <= i < |statements| reads this, statements => statements[i].statement),
             wrapped, released, library.finalised)
    }

    constructor ()
      ensures Valid() && Books() == EMPTY && fresh(library)
    {
      statements, wrapped, released := [], multiset{}, multiset{};
      library := new Library();
    }

    method Construct(h: Handle)
      requires Valid() && Allowed(Books(), Op.Construct(h))
      modifies this, statements, library
      ensures Valid() && library == old(library)
      ensures Books() == Step(old(Books()), Op.Construct(h))
    {
      var s := new Statement(Some(h));
      statements := statements + [s];
      wrapped := Add(wrapped, Some(h));
    }

    method MoveConstruct(from: nat)
      requires Valid() && Allowed(Books(), Op.MoveConstruct(from))
      modifies this, statements, library
      ensures Valid() && library == old(library)
      ensures Books() == Step(old(Books()), Op.MoveConstruct(from))
    {
      var s := new Statement.Move(statements[from]);
      statements := statements + [s];
    }

    method MoveAssign(to: nat, from: nat)
      requires Valid() && Allowed(Books(), Op.MoveAssign(to, from))
      modifies this, statements, library
      ensures Valid() && library == old(library)
      ensures Books() == Step(old(Books()), Op.MoveAssign(to, from))
    {
      statements[to].Swap(statements[from]);
    }

    method Release(i: nat)
      requires Valid() && Allowed(Books(), Op.Release(i))
      modifies this, statements, library
      ensures Valid() && library == old(library)
      ensures Books() == Step(old(Books()), Op.Release(i))
    {
      var h := statements[i].Release();
      released := Add(released, h);
    }

    method Close(i: nat)
      requires Valid() && Allowed(Books(), Op.Close(i))
      modifies this, statements, library
      ensures Valid() && library == old(library)
      ensures Books() == Step(old(Books()), Op.Close(i))
    {
      statements[i].Close(library);
    }

    method Destroy(i: nat)
      requires Valid() && Allowed(Books(), Op.Destroy(i))
      modifies this, statements, library
      ensures Valid() && library == old(library)
      ensures Books() == Step(old(Books()), Op.Destroy(i))
    {
      statements[i].Close(library);
    }
  }
}
