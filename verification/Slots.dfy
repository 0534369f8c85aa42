/** Objects that each own at most one thing, and how many of them own a given thing. */
module Slots {
  import opened Bytes

  function Is<T(==)>(slot: Option<T>, x: T): nat {
    if slot == Some(x) then 1 else 0
  }

  /** How many objects own x. */
  function Owners<T(==)>(slots: seq<Option<T>>, x: T): nat {
    if slots == [] then 0
    else Owners(slots[..|slots| - 1], x) + Is(slots[|slots| - 1], x)
  }

  /** A multiset with what an object owns, if anything, added. */
  function Add<T(==,!new)>(m: multiset<T>, slot: Option<T>): (r: multiset<T>)
    ensures forall x :: r[x] == m[x] + Is(slot, x)
  {
    if slot.None? then m else m[slot.value := m[slot.value] + 1]
  }

  lemma OwnersSnoc<T>(slots: seq<Option<T>>, slot: Option<T>, x: T)
    ensures Owners(slots + [slot], x) == Owners(slots, x) + Is(slot, x)
  {
    assert (slots + [slot])[..|slots|] == slots;
  }

  /** Replacing what one object owns exchanges exactly that. */
  lemma {:induction false} OwnersUpdate<T>(slots: seq<Option<T>>, i: nat, slot: Option<T>, x: T)
    requires i < |slots|
    ensures Owners(slots[i := slot], x) + Is(slots[i], x) == Owners(slots, x) + Is(slot, x)
  {
    var n := |slots| - 1;
    if i == n {
      assert slots[i := slot][..n] == slots[..n];
    } else {
      OwnersUpdate(slots[..n], i, slot, x);
      assert slots[i := slot][..n] == slots[..n][i := slot];
    }
  }

  /** Swapping two objects' contents changes nothing in sum; swapping an object with itself neither. */
  lemma OwnersSwap<T>(slots: seq<Option<T>>, i: nat, j: nat, x: T)
    requires i < |slots| && j < |slots|
    ensures Owners(slots[i := slots[j]][j := slots[i]], x) == Owners(slots, x)
  {
    OwnersUpdate(slots, i, slots[j], x);
    OwnersUpdate(slots[i := slots[j]], j, slots[i], x);
  }

  ghost predicate SoleOwner<T>(slots: seq<Option<T>>, i: nat, x: T) {
    i < |slots| && slots[i] == Some(x) && forall j :: 0 <= j < |slots| && slots[j] == Some(x) ==> j == i
  }

  /** No owner, or exactly one, as counted. */
  lemma {:induction false} OwnerFound<T>(slots: seq<Option<T>>, x: T)
    ensures Owners(slots, x) == 0 ==> forall i :: 0 <= i < |slots| ==> slots[i] != Some(x)
    ensures Owners(slots, x) == 1 ==> exists i :: 0 <= i < |slots| && SoleOwner(slots, i, x)
  {
    if slots != [] {
      var n := |slots| - 1;
      OwnerFound(slots[..n], x);
      assert forall i :: 0 <= i < n ==> slots[i] == slots[..n][i];
      if Owners(slots, x) == 1 {
        if slots[n] == Some(x) {
          assert SoleOwner(slots, n, x);
        } else {
          var i :| 0 <= i < n && SoleOwner(slots[..n], i, x);
          assert SoleOwner(slots, i, x);
        }
      }
    }
  }
}
