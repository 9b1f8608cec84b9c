/** The slots of SDL's hash table as a value: what Robin Hood hashing keeps
    true of them, and what one step of an insertion or a deletion does. */
module Slots {
  import opened Words

  /** `SDL_HashItem`. */
  datatype Item = Item(key: Ptr, value: Ptr, hash: Uint32, probeLen: nat, live: bool)

  /** What an item stores, without the bookkeeping. */
  datatype Entry = Entry(key: Ptr, value: Ptr, hash: Uint32)

  const ZERO_ITEM := Item(0, 0, 0, 0, false)

  function EntryOf(it: Item): Entry {
    Entry(it.key, it.value, it.hash)
  }

  /** `hash & hash_mask`; the number of slots is a power of two. */
  function Home(hash: Uint32, n: nat): (r: nat)
    requires n > 0
    ensures r < n
  {
    hash % n
  }

  // ----- the stored entries, with multiplicity -----

  function EntriesOfSlot(it: Item): multiset<Entry> {
    if it.live then multiset{EntryOf(it)} else multiset{}
  }

  function Entries(t: seq<Item>): multiset<Entry> {
    if t == [] then multiset{} else Entries(t[..|t| - 1]) + EntriesOfSlot(t[|t| - 1])
  }

  lemma AddToBoth<T>(xx: multiset<T>, yy: multiset<T>, x: multiset<T>, y: multiset<T>,
                     s: multiset<T>, s': multiset<T>, last: multiset<T>)
    requires xx == x + last && yy == y + last && x + s == y + s'
    ensures xx + s == yy + s'
  {
    assert xx + s == (x + s) + last;
    assert yy + s' == (y + s') + last;
  }

  lemma EntriesUpdateLast(t: seq<Item>, it: Item)
    requires t != []
    ensures var i := |t| - 1; Entries(t[i := it]) + EntriesOfSlot(t[i]) == Entries(t) + EntriesOfSlot(it)
  {
    var i := |t| - 1;
    var u := t[i := it];
    assert u[..i] == t[..i] && u[i] == it;
    AddToBoth(Entries(u), Entries(t), EntriesOfSlot(it), EntriesOfSlot(t[i]), EntriesOfSlot(t[i]), EntriesOfSlot(it),
              Entries(t[..i]));
  }

  lemma {:induction false} EntriesUpdate(t: seq<Item>, i: nat, it: Item)
    requires i < |t|
    ensures Entries(t[i := it]) + EntriesOfSlot(t[i]) == Entries(t) + EntriesOfSlot(it)
  {
    var n := |t| - 1;
    if i == n {
      EntriesUpdateLast(t, it);
    } else {
      var u := t[i := it];
      assert u[..n] == t[..n][i := it] && u[n] == t[n];
      EntriesUpdate(t[..n], i, it);
      AddToBoth(Entries(u), Entries(t), Entries(u[..n]), Entries(t[..n]), EntriesOfSlot(t[i]), EntriesOfSlot(it),
                EntriesOfSlot(t[n]));
    }
  }

  lemma {:induction false} EntriesMember(t: seq<Item>, e: Entry)
    ensures e in Entries(t) <==> exists i :: 0 <= i < |t| && t[i].live && EntryOf(t[i]) == e
  {
    if t != [] {
      var n := |t| - 1;
      EntriesMember(t[..n], e);
      assert forall i :: 0 <= i < n ==> t[..n][i] == t[i];
    }
  }

  lemma EntryInSlot(t: seq<Item>, i: nat)
    requires i < |t| && t[i].live
    ensures EntryOf(t[i]) in Entries(t)
  {
    EntriesMember(t, EntryOf(t[i]));
  }

  lemma {:induction false} EntriesBound(t: seq<Item>)
    ensures |Entries(t)| <= |t|
    ensures |Entries(t)| < |t| ==> exists i :: 0 <= i < |t| && !t[i].live
    ensures (forall i :: 0 <= i < |t| ==> !t[i].live) ==> Entries(t) == multiset{}
  {
    if t != [] {
      var n := |t| - 1;
      EntriesBound(t[..n]);
      assert forall i :: 0 <= i < n ==> t[..n][i] == t[i];
      if |Entries(t)| < |t| && t[n].live {
        var i :| 0 <= i < n && !t[..n][i].live;
        assert !t[i].live;
      }
    }
  }

  // ----- the invariant -----

  /** Slot `i` is as Robin Hood hashing leaves it: an empty slot is all zero,
      and an item away from its home sits right after an item that is at most
      one step better off. */
  ghost predicate Slotted(t: seq<Item>, i: nat)
    requires i < |t|
  {
    var n := |t|;
    if !t[i].live then t[i] == ZERO_ITEM
    else
      && t[i].probeLen == Distance(Home(t[i].hash, n), i, n)
      && (t[i].probeLen > 0 ==> t[Prev(i, n)].live && t[Prev(i, n)].probeLen >= t[i].probeLen - 1)
  }

  ghost predicate RobinHood(t: seq<Item>) {
    |t| > 0 && forall i :: 0 <= i < |t| ==> Slotted(t, i)
  }

  ghost predicate HasEmptySlot(t: seq<Item>) {
    exists i :: 0 <= i < |t| && !t[i].live
  }

  ghost predicate ProbesWithin(t: seq<Item>, m: nat) {
    forall i :: 0 <= i < |t| ==> t[i].probeLen <= m
  }

  /** `m` is not larger than it has to be. */
  ghost predicate ProbeReached(t: seq<Item>, m: nat) {
    m == 0 || exists i :: 0 <= i < |t| && t[i].probeLen == m
  }

  /** Walking back from an item towards its home meets only live items, each
      at most one step better off than the one after it. */
  lemma {:induction false} BackChain(t: seq<Item>, j: nat, d: nat)
    requires RobinHood(t) && j < |t| && t[j].live && d <= t[j].probeLen
    ensures d < |t| && t[Back(j, d, |t|)].live && t[Back(j, d, |t|)].probeLen >= t[j].probeLen - d
  {
    assert Slotted(t, j);
    if d > 0 {
      BackChain(t, j, d - 1);
      var i := Back(j, d - 1, |t|);
      assert Slotted(t, i);
      assert Prev(i, |t|) == Back(j, d, |t|);
    }
  }

  /** The item `it` may be put into slot `idx` or looked for from there on:
      the slot before holds an item no better off than `it` was there. */
  ghost predicate Arrives(t: seq<Item>, idx: nat, it: Item)
    requires idx < |t|
  {
    var n := |t|;
    var p := Distance(Home(it.hash, n), idx, n);
    p > 0 ==> t[Prev(idx, n)].live && t[Prev(idx, n)].probeLen >= p - 1
  }

  function Placed(it: Item, idx: nat, n: nat): Item
    requires idx < n
  {
    it.(probeLen := Distance(Home(it.hash, n), idx, n), live := true)
  }

  /** Putting an arriving item into an empty slot, or into the slot of an item
      that is better off, keeps the invariant. */
  lemma PlaceKeepsRobinHood(t: seq<Item>, idx: nat, it: Item)
    requires RobinHood(t) && idx < |t| && Arrives(t, idx, it)
    requires t[idx].live ==> t[idx].probeLen < Distance(Home(it.hash, |t|), idx, |t|)
    ensures RobinHood(t[idx := Placed(it, idx, |t|)])
  {
    var n := |t|;
    var u := t[idx := Placed(it, idx, n)];
    forall i | 0 <= i < n
      ensures Slotted(u, i)
    {
      assert Slotted(t, i);
      assert Slotted(t, idx);
      if i != idx && Prev(i, n) == idx {
        assert t[idx].live || t[i].probeLen == 0;
      }
    }
  }

  /** Leaving slot `idx` behind, with its own item or with one evicted from it. */
  lemma StepKeepsArrival(t: seq<Item>, idx: nat, it: Item)
    requires RobinHood(t) && idx < |t|
    requires t[idx].live && t[idx].probeLen >= Distance(Home(it.hash, |t|), idx, |t|)
    ensures Arrives(t, Next(idx, |t|), it)
  {
    assert Prev(Next(idx, |t|), |t|) == idx;
  }

  /** One step of the backward shift: slot `i` takes the item after it, which
      is away from its home. The copied item is now stored twice. */
  lemma ShiftKeepsRobinHood(t: seq<Item>, i: nat)
    requires RobinHood(t) && i < |t| && t[i].live
    requires t[Next(i, |t|)].probeLen >= 1
    ensures var x := t[Next(i, |t|)];
            RobinHood(t[i := x.(probeLen := x.probeLen - 1)])
  {
    var n := |t|;
    var j := Next(i, n);
    var u := t[i := t[j].(probeLen := t[j].probeLen - 1)];
    forall k | 0 <= k < n
      ensures Slotted(u, k)
    {
      assert Slotted(t, k);
      assert Slotted(t, i);
      assert Slotted(t, j);
      assert Prev(j, n) == i;
    }
  }

  /** The last step of the backward shift: the slot is zeroed. */
  lemma ZeroKeepsRobinHood(t: seq<Item>, i: nat)
    requires RobinHood(t) && i < |t|
    requires t[Next(i, |t|)].probeLen < 1
    ensures RobinHood(t[i := ZERO_ITEM])
  {
    var n := |t|;
    var u := t[i := ZERO_ITEM];
    forall k | 0 <= k < n
      ensures Slotted(u, k)
    {
      assert Slotted(t, k);
      assert k != i && Prev(k, n) == i ==> k == Next(i, n);
    }
  }

  /** What lets `find_item` stop early: once a slot is empty, or holds an item
      better off than the wanted one would be there, no item with the wanted
      home sits at that distance or farther. */
  lemma NothingBeyond(t: seq<Item>, home: nat, i: nat, j: nat)
    requires RobinHood(t) && home < |t| && i < |t| && j < |t|
    requires !t[i].live || t[i].probeLen < Distance(home, i, |t|)
    requires t[j].live && Home(t[j].hash, |t|) == home
    ensures Distance(home, j, |t|) < Distance(home, i, |t|)
  {
    var n := |t|;
    assert Slotted(t, j);
    var p, q := Distance(home, i, n), Distance(home, j, n);
    if p <= q {
      assert Back(j, q - p, n) == i;
      BackChain(t, j, q - p);
    }
  }
}
