/** The lookup and deletion loops of the hash table. */
module Lookup {
  import opened Words
  import opened Slots
  import opened Bindings

  /** Every live slot records its key's hash. */
  ghost predicate HashesAgree(t: seq<Item>, cb: Callbacks) {
    forall j :: 0 <= j < |t| && t[j].live ==> t[j].hash == cb.CalcHash(t[j].key)
  }

  ghost predicate NotAt(t: seq<Item>, cb: Callbacks, key: Ptr, j: nat)
    requires j < |t|
  {
    t[j].live ==> !cb.Match(t[j].key, key)
  }

  /** The slots less than `p` steps from the key's home are live and hold other keys. */
  ghost predicate Passed(t: seq<Item>, cb: Callbacks, key: Ptr, home: nat, p: nat)
    requires home < |t|
  {
    forall j :: 0 <= j < |t| && Distance(home, j, |t|) < p ==> t[j].live && NotAt(t, cb, key, j)
  }

  /** An empty slot, or one holding an item better off than the key would be
      there, ends the search: the key is nowhere. */
  lemma SearchEnds(t: seq<Item>, cb: Callbacks, key: Ptr, i: nat)
    requires RobinHood(t) && HashesAgree(t, cb) && i < |t|
    requires var home := Home(cb.CalcHash(key), |t|);
             && Passed(t, cb, key, home, Distance(home, i, |t|))
             && (!t[i].live || t[i].probeLen < Distance(home, i, |t|))
    ensures forall j :: 0 <= j < |t| ==> NotAt(t, cb, key, j)
  {
    forall j | 0 <= j < |t|
      ensures NotAt(t, cb, key, j)
    {
      if t[j].live && cb.Match(t[j].key, key) {
        NothingBeyond(t, Home(cb.CalcHash(key), |t|), i, j);
      }
    }
  }

  /** So does having looked as far as any item is from its home. */
  lemma SearchExhausted(t: seq<Item>, cb: Callbacks, key: Ptr, m: nat, p: nat)
    requires RobinHood(t) && HashesAgree(t, cb) && ProbesWithin(t, m) && m < p
    requires Passed(t, cb, key, Home(cb.CalcHash(key), |t|), p)
    ensures forall j :: 0 <= j < |t| ==> NotAt(t, cb, key, j)
  {
    forall j | 0 <= j < |t|
      ensures NotAt(t, cb, key, j)
    {
      assert Slotted(t, j);
    }
  }

  lemma PassedOneMore(t: seq<Item>, cb: Callbacks, key: Ptr, home: nat, i: nat)
    requires home < |t| && i < |t| && HasEmptySlot(t)
    requires Passed(t, cb, key, home, Distance(home, i, |t|)) && t[i].live && NotAt(t, cb, key, i)
    ensures Passed(t, cb, key, home, Distance(home, i, |t|) + 1)
    ensures Distance(home, Next(i, |t|), |t|) == Distance(home, i, |t|) + 1
  {
    var e: nat :| e < |t| && !t[e].live;
    assert Distance(home, e, |t|) > Distance(home, i, |t|);
  }

  /** `find_first_item` and `find_item`; -1 stands for NULL. */
  method FindItem(cb: Callbacks, table: array<Item>, maxProbeLen: nat, key: Ptr, hash: Uint32) returns (slot: int)
    requires hash == cb.CalcHash(key)
    requires RobinHood(table[..]) && HasEmptySlot(table[..]) && ProbesWithin(table[..], maxProbeLen)
    requires HashesAgree(table[..], cb)
    ensures -1 <= slot < table.Length
    ensures slot >= 0 ==> table[slot].live && cb.Match(table[slot].key, key)
    ensures slot < 0 ==> forall j :: 0 <= j < table.Length ==> NotAt(table[..], cb, key, j)
  {
    var n := table.Length;
    ghost var t, home := table[..], Home(hash, n);
    var i: nat := Home(hash, n);
    var probeLen := 0;
    while true
      invariant i < n && probeLen == Distance(home, i, n) && Passed(t, cb, key, home, probeLen)
      decreases n - probeLen
    {
      var item := table[i];
      if !item.live {
        SearchEnds(t, cb, key, i);
        return -1;
      }
      if item.hash == hash && cb.Match(item.key, key) {
        return i;
      }
      if probeLen > item.probeLen {
        SearchEnds(t, cb, key, i);
        return -1;
      }
      PassedOneMore(t, cb, key, home, i);
      probeLen := probeLen + 1;
      if probeLen > maxProbeLen {
        SearchExhausted(t, cb, key, maxProbeLen, probeLen);
        return -1;
      }
      i := Next(i, n);
    }
  }

  function ShiftedBack(it: Item): Item
    requires it.probeLen >= 1
  {
    it.(probeLen := it.probeLen - 1)
  }

  lemma Exchange<T>(before: multiset<T>, after: multiset<T>, gone: T, come: T)
    requires after + multiset{gone} == before + multiset{come} && gone in before
    ensures after - multiset{come} == before - multiset{gone}
  {
    assert after == before + multiset{come} - multiset{gone};
  }

  /** Copying a live slot's item into another live slot trades one entry for the other. */
  lemma EntriesTraded(t: seq<Item>, i: nat, it: Item)
    requires i < |t| && t[i].live && it.live
    ensures Entries(t[i := it]) - multiset{EntryOf(it)} == Entries(t) - multiset{EntryOf(t[i])}
  {
    EntriesUpdate(t, i, it);
    EntryInSlot(t, i);
    Exchange(Entries(t), Entries(t[i := it]), EntryOf(t[i]), EntryOf(it));
  }

  /** One backward shift: the hole moves on to the next slot. */
  lemma ShiftHole(t: seq<Item>, hole: nat, m: nat)
    requires RobinHood(t) && hole < |t| && t[hole].live && ProbesWithin(t, m)
    requires t[Next(hole, |t|)].probeLen >= 1
    ensures var next := Next(hole, |t|);
            var u := t[hole := ShiftedBack(t[next])];
            && RobinHood(u) && u[next].live && ProbesWithin(u, m) && u[hole].probeLen < m
            && Entries(u) - multiset{EntryOf(u[next])} == Entries(t) - multiset{EntryOf(t[hole])}
  {
    var next := Next(hole, |t|);
    assert Slotted(t, next) && next != hole;
    ShiftKeepsRobinHood(t, hole);
    EntriesTraded(t, hole, ShiftedBack(t[next]));
  }

  /** The last step zeroes the hole. */
  lemma CloseHole(t: seq<Item>, hole: nat)
    requires RobinHood(t) && hole < |t| && t[hole].live && t[Next(hole, |t|)].probeLen < 1
    ensures RobinHood(t[hole := ZERO_ITEM])
    ensures Entries(t[hole := ZERO_ITEM]) == Entries(t) - multiset{EntryOf(t[hole])}
  {
    ZeroKeepsRobinHood(t, hole);
    EntriesUpdate(t, hole, ZERO_ITEM);
    EntryInSlot(t, hole);
    assert Entries(t[hole := ZERO_ITEM]) + multiset{EntryOf(t[hole])} == Entries(t);
  }

  /** The backward shift of `delete_item`. */
  method ShiftBack(table: array<Item>, slot: nat, ghost maxProbeLen: nat)
    requires RobinHood(table[..]) && HasEmptySlot(table[..]) && ProbesWithin(table[..], maxProbeLen)
    requires slot < table.Length && table[slot].live
    modifies table
    ensures RobinHood(table[..]) && ProbesWithin(table[..], maxProbeLen)
    ensures Entries(table[..]) == old(Entries(table[..])) - multiset{EntryOf(old(table[slot]))}
  {
    var n := table.Length;
    ghost var rest := Entries(table[..]) - multiset{EntryOf(table[slot])};
    ghost var e: nat :| e < n && !table[..][e].live;
    var item := slot;
    var idx := slot;
    while true
      invariant idx == item < n && RobinHood(table[..]) && ProbesWithin(table[..], maxProbeLen)
      invariant table[item].live && !table[e].live
      invariant Entries(table[..]) - multiset{EntryOf(table[item])} == rest
      decreases Distance(item, e, n)
    {
      ghost var t := table[..];
      NextIsCloser(item, e, n);
      idx := Next(idx, n);
      var nextItem := table[idx];
      if nextItem.probeLen < 1 {
        CloseHole(t, item);
        table[item] := ZERO_ITEM;
        assert table[..] == t[item := ZERO_ITEM];
        return;
      }
      ShiftHole(t, item, maxProbeLen);
      table[item] := nextItem.(probeLen := nextItem.probeLen - 1);
      assert table[..] == t[item := ShiftedBack(nextItem)];
      item := idx;
    }
  }
}
