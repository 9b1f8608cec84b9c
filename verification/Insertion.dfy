/** The insertion loop of the hash table, over two arrays as in the source:
    the item to insert lives in a cell that the loop itself overwrites. */
module Insertion {
  import opened Words
  import opened Slots

  /** Probe lengths recorded in the table never shrink during an insertion. */
  ghost predicate NoShorter(t: seq<Item>, u: seq<Item>) {
    |t| == |u| && forall i :: 0 <= i < |t| ==> (t[i].live ==> u[i].live) && t[i].probeLen <= u[i].probeLen
  }

  /** `m` bounds the recorded probe lengths; where it is above `m0`, a slot reaches it. */
  ghost predicate Raised(t: seq<Item>, m0: nat, m: nat) {
    m0 <= m && ProbesWithin(t, m) && (m == m0 || exists i :: 0 <= i < |t| && t[i].probeLen == m)
  }

  lemma PlaceRaises(t0: seq<Item>, t: seq<Item>, idx: nat, it: Item, m0: nat, m: nat)
    requires RobinHood(t) && NoShorter(t0, t) && idx < |t| && Raised(t, m0, m)
    requires t[idx].live ==> t[idx].probeLen < Distance(Home(it.hash, |t|), idx, |t|)
    ensures var p := Distance(Home(it.hash, |t|), idx, |t|);
            var u := t[idx := Placed(it, idx, |t|)];
            NoShorter(t0, u) && Raised(u, m0, if m < p then p else m)
  {
    assert Slotted(t, idx);
    var u := t[idx := Placed(it, idx, |t|)];
    var p := Distance(Home(it.hash, |t|), idx, |t|);
    assert u[idx].probeLen == p;
    if m0 < m && p <= m {
      var i :| 0 <= i < |t| && t[i].probeLen == m;
      assert u[i].probeLen == m;
    }
  }

  /** The loop's state: `x` is under way to slot `idx`; no slot from there to
      the empty slot `e` has been touched; the entry `given` is in slot
      `target` once it has been placed. */
  ghost predicate UnderWay(t0: seq<Item>, given: Item, e: nat, t: seq<Item>, x: Item, idx: nat, placed: bool, target: nat)
  {
    var n := |t|;
    && RobinHood(t) && idx < n && e < n && !t[e].live && target < n
    && x.live && Arrives(t, idx, x)
    && Entries(t) + multiset{EntryOf(x)} == Entries(t0) + multiset{EntryOf(given)}
    && (if placed then
          t[target].live && EntryOf(t[target]) == EntryOf(given) && Distance(idx, e, n) < Distance(target, e, n)
        else x == given)
  }

  /** The candidate at `idx` is no better off than `x` would be: go on. */
  lemma PassOver(t0: seq<Item>, given: Item, e: nat, t: seq<Item>, x: Item, idx: nat, placed: bool, target: nat)
    requires UnderWay(t0, given, e, t, x, idx, placed, target)
    requires t[idx].live && t[idx].probeLen >= Distance(Home(x.hash, |t|), idx, |t|)
    ensures UnderWay(t0, given, e, t, x, Next(idx, |t|), placed, target)
  {
    StepKeepsArrival(t, idx, x);
    NextIsCloser(idx, e, |t|);
  }

  /** The candidate at `idx` is better off than `x` would be: take its place
      and go on with it. */
  lemma Evict(t0: seq<Item>, given: Item, e: nat, t: seq<Item>, x: Item, idx: nat, placed: bool, target: nat)
    requires UnderWay(t0, given, e, t, x, idx, placed, target)
    requires t[idx].live && t[idx].probeLen < Distance(Home(x.hash, |t|), idx, |t|)
    ensures UnderWay(t0, given, e, t[idx := Placed(x, idx, |t|)], t[idx], Next(idx, |t|), true,
                     if placed then target else idx)
  {
    var u := t[idx := Placed(x, idx, |t|)];
    PlaceKeepsRobinHood(t, idx, x);
    EntriesUpdate(t, idx, Placed(x, idx, |t|));
    assert Slotted(t, idx);
    StepKeepsArrival(u, idx, t[idx]);
    NextIsCloser(idx, e, |t|);
  }

  /** The slot `idx` is empty: put `x` there and stop. */
  lemma Settle(t0: seq<Item>, given: Item, e: nat, t: seq<Item>, x: Item, idx: nat, placed: bool, target: nat)
    requires UnderWay(t0, given, e, t, x, idx, placed, target) && !t[idx].live
    ensures var u := t[idx := Placed(x, idx, |t|)];
            var r := if placed then target else idx;
            && RobinHood(u)
            && Entries(u) == Entries(t0) + multiset{EntryOf(given)}
            && u[r].live && EntryOf(u[r]) == EntryOf(given)
  {
    PlaceKeepsRobinHood(t, idx, x);
    EntriesUpdate(t, idx, Placed(x, idx, |t|));
  }

  /** The loop's whole invariant, with the probe lengths that it records. */
  ghost predicate Inserting(t0: seq<Item>, given: Item, e: nat, m0: nat, t: seq<Item>, x: Item, idx: nat,
                            placed: bool, target: nat, m: nat) {
    UnderWay(t0, given, e, t, x, idx, placed, target) && NoShorter(t0, t) && Raised(t, m0, m)
  }

  function Larger(m: nat, p: nat): nat {
    if m < p then p else m
  }

  lemma EvictRaises(t0: seq<Item>, given: Item, e: nat, m0: nat, t: seq<Item>, x: Item, idx: nat,
                    placed: bool, target: nat, m: nat)
    requires Inserting(t0, given, e, m0, t, x, idx, placed, target, m)
    requires t[idx].live && t[idx].probeLen < Distance(Home(x.hash, |t|), idx, |t|)
    ensures Inserting(t0, given, e, m0, t[idx := Placed(x, idx, |t|)], t[idx], Next(idx, |t|), true,
                      if placed then target else idx, Larger(m, Distance(Home(x.hash, |t|), idx, |t|)))
    ensures Distance(Next(idx, |t|), e, |t|) < Distance(idx, e, |t|)
  {
    Evict(t0, given, e, t, x, idx, placed, target);
    PlaceRaises(t0, t, idx, x, m0, m);
    NextIsCloser(idx, e, |t|);
  }

  lemma PassOverRaises(t0: seq<Item>, given: Item, e: nat, m0: nat, t: seq<Item>, x: Item, idx: nat,
                       placed: bool, target: nat, m: nat)
    requires Inserting(t0, given, e, m0, t, x, idx, placed, target, m)
    requires t[idx].live && t[idx].probeLen >= Distance(Home(x.hash, |t|), idx, |t|)
    ensures Inserting(t0, given, e, m0, t, x, Next(idx, |t|), placed, target, m)
    ensures Distance(Next(idx, |t|), e, |t|) < Distance(idx, e, |t|)
  {
    PassOver(t0, given, e, t, x, idx, placed, target);
    NextIsCloser(idx, e, |t|);
  }

  /** What the loop has done when it stops. */
  ghost predicate Inserted(t0: seq<Item>, given: Item, m0: nat, t: seq<Item>, target: nat, m: nat) {
    && RobinHood(t) && NoShorter(t0, t) && Raised(t, m0, m)
    && Entries(t) == Entries(t0) + multiset{EntryOf(given)}
    && target < |t| && t[target].live && EntryOf(t[target]) == EntryOf(given)
  }

  lemma SettleRaises(t0: seq<Item>, given: Item, e: nat, m0: nat, t: seq<Item>, x: Item, idx: nat,
                     placed: bool, target: nat, m: nat)
    requires Inserting(t0, given, e, m0, t, x, idx, placed, target, m) && !t[idx].live
    ensures Inserted(t0, given, m0, t[idx := Placed(x, idx, |t|)],
                     if placed then target else idx, Larger(m, Distance(Home(x.hash, |t|), idx, |t|)))
  {
    Settle(t0, given, e, t, x, idx, placed, target);
    PlaceRaises(t0, t, idx, x, m0, m);
  }

  method Store(a: array<Item>, i: nat, it: Item)
    requires i < a.Length
    modifies a
    ensures a[..] == old(a[..])[i := it]
  {
    a[i] := it;
  }

  /** The item in the cell takes the slot's place, and the slot's item the cell's. */
  method Exchange(cell: array<Item>, c: nat, table: array<Item>, idx: nat, probeLen: nat)
    requires cell != table && c < cell.Length && idx < table.Length
    modifies cell, table
    ensures table[..] == old(table[..])[idx := old(cell[c]).(probeLen := probeLen)]
    ensures cell[c] == old(table[idx]) && forall i :: 0 <= i < cell.Length && i != c ==> cell[i] == old(cell[i])
  {
    var candidate := table[idx];
    table[idx] := cell[c].(probeLen := probeLen);
    cell[c] := candidate;
  }

  lemma InsertingStarts(t0: seq<Item>, given: Item, e: nat, m0: nat)
    requires RobinHood(t0) && ProbesWithin(t0, m0) && given.live && e < |t0| && !t0[e].live
    ensures Inserting(t0, given, e, m0, t0, given, Home(given.hash, |t0|), false, 0, m0)
  {
  }

  /** `insert_item`: returns the slot the item went to, and the new bound on
      the probe lengths. */
  method InsertItem(cell: array<Item>, c: nat, table: array<Item>, maxProbeLen: nat) returns (target: nat, newMax: nat)
    requires cell != table && c < cell.Length && cell[c].live
    requires RobinHood(table[..]) && HasEmptySlot(table[..]) && ProbesWithin(table[..], maxProbeLen)
    modifies cell, table
    ensures RobinHood(table[..]) && NoShorter(old(table[..]), table[..]) && Raised(table[..], maxProbeLen, newMax)
    ensures Entries(table[..]) == old(Entries(table[..])) + multiset{EntryOf(old(cell[c]))}
    ensures target < table.Length && table[target].live && EntryOf(table[target]) == EntryOf(old(cell[c]))
    ensures forall i :: 0 <= i < cell.Length && i != c ==> cell[i] == old(cell[i])
  {
    var n := table.Length;
    var idx: nat := Home(cell[c].hash, n);
    ghost var given, t0 := cell[c], table[..];
    ghost var e: nat :| e < n && !t0[e].live;
    var placed := false;
    target, newMax := 0, maxProbeLen;
    InsertingStarts(t0, given, e, maxProbeLen);
    while table[idx].live
      invariant idx < n && e < n
      invariant Inserting(t0, given, e, maxProbeLen, table[..], cell[c], idx, placed, target, newMax)
      invariant forall i :: 0 <= i < cell.Length && i != c ==> cell[i] == old(cell[i])
      decreases Distance(idx, e, n)
    {
      ghost var t, x := table[..], cell[c];
      var newProbeLen := Distance(Home(cell[c].hash, n), idx, n);
      if table[idx].probeLen < newProbeLen {
        EvictRaises(t0, given, e, maxProbeLen, t, x, idx, placed, target, newMax);
        Exchange(cell, c, table, idx, newProbeLen);
        target, placed := if placed then target else idx, true;
        newMax := Larger(newMax, newProbeLen);
      } else {
        PassOverRaises(t0, given, e, maxProbeLen, t, x, idx, placed, target, newMax);
      }
      idx := Next(idx, n);
    }
    SettleRaises(t0, given, e, maxProbeLen, table[..], cell[c], idx, placed, target, newMax);
    var probeLen := Distance(Home(cell[c].hash, n), idx, n);
    Store(table, idx, cell[c].(probeLen := probeLen));
    target, newMax := if placed then target else idx, Larger(newMax, probeLen);
    assert Inserted(t0, given, maxProbeLen, table[..], target, newMax);
  }
}
