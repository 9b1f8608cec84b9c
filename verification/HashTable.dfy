/** SDL_hashtable.c: the open-addressing table itself, changed in place. */
module HashTables {
  import opened Words
  import opened Bits
  import opened Slots
  import opened Bindings
  import opened Lookup
  import opened Insertion

  /** The number of items above which the table grows. */
  function Threshold(capacity: nat): nat {
    (217 * capacity) / 256
  }

  /** The remainders that `Home` and `Next` take are the source's masks. */
  lemma MasksAreRemainders(hash: Uint32, i: nat, k: nat)
    requires i < Pow2(k)
    ensures And(hash, Pow2(k) - 1) == Home(hash, Pow2(k))
    ensures And(i + 1, Pow2(k) - 1) == Next(i, Pow2(k))
  {
    MaskIsRemainder(hash, k);
    MaskIsRemainder(i + 1, k);
  }

  /** A capacity below the limit may be doubled; none exceeds the limit. */
  lemma CapacityDoubles(n: nat)
    requires IsCapacity(n)
    ensures 0 < n <= MAX_HASHTABLE_SIZE
    ensures n < MAX_HASHTABLE_SIZE ==> IsCapacity(2 * n)
  {
    MaxIsCapacity();
    var k: nat :| k <= 26 && n == Pow2(k);
    Pow2Monotone(k, 26);
    if k < 26 {
      assert Pow2(k + 1) == 2 * n;
    }
  }

  /** The threshold leaves an empty slot, and one item over the threshold is
      within the threshold of the doubled table. */
  lemma LoadLeavesRoom(n: nat)
    requires n > 0
    ensures Threshold(n) < n
    ensures Threshold(n) + 1 <= Threshold(2 * n)
  {
  }

  /** The slots `t` are in Robin Hood order and hold exactly the bindings `m`. */
  ghost predicate Stores(t: seq<Item>, m: Contents, cb: Callbacks) {
    RobinHood(t) && Represents(m, Entries(t), cb)
  }

  lemma StoresHashes(t: seq<Item>, m: Contents, cb: Callbacks)
    requires Stores(t, m, cb)
    ensures HashesAgree(t, cb)
  {
    forall j | 0 <= j < |t| && t[j].live
      ensures t[j].hash == cb.CalcHash(t[j].key)
    {
      EntryInSlot(t, j);
      assert IsBound(m, EntryOf(t[j]), cb);
    }
  }

  lemma StoresInserted(t: seq<Item>, u: seq<Item>, m: Contents, x: Entry, cb: Callbacks)
    requires Stores(t, m, cb) && RobinHood(u) && Entries(u) == Entries(t) + multiset{x}
    requires cb.identity(x.key) !in m && x.hash == cb.CalcHash(x.key)
    ensures Stores(u, m[cb.identity(x.key) := (x.key, x.value)], cb)
  {
    AddRepresents(m, Entries(t), x, cb);
  }

  lemma StoresRemoved(t: seq<Item>, u: seq<Item>, m: Contents, i: nat, cb: Callbacks)
    requires Stores(t, m, cb) && RobinHood(u) && i < |t| && t[i].live
    requires Entries(u) == Entries(t) - multiset{EntryOf(t[i])}
    ensures Stores(u, m - {cb.identity(t[i].key)}, cb)
    ensures |Entries(u)| == |Entries(t)| - 1
  {
    EntryInSlot(t, i);
    DropRepresents(m, Entries(t), EntryOf(t[i]), cb);
  }

  lemma StoresHit(t: seq<Item>, m: Contents, i: nat, key: Ptr, cb: Callbacks)
    requires Stores(t, m, cb) && i < |t| && t[i].live && cb.Match(t[i].key, key)
    ensures cb.identity(key) in m && m[cb.identity(key)] == (t[i].key, t[i].value)
  {
    EntryInSlot(t, i);
    assert IsBound(m, EntryOf(t[i]), cb);
  }

  lemma StoresMiss(t: seq<Item>, m: Contents, key: Ptr, cb: Callbacks)
    requires Stores(t, m, cb)
    requires forall j :: 0 <= j < |t| ==> NotAt(t, cb, key, j)
    ensures cb.identity(key) !in m
  {
    forall e | e in Entries(t)
      ensures !cb.Match(e.key, key)
    {
      EntriesMember(t, e);
      var j :| 0 <= j < |t| && t[j].live && EntryOf(t[j]) == e;
      assert NotAt(t, cb, key, j);
    }
    if cb.identity(key) in m {
      var b := m[cb.identity(key)];
      assert IsBound(m, Entry(b.0, b.1, cb.CalcHash(b.0)), cb);
    }
  }

  /** What holds of the table between two calls. */
  ghost predicate Consistent(t: seq<Item>, maxProbeLen: nat, occupied: nat, m: Contents, cb: Callbacks) {
    && IsCapacity(|t|)
    && ProbesWithin(t, maxProbeLen)
    && occupied == |Entries(t)| <= Threshold(|t|)
    && Stores(t, m, cb)
  }

  lemma ConsistentInserted(t: seq<Item>, u: seq<Item>, maxProbeLen: nat, m: Contents, x: Entry, cb: Callbacks)
    requires IsCapacity(|t|) && |u| == |t| && |Entries(t)| + 1 <= Threshold(|t|)
    requires Stores(t, m, cb) && cb.identity(x.key) !in m && x.hash == cb.CalcHash(x.key)
    requires RobinHood(u) && ProbesWithin(u, maxProbeLen) && Entries(u) == Entries(t) + multiset{x}
    ensures Consistent(u, maxProbeLen, |Entries(t)| + 1, m[cb.identity(x.key) := (x.key, x.value)], cb)
  {
    StoresInserted(t, u, m, x, cb);
  }

  lemma LiveSlotCounts(t: seq<Item>, i: nat)
    requires i < |t| && t[i].live
    ensures |Entries(t)| > 0
  {
    EntryInSlot(t, i);
  }

  lemma ConsistentRemoved(t: seq<Item>, u: seq<Item>, maxProbeLen: nat, occupied: nat, m: Contents, i: nat, cb: Callbacks)
    requires Consistent(t, maxProbeLen, occupied + 1, m, cb) && i < |t| == |u| && t[i].live
    requires RobinHood(u) && ProbesWithin(u, maxProbeLen) && Entries(u) == Entries(t) - multiset{EntryOf(t[i])}
    ensures Consistent(u, maxProbeLen, occupied, m - {cb.identity(t[i].key)}, cb)
  {
    StoresRemoved(t, u, m, i, cb);
  }

  lemma {:induction false} AllDead(t: seq<Item>)
    requires forall i :: 0 <= i < |t| ==> t[i] == ZERO_ITEM
    ensures Entries(t) == multiset{}
    ensures |t| > 0 ==> RobinHood(t)
  {
    EntriesBound(t);
  }

  lemma ReachedAgain(t: seq<Item>, u: seq<Item>, m0: nat, m: nat)
    requires NoShorter(t, u) && Raised(u, m0, m) && ProbeReached(t, m0)
    ensures ProbeReached(u, m)
  {
    if m == m0 > 0 {
      var i :| 0 <= i < |t| && t[i].probeLen == m0;
      assert u[i].probeLen == m0;
    }
  }

  /** What the copying loop knows after `i` slots of the old table `was`. */
  ghost predicate Rehashed(was: seq<Item>, i: nat, t: seq<Item>, maxProbeLen: nat) {
    && i <= |was| && RobinHood(t) && Entries(t) == Entries(was[..i])
    && ProbesWithin(t, maxProbeLen) && ProbeReached(t, maxProbeLen)
  }

  lemma RehashedRoom(was: seq<Item>, i: nat, t: seq<Item>, maxProbeLen: nat)
    requires Rehashed(was, i, t, maxProbeLen) && |was| < |t|
    ensures HasEmptySlot(t)
  {
    EntriesBound(was[..i]);
    EntriesBound(t);
  }

  lemma EntriesNext(was: seq<Item>, i: nat)
    requires i < |was|
    ensures Entries(was[..i + 1]) == Entries(was[..i]) + EntriesOfSlot(was[i])
  {
    assert was[..i + 1][..i] == was[..i];
  }

  /** One slot of the copying loop; inserting its item may overwrite it. */
  method RehashSlot(oldTable: array<Item>, newTable: array<Item>, i: nat, m0: nat, ghost was: seq<Item>)
    returns (m: nat)
    requires oldTable != newTable && oldTable.Length == |was| < newTable.Length && i < |was|
    requires oldTable[i] == was[i] && Rehashed(was, i, newTable[..], m0)
    modifies oldTable, newTable
    ensures Rehashed(was, i + 1, newTable[..], m)
    ensures forall j :: i < j < oldTable.Length ==> oldTable[j] == old(oldTable[j])
  {
    ghost var before := newTable[..];
    EntriesNext(was, i);
    m := m0;
    if oldTable[i].live {
      RehashedRoom(was, i, before, m0);
      var target;
      target, m := InsertItem(oldTable, i, newTable, m0);
      ReachedAgain(before, newTable[..], m0, m);
    }
  }

  /** The copying loop of `resize`. Each insertion may overwrite the old slot
      it reads from, and no other old slot. */
  method Rehash(oldTable: array<Item>, newTable: array<Item>) returns (maxProbeLen: nat)
    requires oldTable != newTable && oldTable.Length < newTable.Length
    requires forall i :: 0 <= i < newTable.Length ==> newTable[i] == ZERO_ITEM
    modifies oldTable, newTable
    ensures RobinHood(newTable[..]) && Entries(newTable[..]) == old(Entries(oldTable[..]))
    ensures ProbesWithin(newTable[..], maxProbeLen) && ProbeReached(newTable[..], maxProbeLen)
  {
    ghost var was := oldTable[..];
    AllDead(newTable[..]);
    maxProbeLen := 0;
    var i := 0;
    while i < oldTable.Length
      invariant 0 <= i <= oldTable.Length == |was|
      invariant Rehashed(was, i, newTable[..], maxProbeLen)
      invariant forall j :: i <= j < oldTable.Length ==> oldTable[j] == was[j]
    {
      maxProbeLen := RehashSlot(oldTable, newTable, i, maxProbeLen, was);
      i := i + 1;
    }
    assert was[..i] == was;
  }

  lemma DropThenAdd(m: Contents, k: Identity, b: Binding)
    ensures (m - {k})[k := b] == m[k := b]
  {
  }

  lemma DropAbsent(m: Contents, k: Identity)
    ensures k !in m ==> m - {k} == m
  {
  }

  /** The callback has been shown `visited`, pair by pair, and has not stopped. */
  ghost predicate AskedForMore(proceed: seq<Binding> -> bool, visited: seq<Binding>) {
    forall j :: 0 < j <= |visited| ==> proceed(visited[..j])
  }

  lemma ShownOneMore(proceed: seq<Binding> -> bool, visited: seq<Binding>, pair: Binding)
    requires AskedForMore(proceed, visited)
    requires forall j :: 0 <= j < |visited| ==> AskedForMore(proceed, visited[..j])
    ensures var more := visited + [pair];
            && (forall j :: 0 <= j < |more| ==> AskedForMore(proceed, more[..j]))
            && (AskedForMore(proceed, more) <==> proceed(more))
  {
    var more := visited + [pair];
    assert more[..|more|] == more && more[..|visited|] == visited;
    forall j | 0 <= j <= |visited|
      ensures more[..j] == visited[..j]
    {
    }
    forall j | 0 <= j < |more|
      ensures AskedForMore(proceed, more[..j])
    {
      if j == |visited| {
        assert more[..j] == visited;
      } else {
        assert more[..j] == visited[..j];
      }
    }
  }

  class HashTable {
    const cb: Callbacks
    const hasDestroy: bool
    var table: array<Item>
    var maxProbeLen: nat
    var occupied: nat
    ghost var contents: Contents          // the bindings the slots hold
    ghost var destroyed: seq<Binding>     // the destroy callback's calls, in order

    ghost predicate Valid()
      reads this, table
    {
      Consistent(table[..], maxProbeLen, occupied, contents, cb)
    }

    /** On every run: a slot is empty, so every probing loop ends. */
    lemma ValidLeavesEmptySlot()
      requires Valid()
      ensures HasEmptySlot(table[..]) && occupied < table.Length
    {
      CapacityDoubles(table.Length);
      LoadLeavesRoom(table.Length);
      EntriesBound(table[..]);
    }

    lemma ValidCounts()
      requires Valid()
      ensures occupied == |contents|
    {
      RepresentsSize(contents, Entries(table[..]), cb);
    }

    /** `SDL_CreateHashTable`, once its allocations have succeeded. */
    constructor (estimatedCapacity: int, cb: Callbacks, hasDestroy: bool)
      requires -0x8000_0000 <= estimatedCapacity < 0x8000_0000
      ensures Valid() && fresh(table)
      ensures estimatedCapacity <= table.Length || table.Length == MAX_HASHTABLE_SIZE
      ensures estimatedCapacity <= 0 ==> table.Length == 4
      ensures estimatedCapacity > 0 ==> table.Length < 2 * estimatedCapacity
      ensures contents == map[] && destroyed == []
      ensures this.cb == cb && this.hasDestroy == hasDestroy
    {
      var buckets := CalculateHashBucketsFromEstimate(estimatedCapacity);
      CapacityDoubles(buckets);
      var slots := new Item[buckets](_ => ZERO_ITEM);
      AllDead(slots[..]);
      this.cb, this.hasDestroy := cb, hasDestroy;
      table := slots;
      maxProbeLen, occupied := 0, 0;
      contents, destroyed := map[], [];
    }

    method Find(key: Ptr, hash: Uint32) returns (slot: int)
      requires Valid() && hash == cb.CalcHash(key)
      ensures -1 <= slot < table.Length
      ensures slot >= 0 <==> cb.identity(key) in contents
      ensures slot >= 0 ==>
                table[slot].live && contents[cb.identity(key)] == (table[slot].key, table[slot].value)
    {
      ValidLeavesEmptySlot();
      StoresHashes(table[..], contents, cb);
      slot := FindItem(cb, table, maxProbeLen, key, hash);
      if slot >= 0 {
        StoresHit(table[..], contents, slot, key, cb);
      } else {
        StoresMiss(table[..], contents, key, cb);
      }
    }

    /** `delete_item`. */
    method DeleteItem(slot: nat)
      requires Valid() && slot < table.Length && table[slot].live
      modifies this`occupied, this`contents, this`destroyed, table
      ensures Valid()
      ensures contents == old(contents) - {cb.identity(old(table[slot].key))}
      ensures destroyed == old(destroyed) + if hasDestroy then [(old(table[slot].key), old(table[slot].value))] else []
      ensures occupied == old(occupied) - 1
    {
      ghost var t, m := table[..], contents;
      ValidLeavesEmptySlot();
      LiveSlotCounts(t, slot);
      if hasDestroy {
        destroyed := destroyed + [(table[slot].key, table[slot].value)];
      }
      occupied := occupied - 1;
      contents := contents - {cb.identity(table[slot].key)};
      ShiftBack(table, slot, maxProbeLen);
      ConsistentRemoved(t, table[..], maxProbeLen, occupied, m, slot, cb);
    }

    /** `resize`; the allocation of the new slots may fail. */
    method Resize(newSize: nat, allocates: bool) returns (ok: bool)
      requires Stores(table[..], contents, cb) && table.Length < newSize
      modifies this`table, this`maxProbeLen, table
      ensures ok == allocates
      ensures !ok ==> table == old(table) && table[..] == old(table[..]) && maxProbeLen == old(maxProbeLen)
      ensures ok ==>
                && fresh(table) && table.Length == newSize
                && Stores(table[..], contents, cb) && Entries(table[..]) == old(Entries(table[..]))
                && ProbesWithin(table[..], maxProbeLen) && ProbeReached(table[..], maxProbeLen)
    {
      if !allocates {
        return false;
      }
      var newTable := new Item[newSize](_ => ZERO_ITEM);
      maxProbeLen := Rehash(table, newTable);
      table := newTable;
      return true;
    }

    /** Whether `maybe_resize` has to grow the table before one more item goes in. */
    predicate MustGrow(count: nat): (grow: bool)
      reads this, table
      ensures grow <==> 256 * count > 217 * table.Length
    {
      count > Threshold(table.Length)
    }

    /** The last lines of `SDL_InsertIntoHashTable`: there is room for the item. */
    method PutItem(key: Ptr, value: Ptr, hash: Uint32)
      requires IsCapacity(table.Length) && ProbesWithin(table[..], maxProbeLen)
      requires occupied == |Entries(table[..])| + 1 <= Threshold(table.Length) && Stores(table[..], contents, cb)
      requires hash == cb.CalcHash(key) && cb.identity(key) !in contents
      modifies this`maxProbeLen, this`contents, table
      ensures Valid() && contents == old(contents)[cb.identity(key) := (key, value)]
    {
      ghost var t := table[..];
      LoadLeavesRoom(table.Length);
      EntriesBound(t);
      var cell := new Item[1](_ => Item(key, value, hash, 0, true));
      var _, m := InsertItem(cell, 0, table, maxProbeLen);
      ConsistentInserted(t, table[..], m, contents, Entry(key, value, hash), cb);
      maxProbeLen := m;
      contents := contents[cb.identity(key) := (key, value)];
    }

    /** `maybe_resize`, after `num_occupied_slots` has been raised: at the
        largest capacity it always fails. */
    method MaybeResize(allocates: bool) returns (ok: bool)
      requires IsCapacity(table.Length) && ProbesWithin(table[..], maxProbeLen)
      requires Stores(table[..], contents, cb)
      requires occupied == |Entries(table[..])| + 1 <= Threshold(table.Length) + 1
      modifies this`table, this`maxProbeLen, table
      ensures ok <==> old(table.Length) < MAX_HASHTABLE_SIZE && (old(MustGrow(occupied)) ==> allocates)
      ensures !ok || !old(MustGrow(occupied)) ==>
                table == old(table) && table[..] == old(table[..]) && maxProbeLen == old(maxProbeLen)
      ensures ok && old(MustGrow(occupied)) ==> fresh(table) && table.Length == 2 * old(table.Length)
      ensures IsCapacity(table.Length) && ProbesWithin(table[..], maxProbeLen)
      ensures Stores(table[..], contents, cb) && Entries(table[..]) == old(Entries(table[..]))
      ensures ok ==> occupied <= Threshold(table.Length)
    {
      CapacityDoubles(table.Length);
      LoadLeavesRoom(table.Length);
      if table.Length >= MAX_HASHTABLE_SIZE {
        return false;
      }
      if MustGrow(occupied) {
        ok := Resize(table.Length * 2, allocates);
      } else {
        ok := true;
      }
    }

    /** The part of `SDL_InsertIntoHashTable` that adds a new key. */
    method AddItem(key: Ptr, value: Ptr, hash: Uint32, allocates: bool) returns (result: bool)
      requires Valid() && hash == cb.CalcHash(key) && cb.identity(key) !in contents
      modifies this`table, this`maxProbeLen, this`occupied, this`contents, table
      ensures Valid() && (table == old(table) || fresh(table))
      ensures result <==> old(table.Length) < MAX_HASHTABLE_SIZE && (old(MustGrow(occupied + 1)) ==> allocates)
      ensures result ==> contents == old(contents)[cb.identity(key) := (key, value)]
      ensures !result ==> contents == old(contents) && table == old(table) && table[..] == old(table[..])
      ensures table.Length == if result && old(MustGrow(occupied + 1)) then 2 * old(table.Length) else old(table.Length)
    {
      occupied := occupied + 1;
      result := MaybeResize(allocates);
      if !result {
        occupied := occupied - 1;
      } else {
        PutItem(key, value, hash);
      }
    }

    /** The first lines of `SDL_InsertIntoHashTable`: drop the key's binding if
        it has one and may be replaced. */
    method MakeWay(key: Ptr, hash: Uint32, replace: bool) returns (absent: bool)
      requires Valid() && hash == cb.CalcHash(key)
      modifies this`occupied, this`contents, this`destroyed, table
      ensures Valid()
      ensures absent <==> replace || old(cb.identity(key) !in contents)
      ensures absent ==> contents == old(contents) - {cb.identity(key)}
      ensures absent ==> destroyed == old(destroyed) + old(Released(key))
      ensures !absent ==> contents == old(contents) && destroyed == old(destroyed)
    {
      var slot := Find(key, hash);
      DropAbsent(contents, cb.identity(key));
      if slot < 0 {
        return true;
      }
      if !replace {
        return false;
      }
      DeleteItem(slot);
      return true;
    }

    /** The destroy callbacks that dropping the key's binding makes. */
    ghost function Released(key: Ptr): seq<Binding>
      reads this
    {
      if hasDestroy && cb.identity(key) in contents then [contents[cb.identity(key)]] else []
    }

    /** `SDL_InsertIntoHashTable`. A key that is present is left alone unless it
        is to be replaced; then its old binding is gone even if the new one
        cannot be added. */
    method Insert(key: Ptr, value: Ptr, replace: bool, allocates: bool) returns (result: bool)
      requires Valid()
      modifies this, table
      ensures Valid() && (table == old(table) || fresh(table))
      ensures !replace && old(cb.identity(key) in contents) ==> !result && contents == old(contents)
      ensures replace || old(cb.identity(key) !in contents) ==>
                (result <==>
                   old(table.Length) < MAX_HASHTABLE_SIZE
                   && (old(MustGrow(|contents - {cb.identity(key)}| + 1)) ==> allocates))
      ensures result ==> contents == old(contents)[cb.identity(key) := (key, value)]
      ensures table.Length == if result && old(MustGrow(|contents - {cb.identity(key)}| + 1))
                              then 2 * old(table.Length) else old(table.Length)
      ensures replace && !result ==> contents == old(contents) - {cb.identity(key)}
      ensures old(cb.identity(key) !in contents) && !result ==> contents == old(contents)
      ensures replace ==> destroyed == old(destroyed) + old(Released(key))
      ensures !replace ==> destroyed == old(destroyed)
    {
      var hash := cb.CalcHash(key);
      var absent := MakeWay(key, hash, replace);
      if !absent {
        return false;
      }
      DropThenAdd(old(contents), cb.identity(key), (key, value));
      ValidCounts();
      result := AddItem(key, value, hash, allocates);
    }

    /** `SDL_FindInHashTable`; on a miss the caller's variable keeps its value. */
    method FindValue(key: Ptr, initial: Ptr) returns (result: bool, value: Ptr)
      requires Valid()
      ensures result <==> cb.identity(key) in contents
      ensures value == if result then contents[cb.identity(key)].1 else initial
    {
      var slot := Find(key, cb.CalcHash(key));
      result, value := false, initial;
      if slot >= 0 {
        result, value := true, table[slot].value;
      }
    }

    /** `SDL_RemoveFromHashTable`. */
    method Remove(key: Ptr) returns (result: bool)
      requires Valid()
      modifies this`occupied, this`contents, this`destroyed, table
      ensures Valid()
      ensures result <==> old(cb.identity(key) in contents)
      ensures contents == old(contents) - {cb.identity(key)}
      ensures destroyed == old(destroyed) + old(Released(key))
    {
      var slot := Find(key, cb.CalcHash(key));
      result := false;
      if slot >= 0 {
        DeleteItem(slot);
        result := true;
      }
    }

    /** `SDL_IterateHashTable`. The callback's answer may depend on all it has
        been shown; the early break never hides a binding from it. */
    method Iterate(proceed: seq<Binding> -> bool) returns (visited: seq<Binding>)
      requires Valid()
      ensures visited <= LivePairs(table[..]) && Enumerates(LivePairs(table[..]), contents, cb)
      ensures AskedForMore(proceed, visited) ==> visited == LivePairs(table[..])
      ensures forall j :: 0 <= j < |visited| ==> AskedForMore(proceed, visited[..j])
    {
      ghost var t := table[..];
      LivePairsEnumerate(t, contents, cb);
      LivePairsCount(t);
      visited := [];
      var numIterated := 0;
      var i := 0;
      while i < table.Length
        invariant 0 <= i <= table.Length && visited == LivePairs(t[..i]) && numIterated == |visited|
        invariant AskedForMore(proceed, visited)
        invariant forall j :: 0 <= j < |visited| ==> AskedForMore(proceed, visited[..j])
      {
        LivePairsStep(t, i);
        if table[i].live {
          ShownOneMore(proceed, visited, (table[i].key, table[i].value));
          visited := visited + [(table[i].key, table[i].value)];
          if !proceed(visited) {
            return;
          }
          numIterated := numIterated + 1;
          if numIterated >= occupied {
            return;
          }
        }
        i := i + 1;
      }
      assert t[..i] == t;
    }

    /** `SDL_HashTableEmpty`. */
    method IsEmpty() returns (empty: bool)
      requires Valid()
      ensures empty <==> contents == map[]
    {
      ValidCounts();
      empty := occupied == 0;
    }

    /** `destroy_all`: the slots are left marked dead, not yet zeroed. */
    method DestroyAll()
      modifies this`destroyed, table
      ensures hasDestroy ==> destroyed == old(destroyed) + LivePairs(old(table[..]))
      ensures !hasDestroy ==> destroyed == old(destroyed) && table[..] == old(table[..])
    {
      if hasDestroy {
        ghost var t := table[..];
        var i := 0;
        while i < table.Length
          invariant 0 <= i <= table.Length && destroyed == old(destroyed) + LivePairs(t[..i])
          invariant forall j :: i <= j < table.Length ==> table[j] == t[j]
        {
          assert t[..i + 1][..i] == t[..i];
          if table[i].live {
            table[i] := table[i].(live := false);
            destroyed := destroyed + [(table[i].key, table[i].value)];
          }
          i := i + 1;
        }
        assert t[..i] == t;
      }
    }

    /** `SDL_ClearHashTable`: every binding is released exactly once; the probe
        length bound stays as it was. */
    method Clear()
      requires Valid()
      modifies this`occupied, this`contents, this`destroyed, table
      ensures Valid() && contents == map[]
      ensures Enumerates(LivePairs(old(table[..])), old(contents), cb)
      ensures destroyed == old(destroyed) + if hasDestroy then LivePairs(old(table[..])) else []
    {
      LivePairsEnumerate(table[..], contents, cb);
      CapacityDoubles(table.Length);
      DestroyAll();
      forall i | 0 <= i < table.Length {
        table[i] := ZERO_ITEM;
      }
      AllDead(table[..]);
      occupied := 0;
      contents := map[];
    }
  }
}
