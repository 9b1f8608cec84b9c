/** What a caller sees of a hash table: a finite map, looked up by what a key
    pointer stands for rather than by the pointer itself. */
module Bindings {
  import opened Words
  import opened Slots

  /** What a key pointer stands for: a string's characters, an ID's number. */
  type Identity = nat

  /** The table's two key callbacks. Two keys match when they stand for the
      same thing, and the hash depends on nothing else. Every equivalence that
      the hash respects has this form. `mixed` is what `calc_hash` makes of the
      hash callback's result. */
  datatype Callbacks = Callbacks(identity: Ptr -> Identity, mixed: Identity -> Uint32) {
    predicate Match(a: Ptr, b: Ptr) {
      identity(a) == identity(b)
    }

    function CalcHash(key: Ptr): Uint32 {
      mixed(identity(key))
    }
  }

  /** A binding keeps the key pointer it was made with, beside the value. */
  type Binding = (Ptr, Ptr)
  type Contents = map<Identity, Binding>

  /** `e` is the entry that the binding of its key makes. */
  ghost predicate IsBound(m: Contents, e: Entry, cb: Callbacks) {
    var k := cb.identity(e.key);
    k in m && m[k] == (e.key, e.value) && e.hash == cb.CalcHash(e.key)
  }

  /** The stored entries are those of `m`'s bindings, each stored once; in
      particular no two of them match. */
  ghost predicate Represents(m: Contents, entries: multiset<Entry>, cb: Callbacks) {
    && (forall e :: entries[e] == if IsBound(m, e, cb) then 1 else 0)
    && (forall k :: k in m ==> cb.identity(m[k].0) == k)
  }

  /** A multiset of entries is represented by one map at most. */
  lemma RepresentsOne(m: Contents, m': Contents, entries: multiset<Entry>, cb: Callbacks)
    requires Represents(m, entries, cb) && Represents(m', entries, cb)
    ensures m == m'
  {
    SameBindings(m, m', entries, cb);
    SameBindings(m', m, entries, cb);
  }

  lemma SameBindings(m: Contents, m': Contents, entries: multiset<Entry>, cb: Callbacks)
    requires Represents(m, entries, cb) && Represents(m', entries, cb)
    ensures forall k :: k in m ==> k in m' && m'[k] == m[k]
  {
    forall k | k in m
      ensures k in m' && m'[k] == m[k]
    {
      var e := Entry(m[k].0, m[k].1, cb.CalcHash(m[k].0));
      assert IsBound(m, e, cb) && entries[e] == 1;
    }
  }

  /** Adding an entry whose key matches no stored key. */
  lemma AddRepresents(m: Contents, entries: multiset<Entry>, x: Entry, cb: Callbacks)
    requires Represents(m, entries, cb)
    requires cb.identity(x.key) !in m && x.hash == cb.CalcHash(x.key)
    ensures Represents(m[cb.identity(x.key) := (x.key, x.value)], entries + multiset{x}, cb)
  {
    var m' := m[cb.identity(x.key) := (x.key, x.value)];
    forall e
      ensures (entries + multiset{x})[e] == if IsBound(m', e, cb) then 1 else 0
    {
      assert entries[e] == if IsBound(m, e, cb) then 1 else 0;
    }
  }

  /** Dropping a stored entry. */
  lemma DropRepresents(m: Contents, entries: multiset<Entry>, d: Entry, cb: Callbacks)
    requires d in entries && Represents(m, entries, cb)
    ensures Represents(m - {cb.identity(d.key)}, entries - multiset{d}, cb)
    ensures cb.identity(d.key) in m && m[cb.identity(d.key)] == (d.key, d.value)
  {
    var m' := m - {cb.identity(d.key)};
    assert IsBound(m, d, cb);
    forall e
      ensures (entries - multiset{d})[e] == if IsBound(m', e, cb) then 1 else 0
    {
      assert entries[e] == if IsBound(m, e, cb) then 1 else 0;
    }
  }

  lemma PickEntry(m: Contents, entries: multiset<Entry>, cb: Callbacks) returns (d: Entry)
    requires Represents(m, entries, cb) && |entries| > 0
    ensures d in entries && |m - {cb.identity(d.key)}| == |m| - 1
  {
    d :| d in entries;
    assert IsBound(m, d, cb);
    var k := cb.identity(d.key);
    assert m.Keys == (m - {k}).Keys + {k};
  }

  lemma NoEntries(m: Contents, entries: multiset<Entry>, cb: Callbacks)
    requires Represents(m, entries, cb) && |entries| == 0
    ensures m == map[]
  {
    SameBindings(m, m, entries, cb);
    forall k | k in m
      ensures false
    {
      var e := Entry(m[k].0, m[k].1, cb.CalcHash(m[k].0));
      assert IsBound(m, e, cb);
    }
  }

  /** The entries and their map have the same size. */
  lemma {:induction false} RepresentsSize(m: Contents, entries: multiset<Entry>, cb: Callbacks)
    requires Represents(m, entries, cb)
    ensures |m| == |entries|
    decreases |entries|
  {
    if |entries| == 0 {
      NoEntries(m, entries, cb);
    } else {
      var d := PickEntry(m, entries, cb);
      DropRepresents(m, entries, d, cb);
      RepresentsSize(m - {cb.identity(d.key)}, entries - multiset{d}, cb);
    }
  }

  // ----- the order in which the slots are visited -----

  function PairOfSlot(it: Item): seq<Binding> {
    if it.live then [(it.key, it.value)] else []
  }

  /** The live slots' pairs, in slot order. */
  function LivePairs(t: seq<Item>): seq<Binding> {
    if t == [] then [] else LivePairs(t[..|t| - 1]) + PairOfSlot(t[|t| - 1])
  }

  /** `pairs` lists every binding of `m` exactly once. */
  ghost predicate Enumerates(pairs: seq<Binding>, m: Contents, cb: Callbacks) {
    && (forall i, j :: 0 <= i < j < |pairs| ==> !cb.Match(pairs[i].0, pairs[j].0))
    && (forall i :: 0 <= i < |pairs| ==> cb.identity(pairs[i].0) in m && m[cb.identity(pairs[i].0)] == pairs[i])
    && (forall k :: k in m ==> m[k] in pairs)
  }

  lemma {:induction false} LivePairsCount(t: seq<Item>)
    ensures |LivePairs(t)| == |Entries(t)|
  {
    if t != [] {
      LivePairsCount(t[..|t| - 1]);
    }
  }

  lemma LivePairsStep(t: seq<Item>, i: nat)
    requires i < |t|
    ensures LivePairs(t[..i + 1]) == LivePairs(t[..i]) + PairOfSlot(t[i])
    ensures LivePairs(t[..i + 1]) <= LivePairs(t)
  {
    assert t[..i + 1][..i] == t[..i];
    LivePairsPrefix(t, i + 1);
  }

  lemma {:induction false} LivePairsPrefix(t: seq<Item>, i: nat)
    requires i <= |t|
    ensures LivePairs(t[..i]) <= LivePairs(t)
  {
    if i == |t| {
      assert t[..i] == t;
    } else {
      LivePairsPrefix(t[..|t| - 1], i);
      assert t[..|t| - 1][..i] == t[..i];
    }
  }

  lemma EnumerateOneMore(pairs: seq<Binding>, m: Contents, pair: Binding, cb: Callbacks)
    requires cb.identity(pair.0) in m && m[cb.identity(pair.0)] == pair
    requires Enumerates(pairs, m - {cb.identity(pair.0)}, cb)
    ensures Enumerates(pairs + [pair], m, cb)
  {
    var all, rest := pairs + [pair], m - {cb.identity(pair.0)};
    forall k | k in m
      ensures m[k] in all
    {
      assert all[|pairs|] == pair;
      assert k in rest ==> rest[k] in pairs;
    }
  }

  lemma EntriesWithoutLast(t: seq<Item>)
    requires t != []
    ensures !t[|t| - 1].live ==> Entries(t[..|t| - 1]) == Entries(t)
    ensures t[|t| - 1].live ==> Entries(t[..|t| - 1]) == Entries(t) - multiset{EntryOf(t[|t| - 1])}
    ensures t[|t| - 1].live ==> EntryOf(t[|t| - 1]) in Entries(t)
  {
  }

  lemma {:induction false} LivePairsEnumerate(t: seq<Item>, m: Contents, cb: Callbacks)
    requires Represents(m, Entries(t), cb)
    ensures Enumerates(LivePairs(t), m, cb)
  {
    if t != [] {
      var last, front := t[|t| - 1], t[..|t| - 1];
      EntriesWithoutLast(t);
      if last.live {
        DropRepresents(m, Entries(t), EntryOf(last), cb);
        LivePairsEnumerate(front, m - {cb.identity(last.key)}, cb);
        EnumerateOneMore(LivePairs(front), m, (last.key, last.value), cb);
      } else {
        LivePairsEnumerate(front, m, cb);
      }
    } else {
      NoEntries(m, Entries(t), cb);
    }
  }
}
