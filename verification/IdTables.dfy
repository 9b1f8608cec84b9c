/** Tables keyed by 32-bit IDs, which is how SDL stores its objects: the bit
    mixer spreads consecutive IDs without a single collision. */
module IdTables {
  import opened Words
  import opened Arithmetic
  import opened Bits
  import opened Slots
  import opened Bindings
  import opened HistoryIndependence
  import opened HashTables

  const BIT_MIXER: Uint32 := 0x9E37_79B1
  const INVERSE: Uint32 := 0x0E8B_2F51

  /** `SDL_HashID`, mixed by `calc_hash`. */
  function MixId(id: nat): Uint32 {
    ((id % 0x1_0000_0000) * BIT_MIXER) % 0x1_0000_0000
  }

  /** The callbacks of a table made with `SDL_HashID` and `SDL_KeyMatchID`. */
  ghost predicate IdCallbacks(cb: Callbacks) {
    (forall key :: cb.identity(key) == key) && (forall id :: cb.mixed(id) == MixId(id))
  }

  /** A remainder by a multiple of `n` keeps the remainder by `n`. */
  lemma RemainderOfRemainder(a: nat, n: nat, c: nat)
    requires n > 0 && c > 0
    ensures (a % (n * c)) % n == a % n
  {
    var q, r := a / (n * c), a % (n * c);
    assert a == (n * c) * q + r;
    Associate(n, c, q);
    var q', r' := r / n, r % n;
    assert r == n * q' + r';
    Distribute(n, c * q, -q');
    RemainderIsUnique(a, n, c * q + q', r');
  }

  /** Multiplying by the odd mixer can be undone modulo every power of two. */
  lemma MixerIsInvertible(x: int, n: nat, c: nat)
    requires n > 0 && n * c == 0x1_0000_0000
    ensures (BIT_MIXER * x) % n == 0 <==> x % n == 0
  {
    if (BIT_MIXER * x) % n == 0 {
      MixerUndone(x, n, c);
    }
    if x % n == 0 {
      assert x == n * (x / n);
      Associate(n, x / n, BIT_MIXER);
      RemainderIsUnique(BIT_MIXER * x, n, (x / n) * BIT_MIXER, 0);
    }
  }

  lemma MixerUndone(x: int, n: nat, c: nat)
    requires n > 0 && n * c == 0x1_0000_0000 && (BIT_MIXER * x) % n == 0
    ensures x % n == 0
  {
    var q := (BIT_MIXER * x) / n;
    assert BIT_MIXER * x == n * q;
    var high := 150801925;
    assert INVERSE * BIT_MIXER == 1 + (n * c) * high;
    calc {
      x;
      (INVERSE * BIT_MIXER) * x - ((n * c) * high) * x;
      { Associate(INVERSE, BIT_MIXER, x); Associate(n * c, high, x); Associate(n, c, high * x); }
      INVERSE * (n * q) - n * (c * (high * x));
      { Associate(n, q, INVERSE); Distribute(n, q * INVERSE, c * (high * x)); }
      n * (q * INVERSE - c * (high * x));
    }
    RemainderIsUnique(x, n, q * INVERSE - c * (high * x), 0);
  }

  lemma DifferenceRemainder(a: int, b: int, n: nat, p: int, q: int, r: nat, s: nat)
    requires a == n * p + r && b == n * q + s && r < n && s < n
    ensures (a - b) % n == if r >= s then r - s else n + r - s
  {
    Distribute(n, p, q);
    if r >= s {
      RemainderIsUnique(a - b, n, p - q, r - s);
    } else {
      Distribute(n, p - q, 1);
      RemainderIsUnique(a - b, n, p - q - 1, n + r - s);
    }
  }

  lemma SameRemainder(a: int, b: int, n: nat)
    requires n > 0
    ensures a % n == b % n <==> (a - b) % n == 0
  {
    DifferenceRemainder(a, b, n, a / n, b / n, a % n, b % n);
  }

  /** Two IDs share a home slot exactly when they agree modulo the capacity. */
  lemma HomesOfIds(a: nat, b: nat, n: nat, c: nat)
    requires n > 0 && n * c == 0x1_0000_0000
    ensures Home(MixId(a), n) == Home(MixId(b), n) <==> a % n == b % n
  {
    HomeOfId(a, n, c);
    HomeOfId(b, n, c);
    SameRemainder(BIT_MIXER * a, BIT_MIXER * b, n);
    SameRemainder(a, b, n);
    Distribute(BIT_MIXER, a, b);
    MixerIsInvertible(a - b, n, c);
  }

  lemma HomeOfId(a: nat, n: nat, c: nat)
    requires n > 0 && n * c == 0x1_0000_0000
    ensures Home(MixId(a), n) == (BIT_MIXER * a) % n
  {
    var w := 0x1_0000_0000;
    var low := a % w;
    RemainderOfRemainder(low * BIT_MIXER, n, c);
    var q := a / w;
    assert a == w * q + low;
    Associate(n, c, q);
    Distribute(BIT_MIXER, low, -(w * q));
    Associate(n, c * q, BIT_MIXER);
    SameRemainder(BIT_MIXER * a, BIT_MIXER * low, n);
    assert BIT_MIXER * a - BIT_MIXER * low == n * ((c * q) * BIT_MIXER);
    RemainderIsUnique(BIT_MIXER * a - BIT_MIXER * low, n, (c * q) * BIT_MIXER, 0);
  }

  lemma CapacityDividesWord(n: nat) returns (c: nat)
    requires IsCapacity(n)
    ensures n * c == 0x1_0000_0000
  {
    var k: nat :| k <= 26 && n == Pow2(k);
    c := Pow2(32 - k);
    Pow2Adds(k, 32 - k);
    ThirtyTwoBits();
    assert Pow2(5) == 32;
  }

  /** In every table of IDs that are pairwise different modulo the capacity,
      every item is in its home slot: each lookup takes one probe. */
  lemma OneProbe(h: HashTable)
    requires h.Valid() && IdCallbacks(h.cb)
    requires forall a, b :: a in h.contents && b in h.contents && a != b ==> a % h.table.Length != b % h.table.Length
    ensures forall i :: 0 <= i < h.table.Length && h.table[i].live ==> h.table[i].probeLen == 0
  {
    var t := h.table[..];
    var c := CapacityDividesWord(|t|);
    h.ValidLeavesEmptySlot();
    var e: nat :| e < |t| && !t[e].live;
    forall i, j | 0 <= i < j < |t| && t[i].live && t[j].live
      ensures Home(t[i].hash, |t|) != Home(t[j].hash, |t|)
    {
      SlotIsBound(h, i);
      SlotIsBound(h, j);
      LiveSlotsDiffer(h, i, j);
      HomesOfIds(t[i].key, t[j].key, |t|, c);
    }
    forall i | 0 <= i < |t| && t[i].live
      ensures t[i].probeLen == 0
    {
      NobodyIsAway(t, e, i);
    }
  }

  lemma SlotIsBound(h: HashTable, i: nat)
    requires h.Valid() && IdCallbacks(h.cb) && i < h.table.Length && h.table[i].live
    ensures h.table[i].key in h.contents && h.table[i].hash == MixId(h.table[i].key)
  {
    EntryInSlot(h.table[..], i);
    assert IsBound(h.contents, EntryOf(h.table[i]), h.cb);
  }

  lemma LiveSlotsDiffer(h: HashTable, i: nat, j: nat)
    requires h.Valid() && IdCallbacks(h.cb) && i < j < h.table.Length && h.table[i].live && h.table[j].live
    ensures h.table[i].key != h.table[j].key
  {
    LivePairsEnumerate(h.table[..], h.contents, h.cb);
    LivePairsOrder(h.table[..], i, j);
  }

  lemma {:induction false} LivePairsOrder(t: seq<Item>, i: nat, j: nat)
    requires i < j < |t| && t[i].live && t[j].live
    ensures exists p, q :: 0 <= p < q < |LivePairs(t)| && LivePairs(t)[p].0 == t[i].key && LivePairs(t)[q].0 == t[j].key
  {
    var a, b := |LivePairs(t[..i])|, |LivePairs(t[..j])|;
    LivePairsStep(t, i);
    LivePairsStep(t, j);
    LivePairsPrefix(t[..j], i + 1);
    assert t[..j][..i + 1] == t[..i + 1];
    assert LivePairs(t)[a].0 == t[i].key;
    assert LivePairs(t)[b].0 == t[j].key;
  }

  /** So it is for any run of IDs no longer than the capacity. */
  lemma ConsecutiveIds(h: HashTable, first: nat)
    requires h.Valid() && IdCallbacks(h.cb)
    requires forall id :: id in h.contents ==> first <= id < first + h.table.Length
    ensures forall i :: 0 <= i < h.table.Length && h.table[i].live ==> h.table[i].probeLen == 0
  {
    var n := h.table.Length;
    forall a, b | a in h.contents && b in h.contents && a != b
      ensures a % n != b % n
    {
      SameRemainder(a, b, n);
      if a > b {
        RemainderIsUnique(a - b, n, 0, a - b);
      } else {
        RemainderIsUnique(a - b, n, -1, n + a - b);
      }
    }
    OneProbe(h);
  }
}
