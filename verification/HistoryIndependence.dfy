/** The layout of a Robin Hood table does not remember how it was built: it is
    determined by how many items call each slot home. */
module HistoryIndependence {
  import opened Words
  import opened Slots
  import opened Bindings
  import opened HashTables

  /** The item in slot `j` sits at or after slot `b`, and passed it when it was
      already `k` or more steps from home. */
  predicate Reaches(t: seq<Item>, k: nat, b: nat, j: nat)
    requires b < |t| && j < |t|
  {
    t[j].live && Distance(b, j, |t|) + k <= t[j].probeLen
  }

  /** How many of the first `m` slots hold such an item. */
  function Reaching(t: seq<Item>, k: nat, b: nat, m: nat): nat
    requires b < |t| && m <= |t|
  {
    if m == 0 then 0 else Reaching(t, k, b, m - 1) + if Reaches(t, k, b, m - 1) then 1 else 0
  }

  /** The home slots of the items in the first `m` slots. */
  function Homes(t: seq<Item>, m: nat): multiset<nat>
    requires m <= |t|
  {
    if m == 0 then multiset{}
    else Homes(t, m - 1) + if t[m - 1].live then multiset{Home(t[m - 1].hash, |t|)} else multiset{}
  }

  function LiveSlots(t: seq<Item>, m: nat): nat
    requires m <= |t|
  {
    if m == 0 then 0 else LiveSlots(t, m - 1) + if t[m - 1].live then 1 else 0
  }

  // ----- one slot on -----

  lemma ReachesNext(t: seq<Item>, k: nat, b: nat, j: nat)
    requires RobinHood(t) && b < |t| && j < |t|
    ensures j != b ==> (Reaches(t, k + 1, Next(b, |t|), j) <==> Reaches(t, k, b, j))
    ensures !Reaches(t, k + 1, Next(b, |t|), b)
    ensures Reaches(t, k, b, b) <==> t[b].live && t[b].probeLen >= k
  {
    assert Slotted(t, j) && Slotted(t, b);
    if j != b {
      NextIsCloser(b, j, |t|);
    }
  }

  lemma {:induction false} ReachingNext(t: seq<Item>, k: nat, b: nat, m: nat)
    requires RobinHood(t) && b < |t| && m <= |t|
    ensures Reaching(t, k, b, m) ==
            Reaching(t, k + 1, Next(b, |t|), m) + if b < m && t[b].live && t[b].probeLen >= k then 1 else 0
  {
    if m > 0 {
      ReachesNext(t, k, b, m - 1);
      ReachingNext(t, k, b, m - 1);
    }
  }

  lemma {:induction false} ReachingWitness(t: seq<Item>, k: nat, b: nat, m: nat)
    requires b < |t| && m <= |t|
    ensures Reaching(t, k, b, m) > 0 <==> exists j :: 0 <= j < m && Reaches(t, k, b, j)
  {
    if m > 0 {
      ReachingWitness(t, k, b, m - 1);
    }
  }

  /** Some item reaches past `b` exactly when the item in `b` itself does. */
  lemma ReachingSlot(t: seq<Item>, k: nat, b: nat)
    requires RobinHood(t) && b < |t|
    ensures Reaching(t, k, b, |t|) > 0 <==> t[b].live && t[b].probeLen >= k
  {
    ReachingWitness(t, k, b, |t|);
    if j :| 0 <= j < |t| && Reaches(t, k, b, j) {
      var d := Distance(b, j, |t|);
      assert Back(j, d, |t|) == b;
      BackChain(t, j, d);
    }
    ReachesNext(t, k, b, b);
  }

  /** The items that reach past `b` are those that did so before `b`, and the
      ones at home in `b`. */
  lemma {:induction false} ReachingHome(t: seq<Item>, b: nat, m: nat)
    requires RobinHood(t) && b < |t| && m <= |t|
    ensures Reaching(t, 0, b, m) == Reaching(t, 1, b, m) + Homes(t, m)[b]
  {
    if m > 0 {
      ReachingHome(t, b, m - 1);
      assert Slotted(t, m - 1);
    }
  }

  /** The count at a slot is a function of the count at the slot before and of
      the number of items at home in it. */
  lemma ReachingRecurrence(t: seq<Item>, b: nat)
    requires RobinHood(t) && b < |t|
    ensures var r := Reaching(t, 0, b, |t|);
            Reaching(t, 0, Next(b, |t|), |t|) == (if r > 0 then r - 1 else 0) + Homes(t, |t|)[Next(b, |t|)]
  {
    ReachingNext(t, 0, b, |t|);
    ReachingSlot(t, 0, b);
    ReachingHome(t, Next(b, |t|), |t|);
  }

  // ----- two tables -----

  ghost predicate SameHomes(t: seq<Item>, u: seq<Item>) {
    |t| == |u| && RobinHood(t) && RobinHood(u) && Homes(t, |t|) == Homes(u, |u|)
  }

  lemma {:induction false} ReachingDominates(t: seq<Item>, u: seq<Item>, b: nat)
    requires SameHomes(t, u) && b < |t|
    requires Reaching(t, 0, 0, |t|) >= Reaching(u, 0, 0, |u|)
    ensures Reaching(t, 0, b, |t|) >= Reaching(u, 0, b, |u|)
  {
    if b > 0 {
      ReachingDominates(t, u, b - 1);
      ReachingRecurrence(t, b - 1);
      ReachingRecurrence(u, b - 1);
    }
  }

  lemma {:induction false} HomesCount(t: seq<Item>, m: nat)
    requires m <= |t|
    ensures |Homes(t, m)| == LiveSlots(t, m)
  {
    if m > 0 {
      HomesCount(t, m - 1);
    }
  }

  lemma {:induction false} MoreLiveSlots(t: seq<Item>, u: seq<Item>, m: nat)
    requires |t| == |u| && m <= |t|
    requires forall i :: 0 <= i < |t| && u[i].live ==> t[i].live
    ensures LiveSlots(t, m) >= LiveSlots(u, m)
    ensures LiveSlots(t, m) == LiveSlots(u, m) ==> forall i :: 0 <= i < m ==> t[i].live == u[i].live
  {
    if m > 0 {
      MoreLiveSlots(t, u, m - 1);
    }
  }

  lemma SameLiveSlots(t: seq<Item>, u: seq<Item>)
    requires SameHomes(t, u)
    requires Reaching(t, 0, 0, |t|) >= Reaching(u, 0, 0, |u|)
    ensures forall i :: 0 <= i < |t| ==> t[i].live == u[i].live
  {
    forall i | 0 <= i < |t| && u[i].live
      ensures t[i].live
    {
      ReachingDominates(t, u, i);
      ReachingSlot(t, 0, i);
      ReachingSlot(u, 0, i);
    }
    HomesCount(t, |t|);
    HomesCount(u, |u|);
    MoreLiveSlots(t, u, |t|);
  }

  /** Equal counts at one slot are equal all the way round. */
  lemma {:induction false} SameReaching(t: seq<Item>, u: seq<Item>, e: nat, b: nat)
    requires SameHomes(t, u) && e < |t| && b < |t|
    requires Reaching(t, 0, e, |t|) == Reaching(u, 0, e, |u|)
    ensures Reaching(t, 0, b, |t|) == Reaching(u, 0, b, |u|)
    decreases Distance(e, b, |t|)
  {
    if b != e {
      var a := Prev(b, |t|);
      assert Distance(e, a, |t|) == Distance(e, b, |t|) - 1;
      SameReaching(t, u, e, a);
      ReachingRecurrence(t, a);
      ReachingRecurrence(u, a);
    }
  }

  lemma {:induction false} SameReachingBy(t: seq<Item>, u: seq<Item>, k: nat, b: nat)
    requires SameHomes(t, u) && b < |t|
    requires forall a: nat :: a < |t| ==> Reaching(t, 0, a, |t|) == Reaching(u, 0, a, |u|)
    ensures Reaching(t, k, b, |t|) == Reaching(u, k, b, |u|)
    decreases k
  {
    if k > 0 {
      var a := Prev(b, |t|);
      SameReachingBy(t, u, k - 1, a);
      ReachingNext(t, k - 1, a, |t|);
      ReachingNext(u, k - 1, a, |u|);
      ReachingSlot(t, k - 1, a);
      ReachingSlot(u, k - 1, a);
    }
  }

  ghost predicate SameLayout(t: seq<Item>, u: seq<Item>) {
    |t| == |u| && forall i :: 0 <= i < |t| ==>
      && t[i].live == u[i].live && t[i].probeLen == u[i].probeLen
      && (t[i].live ==> Home(t[i].hash, |t|) == Home(u[i].hash, |u|))
  }

  /** Any two tables with as many items at home in each slot occupy the same
      slots and hold, slot by slot, items of the same home. */
  lemma LayoutIsDetermined(t: seq<Item>, u: seq<Item>)
    requires SameHomes(t, u) && HasEmptySlot(t)
    ensures SameLayout(t, u)
  {
    if Reaching(t, 0, 0, |t|) >= Reaching(u, 0, 0, |u|) {
      SameLiveSlots(t, u);
    } else {
      SameLiveSlots(u, t);
    }
    var e: nat :| e < |t| && !t[e].live;
    ReachingSlot(t, 0, e);
    ReachingSlot(u, 0, e);
    forall a: nat | a < |t|
      ensures Reaching(t, 0, a, |t|) == Reaching(u, 0, a, |u|)
    {
      SameReaching(t, u, e, a);
    }
    forall i | 0 <= i < |t|
      ensures t[i].probeLen == u[i].probeLen
      ensures t[i].live ==> Home(t[i].hash, |t|) == Home(u[i].hash, |u|)
    {
      assert Slotted(t, i) && Slotted(u, i);
      if t[i].live {
        SameReachingBy(t, u, t[i].probeLen, i);
        SameReachingBy(t, u, u[i].probeLen, i);
        ReachingSlot(t, t[i].probeLen, i);
        ReachingSlot(u, t[i].probeLen, i);
        ReachingSlot(t, u[i].probeLen, i);
        ReachingSlot(u, u[i].probeLen, i);
      }
    }
  }

  // ----- the same bindings -----

  /** The keys of `m` that are at home in slot `b` of `n`. */
  ghost function AtHome(m: Contents, b: nat, n: nat, cb: Callbacks): set<Identity>
    requires n > 0
  {
    set k | k in m && Home(cb.mixed(k), n) == b
  }

  lemma AtHomeDropped(m: Contents, k: Identity, b: nat, n: nat, cb: Callbacks)
    requires n > 0 && k in m
    ensures |AtHome(m, b, n, cb)| == |AtHome(m - {k}, b, n, cb)| + if Home(cb.mixed(k), n) == b then 1 else 0
  {
    var s, s' := AtHome(m, b, n, cb), AtHome(m - {k}, b, n, cb);
    assert s == if Home(cb.mixed(k), n) == b then s' + {k} else s';
  }

  /** Taking the last of `len` slots away drops its binding, if it has one. */
  lemma LastSlotsBinding(t: seq<Item>, m: Contents, len: nat, cb: Callbacks)
    requires 0 < len <= |t| && Represents(m, Entries(t[..len]), cb)
    ensures !t[len - 1].live ==> Represents(m, Entries(t[..len - 1]), cb)
    ensures t[len - 1].live ==>
              var k := cb.identity(t[len - 1].key);
              k in m && t[len - 1].hash == cb.mixed(k) && Represents(m - {k}, Entries(t[..len - 1]), cb)
  {
    EntriesWithoutLast(t[..len]);
    assert t[..len][..len - 1] == t[..len - 1];
    if t[len - 1].live {
      assert IsBound(m, EntryOf(t[len - 1]), cb);
      DropRepresents(m, Entries(t[..len]), EntryOf(t[len - 1]), cb);
    }
  }

  lemma HomesOfNothing(t: seq<Item>, m: Contents, b: nat, cb: Callbacks)
    requires t != [] && Represents(m, Entries(t[..0]), cb)
    ensures Homes(t, 0)[b] == |AtHome(m, b, |t|, cb)|
  {
    NoEntries(m, Entries(t[..0]), cb);
    assert AtHome(m, b, |t|, cb) == {};
  }

  lemma {:induction false} HomesOfContents(t: seq<Item>, m: Contents, len: nat, b: nat, cb: Callbacks)
    requires len <= |t| && t != [] && Represents(m, Entries(t[..len]), cb)
    ensures Homes(t, len)[b] == |AtHome(m, b, |t|, cb)|
  {
    if len == 0 {
      HomesOfNothing(t, m, b, cb);
    } else {
      LastSlotsBinding(t, m, len, cb);
      if t[len - 1].live {
        var k := cb.identity(t[len - 1].key);
        HomesOfContents(t, m - {k}, len - 1, b, cb);
        AtHomeDropped(m, k, b, |t|, cb);
      } else {
        HomesOfContents(t, m, len - 1, b, cb);
      }
    }
  }

  /** Two tables with the same bindings are laid out alike. */
  lemma ContentsDetermineLayout(t: seq<Item>, u: seq<Item>, m: Contents, cb: Callbacks)
    requires |t| == |u| && RobinHood(t) && RobinHood(u) && HasEmptySlot(t)
    requires Represents(m, Entries(t), cb) && Represents(m, Entries(u), cb)
    ensures SameLayout(t, u)
  {
    assert t[..|t|] == t && u[..|u|] == u;
    forall b: nat
      ensures Homes(t, |t|)[b] == Homes(u, |u|)[b]
    {
      HomesOfContents(t, m, |t|, b, cb);
      HomesOfContents(u, m, |u|, b, cb);
    }
    LayoutIsDetermined(t, u);
  }

  /** Two hash tables of the same capacity with the same bindings are laid out
      alike, whatever calls and growths made them. */
  lemma TablesAgree(p: HashTable, q: HashTable)
    requires p.Valid() && q.Valid() && p.cb == q.cb
    requires p.contents == q.contents && p.table.Length == q.table.Length
    ensures SameLayout(p.table[..], q.table[..])
  {
    p.ValidLeavesEmptySlot();
    ContentsDetermineLayout(p.table[..], q.table[..], p.contents, p.cb);
  }

  // ----- no two items at home in one slot -----

  ghost predicate HomesDiffer(t: seq<Item>) {
    forall i, j :: 0 <= i < j < |t| && t[i].live && t[j].live ==> Home(t[i].hash, |t|) != Home(t[j].hash, |t|)
  }

  /** Then every item is at home. */
  lemma {:induction false} NobodyIsAway(t: seq<Item>, e: nat, i: nat)
    requires RobinHood(t) && HomesDiffer(t) && e < |t| && !t[e].live && i < |t| && t[i].live
    ensures t[i].probeLen == 0
    decreases Distance(e, i, |t|)
  {
    assert Slotted(t, i);
    if t[i].probeLen > 0 {
      var h := Prev(i, |t|);
      assert Slotted(t, h);
      assert Distance(e, h, |t|) == Distance(e, i, |t|) - 1;
      NobodyIsAway(t, e, h);
    }
  }
}
