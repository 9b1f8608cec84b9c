/** The lock-free parts of SDL_properties.c and SDL_hints.c: IDs are issued and
    lazily made groups are installed and taken away by compare-and-swap, with
    any number of threads taking steps in any order. */
module LazyIds {
  import opened Words

  const MAX_ID: Uint32 := 0xFFFF_FFFF

  type Thread = nat

  /** Where a thread is. One step does one access to shared memory. `lazy` says
      that GetHintProperties, or SDL_GetGlobalProperties, asked for the group; any
      other caller of SDL_CreateProperties keeps it. */
  datatype Pc =
    | Idle
    | AllocLoad(lazy: bool)            // SDL_CreateProperties is about to read the last ID
    | AllocSwap(lazy: bool, want: Uint32)  // ... and to swap it for the next one
    | Install(props: Uint32)           // GetHintProperties is about to swap 0 for its own group
    | Discard(props: Uint32)           // ... was too late, and is about to destroy its own
    | Reload                           // ... and to use somebody else's
    | QuitLoad                         // SDL_QuitHints is about to read the installed group
    | QuitSwap(seen: Uint32)           // ... and to swap it for 0
    | QuitDestroy(props: Uint32)       // ... and to destroy it

  datatype State = State(
    last: Uint32,                      // SDL_last_properties_id
    global: Uint32,                    // SDL_hint_props, or SDL_global_properties
    pc: map<Thread, Pc>,
    issued: seq<Uint32>,               // IDs in the order the swaps issued them
    destroyed: seq<Uint32>,            // groups that the lazy calls and quits destroyed, or that were not registered
    returned: seq<Uint32>,             // results of the lazy calls in the order they completed
    created: seq<Uint32>)              // groups that other callers were given to keep

  const START := State(0, 0, map[], [], [], [], [])

  function PcOf(s: State, t: Thread): Pc {
    if t in s.pc then s.pc[t] else Idle
  }

  /** What the scheduler, or the memory allocator, decides. */
  datatype Choice = BeginGet | BeginCreate | BeginQuit | Proceed | Fail

  function Returns(s: State, t: Thread, id: Uint32): State {
    s.(pc := s.pc[t := Idle], returned := s.returned + [id])
  }

  function Destroys(s: State, id: Uint32): State {
    if id == 0 then s else s.(destroyed := s.destroyed + [id])
  }

  /** SDL_CreateProperties has made the group `id`, or failed with 0. */
  function Allocated(s: State, t: Thread, lazy: bool, id: Uint32): State {
    if lazy then s.(pc := s.pc[t := Install(id)])
    else if id == 0 then s.(pc := s.pc[t := Idle])
    else s.(pc := s.pc[t := Idle], created := s.created + [id])
  }

  /** One step of thread `t`. */
  function Step(s: State, t: Thread, choice: Choice): State {
    match PcOf(s, t)
    case Idle =>
      if choice == BeginGet then
        if s.global != 0 then Returns(s, t, s.global) else s.(pc := s.pc[t := AllocLoad(true)])
      else if choice == BeginCreate then s.(pc := s.pc[t := AllocLoad(false)])
      else if choice == BeginQuit then s.(pc := s.pc[t := QuitLoad])
      else s
    case AllocLoad(lazy) =>
      if choice == Fail then Allocated(s, t, lazy, 0)             // no memory for the group
      else if s.last == MAX_ID then s                            // last + 1 wraps to 0: try again
      else s.(pc := s.pc[t := AllocSwap(lazy, s.last + 1)])
    case AllocSwap(lazy, want) =>
      if want == 0 || s.last != want - 1 then s.(pc := s.pc[t := AllocLoad(lazy)])
      else
        var issued := s.(last := want, issued := s.issued + [want]);
        if choice == Fail then Allocated(Destroys(issued, want), t, lazy, 0)   // not registered: freed
        else Allocated(issued, t, lazy, want)
    case Install(props) =>
      if s.global == 0 then Returns(s.(global := props), t, props)
      else s.(pc := s.pc[t := Discard(props)])
    case Discard(props) => Destroys(s, props).(pc := s.pc[t := Reload])
    case Reload => Returns(s, t, s.global)
    case QuitLoad => s.(pc := s.pc[t := QuitSwap(s.global)])
    case QuitSwap(seen) =>
      if s.global == seen then s.(global := 0, pc := s.pc[t := QuitDestroy(seen)])
      else s.(pc := s.pc[t := QuitLoad])
    case QuitDestroy(props) => Destroys(s, props).(pc := s.pc[t := Idle])
  }

  /** Any interleaving of any threads. */
  function Run(s: State, steps: seq<(Thread, Choice)>): State {
    if steps == [] then s
    else
      var before := Run(s, steps[..|steps| - 1]);
      Step(before, steps[|steps| - 1].0, steps[|steps| - 1].1)
  }

  // ----- where each group is -----

  /** The group that thread `t` alone knows about, or 0. */
  function Owned(s: State, t: Thread): Uint32 {
    match PcOf(s, t)
    case Install(props) => props
    case Discard(props) => props
    case QuitDestroy(props) => props
    case _ => 0
  }

  /** IDs are issued in order, none twice. */
  ghost predicate IssuedInOrder(s: State) {
    |s.issued| == s.last && forall i :: 0 <= i < |s.issued| ==> s.issued[i] == i + 1
  }

  ghost predicate NoneTwice(ids: seq<Uint32>) {
    forall i, j :: 0 <= i < j < |ids| ==> ids[i] != ids[j]
  }

  lemma NoneTwiceAppend(ids: seq<Uint32>, id: Uint32)
    requires NoneTwice(ids) && id !in ids
    ensures NoneTwice(ids + [id])
  {
    assert forall i :: 0 <= i < |ids| ==> ids[i] in ids;
  }

  /** A group is installed, owned by one thread, destroyed, or its caller's to
      keep, and only one of these. */
  ghost predicate OnePlace(s: State) {
    && s.global <= s.last && s.global !in s.destroyed && s.global !in s.created
    && 0 !in s.destroyed && 0 !in s.created
    && (forall id :: id in s.destroyed || id in s.created ==> id <= s.last)
    && (forall id :: id in s.created ==> id !in s.destroyed)
    && NoneTwice(s.destroyed) && NoneTwice(s.created)
    && (forall t :: Owned(s, t) <= s.last)
    && (forall t :: Owned(s, t) != 0 ==> Owned(s, t) != s.global && Owned(s, t) !in s.destroyed && Owned(s, t) !in s.created)
    && (forall t, u :: t != u && Owned(s, t) != 0 ==> Owned(s, t) != Owned(s, u))
  }

  ghost predicate SomePlace(s: State, id: Uint32) {
    id == s.global || id in s.destroyed || id in s.created || exists t :: Owned(s, t) == id
  }

  /** No group is forgotten. */
  ghost predicate NoLeak(s: State) {
    forall id: Uint32 :: 1 <= id <= s.last ==> SomePlace(s, id)
  }

  ghost predicate Inv(s: State) {
    IssuedInOrder(s) && OnePlace(s) && NoLeak(s)
  }

  /** What a step by `t` can do to the groups: nothing, issue one, hand one
      over to the installed place, destroy one, or take the installed one. */
  ghost predicate Moves(s: State, s': State, t: Thread) {
    && (forall u :: u != t ==> Owned(s', u) == Owned(s, u))
    && (|| (s'.last == s.last && s'.issued == s.issued && s'.created == s.created && MovesOne(s, s', t))
        || (s'.last == s.last + 1 && s'.issued == s.issued + [s'.last] && s'.global == s.global && Owned(s, t) == 0
            && IssuesOne(s, s', t)))
  }

  ghost predicate MovesOne(s: State, s': State, t: Thread) {
    || (s'.global == s.global && s'.destroyed == s.destroyed && Owned(s', t) == Owned(s, t))
    || (s.global == 0 && s'.global == Owned(s, t) && s'.destroyed == s.destroyed && Owned(s', t) == 0)
    || (s'.global == s.global && Owned(s, t) != 0 && s'.destroyed == s.destroyed + [Owned(s, t)] && Owned(s', t) == 0)
    || (s'.global == 0 && s'.destroyed == s.destroyed && Owned(s, t) == 0 && Owned(s', t) == s.global)
  }

  /** The new group is owned by the thread, freed at once, or given to the caller. */
  ghost predicate IssuesOne(s: State, s': State, t: Thread) {
    || (s'.destroyed == s.destroyed && s'.created == s.created && Owned(s', t) == s'.last)
    || (s'.destroyed == s.destroyed + [s'.last] && s'.created == s.created && Owned(s', t) == 0)
    || (s'.destroyed == s.destroyed && s'.created == s.created + [s'.last] && Owned(s', t) == 0)
  }

  lemma StepMoves(s: State, t: Thread, choice: Choice)
    ensures Moves(s, Step(s, t, choice), t)
  {
    var s' := Step(s, t, choice);
    assert forall u :: u != t ==> PcOf(s', u) == PcOf(s, u);
  }

  lemma StepKeepsOnePlace(s: State, t: Thread, choice: Choice)
    requires IssuedInOrder(s) && OnePlace(s)
    ensures IssuedInOrder(Step(s, t, choice)) && OnePlace(Step(s, t, choice))
  {
    StepMoves(s, t, choice);
    MoveKeepsOnePlace(s, Step(s, t, choice), t);
  }

  lemma MoveKeepsOnePlace(s: State, s': State, t: Thread)
    requires IssuedInOrder(s) && OnePlace(s) && Moves(s, s', t)
    ensures IssuedInOrder(s') && OnePlace(s')
  {
    if s'.destroyed != s.destroyed {
      NoneTwiceAppend(s.destroyed, s'.destroyed[|s.destroyed|]);
    }
    if s'.created != s.created {
      NoneTwiceAppend(s.created, s'.last);
    }
  }

  lemma MoveKeepsNoLeak(s: State, s': State, t: Thread)
    requires NoLeak(s) && Moves(s, s', t)
    ensures NoLeak(s')
  {
    forall id: Uint32 | 1 <= id <= s'.last
      ensures SomePlace(s', id)
    {
      if id <= s.last {
        assert SomePlace(s, id);
        assert Owned(s, t) == id ==> Owned(s', t) == id || id == s'.global || id in s'.destroyed;
      } else {
        assert Owned(s', t) == id || id in s'.destroyed || id in s'.created;
      }
    }
  }

  lemma {:induction false} RunKeepsInv(s: State, steps: seq<(Thread, Choice)>)
    requires Inv(s)
    ensures Inv(Run(s, steps))
  {
    if steps != [] {
      var before := Run(s, steps[..|steps| - 1]);
      var (t, choice) := steps[|steps| - 1];
      RunKeepsInv(s, steps[..|steps| - 1]);
      StepKeepsOnePlace(before, t, choice);
      StepMoves(before, t, choice);
      MoveKeepsNoLeak(before, Step(before, t, choice), t);
    }
  }

  // ----- what that promises -----

  /** In every interleaving the IDs issued are nonzero and pairwise different:
      the counter never wraps. */
  lemma IdsAreUnique(steps: seq<(Thread, Choice)>)
    ensures var ids := Run(START, steps).issued;
            && (forall i :: 0 <= i < |ids| ==> ids[i] != 0)
            && (forall i, j :: 0 <= i < j < |ids| ==> ids[i] != ids[j])
  {
    RunKeepsInv(START, steps);
  }

  /** Once the last ID has been issued every call spins: no ID is issued again. */
  lemma {:induction false} SpinsAtTheEnd(s: State, steps: seq<(Thread, Choice)>)
    requires Inv(s) && s.last == MAX_ID
    ensures Run(s, steps).issued == s.issued
  {
    if steps != [] {
      var before := Run(s, steps[..|steps| - 1]);
      var (t, choice) := steps[|steps| - 1];
      SpinsAtTheEnd(s, steps[..|steps| - 1]);
      RunKeepsInv(s, steps[..|steps| - 1]);
      RunKeepsInv(s, steps);
      StepMoves(before, t, choice);
    }
  }

  /** In every interleaving, also with groups being taken away and made by other
      callers, no group is destroyed twice, none is destroyed while it is installed
      or somebody else's, and when all threads are idle every group but the
      installed one and those that other callers keep has been destroyed. */
  lemma GroupsEndOnce(steps: seq<(Thread, Choice)>)
    ensures var s := Run(START, steps);
            && NoneTwice(s.destroyed) && s.global !in s.destroyed
            && NoneTwice(s.created) && s.global !in s.created
            && (forall id :: id in s.destroyed ==> id in s.issued && id !in s.created)
            && (forall id :: id in s.created ==> id in s.issued)
            && ((forall t :: PcOf(s, t) == Idle) ==>
                  forall id :: id in s.issued ==> id == s.global || id in s.destroyed || id in s.created)
  {
    var s := Run(START, steps);
    RunKeepsInv(START, steps);
    forall id | id in s.destroyed || id in s.created
      ensures id in s.issued
    {
      assert s.issued[id - 1] == id;
    }
    if forall t :: PcOf(s, t) == Idle {
      forall id | id in s.issued
        ensures id == s.global || id in s.destroyed || id in s.created
      {
        assert SomePlace(s, id);
      }
    }
  }

  // ----- one group for everybody -----

  ghost predicate NobodyQuits(s: State) {
    forall t :: !PcOf(s, t).QuitLoad? && !PcOf(s, t).QuitSwap? && !PcOf(s, t).QuitDestroy?
  }

  ghost predicate NoQuit(steps: seq<(Thread, Choice)>) {
    forall i :: 0 <= i < |steps| ==> steps[i].1 != BeginQuit
  }

  /** A call that is late finds the group already there. */
  ghost predicate LateCallsFindIt(s: State) {
    forall t :: PcOf(s, t).Discard? || PcOf(s, t).Reload? ==> s.global != 0
  }

  /** First nothing but failures, then one ID. */
  ghost predicate OneId(results: seq<Uint32>, id: Uint32) {
    && (forall i :: 0 <= i < |results| && results[i] != 0 ==> results[i] == id)
    && (forall i, j :: 0 <= i < j < |results| && results[i] != 0 ==> results[j] == results[i])
  }

  /** Without a quit in between, all calls that complete return one and the
      same ID, the installed one, but for calls that fail before it is installed. */
  lemma {:induction false} OneGroupForAll(s: State, steps: seq<(Thread, Choice)>)
    requires NobodyQuits(s) && NoQuit(steps) && LateCallsFindIt(s)
    ensures var r := Run(s, steps);
            && NobodyQuits(r) && LateCallsFindIt(r) && (s.global != 0 ==> r.global == s.global)
            && s.returned <= r.returned && OneId(r.returned[|s.returned|..], r.global)
  {
    if steps != [] {
      var before := Run(s, steps[..|steps| - 1]);
      var (t, choice) := steps[|steps| - 1];
      OneGroupForAll(s, steps[..|steps| - 1]);
      assert steps[|steps| - 1].1 != BeginQuit;
      OneGroupStep(before, t, choice, |s.returned|);
    }
  }

  lemma OneGroupStep(s: State, t: Thread, choice: Choice, n: nat)
    requires NobodyQuits(s) && choice != BeginQuit && LateCallsFindIt(s)
    requires n <= |s.returned| && OneId(s.returned[n..], s.global)
    ensures var r := Step(s, t, choice);
            && NobodyQuits(r) && LateCallsFindIt(r) && (s.global != 0 ==> r.global == s.global)
            && s.returned <= r.returned && OneId(r.returned[n..], r.global)
  {
    var r := Step(s, t, choice);
    assert forall u :: u != t ==> PcOf(r, u) == PcOf(s, u);
    assert !PcOf(s, t).QuitLoad? && !PcOf(s, t).QuitSwap? && !PcOf(s, t).QuitDestroy?;
    if r.returned != s.returned {
      assert r.returned[n..] == s.returned[n..] + [r.global];
    }
  }

  // ----- progress -----

  /** One thread takes `n` steps by itself. */
  function Alone(s: State, t: Thread, n: nat): State {
    if n == 0 then s else Step(Alone(s, t, n - 1), t, Proceed)
  }

  /** A call begins, and its thread then runs alone. */
  function CallAlone(s: State, t: Thread, choice: Choice, n: nat): State {
    Alone(Step(s, t, choice), t, n)
  }

  /** A caller that runs alone is given the next ID to keep. */
  lemma CreateEnds(s: State, t: Thread)
    requires Inv(s) && PcOf(s, t) == Idle && s.last < MAX_ID
    ensures var r := CallAlone(s, t, BeginCreate, 2);
            && PcOf(r, t) == Idle
            && r.last == s.last + 1 && r.issued == s.issued + [r.last] && r.created == s.created + [r.last]
            && r.global == s.global && r.destroyed == s.destroyed && r.returned == s.returned
  {
    var begun := Step(s, t, BeginCreate);
    var loaded := Step(begun, t, Proceed);
    assert PcOf(loaded, t) == AllocSwap(false, s.last + 1);
    assert Alone(begun, t, 1) == loaded;
    assert Alone(begun, t, 2) == Step(loaded, t, Proceed);
  }

  /** A lazy call that runs alone returns the installed group; where there is none
      it makes one, with the next ID, and installs it. */
  lemma GetEnds(s: State, t: Thread)
    requires Inv(s) && PcOf(s, t) == Idle && s.last < MAX_ID
    ensures var r := CallAlone(s, t, BeginGet, if s.global != 0 then 0 else 3);
            && PcOf(r, t) == Idle
            && r.global != 0 && r.returned == s.returned + [r.global]
            && (if s.global != 0 then r.global == s.global && r.issued == s.issued
                else r.global == r.last == s.last + 1 && r.issued == s.issued + [r.last])
            && r.destroyed == s.destroyed && r.created == s.created
  {
    var begun := Step(s, t, BeginGet);
    assert Alone(begun, t, 0) == begun;
    if s.global == 0 {
      var loaded := Step(begun, t, Proceed);
      assert PcOf(loaded, t) == AllocSwap(true, s.last + 1);
      var swapped := Step(loaded, t, Proceed);
      assert PcOf(swapped, t) == Install(s.last + 1);
      assert Alone(begun, t, 1) == loaded && Alone(begun, t, 2) == swapped;
      assert Alone(begun, t, 3) == Step(swapped, t, Proceed);
    }
  }

  /** A quit that runs alone takes the installed group away and destroys it. */
  lemma QuitEnds(s: State, t: Thread)
    requires PcOf(s, t) == Idle
    ensures var r := CallAlone(s, t, BeginQuit, 3);
            && PcOf(r, t) == Idle
            && r.global == 0 && r.destroyed == s.destroyed + (if s.global != 0 then [s.global] else [])
            && r.last == s.last && r.created == s.created && r.returned == s.returned
  {
    var begun := Step(s, t, BeginQuit);
    var loaded := Step(begun, t, Proceed);
    assert PcOf(loaded, t) == QuitSwap(s.global);
    var swapped := Step(loaded, t, Proceed);
    assert PcOf(swapped, t) == QuitDestroy(s.global);
    assert Alone(begun, t, 1) == loaded && Alone(begun, t, 2) == swapped;
    assert Alone(begun, t, 3) == Step(swapped, t, Proceed);
  }

  /** A lazy call that comes too late destroys its own group and returns the
      installed one. */
  lemma LateGetEnds(s: State, t: Thread)
    requires PcOf(s, t).Install? && s.global != 0
    ensures var r := Alone(s, t, 3);
            && PcOf(r, t) == Idle && r.global == s.global && r.returned == s.returned + [s.global]
            && r.destroyed == s.destroyed + (if PcOf(s, t).props != 0 then [PcOf(s, t).props] else [])
  {
    var late := Step(s, t, Proceed);
    var gone := Step(late, t, Proceed);
    assert PcOf(late, t) == Discard(PcOf(s, t).props) && PcOf(gone, t) == Reload;
    assert Alone(s, t, 0) == s && Alone(s, t, 1) == late && Alone(s, t, 2) == gone;
  }

  /** The thread's call ends within `n` steps if it runs alone. */
  predicate EndsWithin(s: State, t: Thread, n: nat)
    decreases n
  {
    PcOf(s, t) == Idle || (n > 0 && EndsWithin(Step(s, t, Proceed), t, n - 1))
  }

  lemma {:induction false} EndsLater(s: State, t: Thread, n: nat, m: nat)
    requires EndsWithin(s, t, n) && n <= m
    ensures EndsWithin(s, t, m)
    decreases n
  {
    if PcOf(s, t) != Idle {
      EndsLater(Step(s, t, Proceed), t, n - 1, m - 1);
    }
  }

  lemma InstallEnds(s: State, t: Thread)
    requires PcOf(s, t).Install? || PcOf(s, t).Discard? || PcOf(s, t).Reload?
    ensures EndsWithin(s, t, 3)
  {
    var a := Step(s, t, Proceed);
    var b := Step(a, t, Proceed);
    var c := Step(b, t, Proceed);
    assert EndsWithin(c, t, 0) || PcOf(b, t) == Idle || PcOf(a, t) == Idle;
  }

  lemma QuitFinishes(s: State, t: Thread)
    requires PcOf(s, t).QuitLoad? || PcOf(s, t).QuitSwap? || PcOf(s, t).QuitDestroy?
    ensures EndsWithin(s, t, if PcOf(s, t).QuitSwap? then 4 else 3)
    decreases if PcOf(s, t).QuitDestroy? then 0 else if PcOf(s, t).QuitLoad? then 2 else if PcOf(s, t).seen == s.global then 1 else 3
  {
    var a := Step(s, t, Proceed);
    if PcOf(s, t).QuitDestroy? {
      assert EndsWithin(a, t, 0);
    } else if PcOf(s, t).QuitLoad? {
      var b := Step(a, t, Proceed);
      assert PcOf(b, t).QuitDestroy?;
      assert EndsWithin(Step(b, t, Proceed), t, 0) && EndsWithin(b, t, 1) && EndsWithin(a, t, 2);
    } else {
      QuitFinishes(a, t);
    }
  }

  lemma SwapEnds(s: State, t: Thread)
    requires PcOf(s, t).AllocSwap? && PcOf(s, t).want == s.last + 1
    ensures EndsWithin(s, t, 4)
  {
    var a := Step(s, t, Proceed);
    if PcOf(a, t) == Idle {
      assert EndsWithin(a, t, 3);
    } else {
      InstallEnds(a, t);
    }
  }

  lemma LoadEnds(s: State, t: Thread)
    requires PcOf(s, t).AllocLoad? && s.last < MAX_ID
    ensures EndsWithin(s, t, 5)
  {
    SwapEnds(Step(s, t, Proceed), t);
  }

  /** From every state, every call whose thread is left alone ends within six steps,
      as long as there are IDs left. */
  lemma CallsEndAlone(s: State, t: Thread)
    requires s.last < MAX_ID
    ensures EndsWithin(s, t, 6)
  {
    match PcOf(s, t)
    case Idle =>
    case AllocLoad(_) =>
      LoadEnds(s, t);
      EndsLater(s, t, 5, 6);
    case AllocSwap(_, want) =>
      if want == s.last + 1 {
        SwapEnds(s, t);
        EndsLater(s, t, 4, 6);
      } else {
        LoadEnds(Step(s, t, Proceed), t);
      }
    case Install(_) =>
      InstallEnds(s, t);
      EndsLater(s, t, 3, 6);
    case Discard(_) =>
      InstallEnds(s, t);
      EndsLater(s, t, 3, 6);
    case Reload =>
      InstallEnds(s, t);
      EndsLater(s, t, 3, 6);
    case _ =>
      QuitFinishes(s, t);
      EndsLater(s, t, if PcOf(s, t).QuitSwap? then 4 else 3, 6);
  }

  /** Each thread about to swap has seen an ID that had been the last one. */
  ghost predicate SeenIds(s: State) {
    forall t :: PcOf(s, t).AllocSwap? ==> 1 <= PcOf(s, t).want <= s.last + 1
  }

  lemma {:induction false} RunSeesIds(steps: seq<(Thread, Choice)>)
    ensures SeenIds(Run(START, steps))
  {
    if steps != [] {
      var before := Run(START, steps[..|steps| - 1]);
      var (t, choice) := steps[|steps| - 1];
      RunSeesIds(steps[..|steps| - 1]);
      assert forall u :: u != t ==> PcOf(Step(before, t, choice), u) == PcOf(before, u);
    }
  }

  /** The swap loop is lock-free: in every interleaving a swap issues the ID that
      it asks for, unless another thread has issued it since the thread looked. */
  lemma SwapFailsOnlyForAnother(steps: seq<(Thread, Choice)>, t: Thread)
    requires PcOf(Run(START, steps), t).AllocSwap?
    ensures var s := Run(START, steps);
            var want := PcOf(s, t).want;
            var r := Step(s, t, Proceed);
            if want in s.issued then r.issued == s.issued && PcOf(r, t).AllocLoad?
            else r.issued == s.issued + [want] && !PcOf(r, t).AllocLoad?
  {
    var s := Run(START, steps);
    RunSeesIds(steps);
    RunKeepsInv(START, steps);
    var want := PcOf(s, t).want;
    if want <= s.last {
      assert s.issued[want - 1] == want;
    }
  }
}
