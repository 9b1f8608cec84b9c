/** In which order SDL_InitSubSystem starts what is missing. */
module StartUpOrder {
  import opened Subsystems
  import opened SdlInit
  import opened SdlLaws
  import opened ShutDownOrder

  /** From `st` to `r` nothing was stopped, and `names` were started one after the
      other; events may have been started at any point. */
  ghost predicate Grew(st: Status, r: Status, names: seq<Subsystem>) {
    && st.log <= r.log && Others(r.log[|st.log|..]) == names
    && (forall k :: |st.log| <= k < |r.log| ==> r.log[k].Start?)
    && (forall t: Subsystem :: t != Events ==> (t in r.running <==> t in st.running || t in names))
  }

  lemma GrewThen(a: Status, b: Status, c: Status, names: seq<Subsystem>, more: seq<Subsystem>)
    requires Grew(a, b, names) && Grew(b, c, more)
    ensures Grew(a, c, names + more)
  {
    assert c.log[|a.log|..] == b.log[|a.log|..] + c.log[|b.log|..];
    OthersJoin(b.log[|a.log|..], c.log[|b.log|..]);
  }

  lemma StartGrew(st: Status, s: Subsystem)
    ensures Grew(st, Started(st, s), if s == Events then [] else [s])
  {
    assert Started(st, s).log[|st.log|..] == [Start(s)];
    OthersOne(Start(s));
  }

  lemma SameGrew(st: Status, r: Status)
    requires r.log == st.log && r.running == st.running
    ensures Grew(st, r, [])
  {
  }

  lemma EventsGrew(st: Status, starts: Starts)
    requires InitOne(st, false, starts, Events).1
    ensures Grew(st, InitOne(st, false, starts, Events).0, [])
  {
    if st.count.At(Events) > 0 {
      SameGrew(st, InitOne(st, false, starts, Events).0);
    } else {
      StartGrew(st.(count := Incremented(st.count, Events)), Events);
    }
  }

  lemma BackendGrew(st: Status, starts: Starts, s: Subsystem)
    requires s != Events && StartBackend(st, false, starts, s).1
    ensures Grew(st, StartBackend(st, false, starts, s).0, [s])
  {
    if OwnRequest(s).On? {
      var held := InitOne(st, false, starts, Events).0;
      EventsGrew(st, starts);
      StartGrew(held, s);
      GrewThen(st, held, Started(held, s), [], [s]);
      assert [] + [s] == [s];
    } else {
      StartGrew(st, s);
    }
  }

  /** What was requested for `s` came up, and then `s`. */
  lemma HeldGrew(st: Status, held: Status, starts: Starts, s: Subsystem, names: seq<Subsystem>)
    requires s != Events && Grew(st, held, names)
    requires StartBackend(held.(count := Incremented(held.count, s)), false, starts, s).1
    ensures Grew(st, StartBackend(held.(count := Incremented(held.count, s)), false, starts, s).0, names + [s])
  {
    var early := held.(count := Incremented(held.count, s));
    BackendGrew(early, starts, s);
    GrewThen(st, held, StartBackend(early, false, starts, s).0, names, [s]);
  }

  lemma FlagGrew(st: Status, starts: Starts, s: Subsystem)
    requires s != Events && s != Gamepad && InitOne(st, false, starts, s).1
    ensures Grew(st, InitOne(st, false, starts, s).0, if st.count.At(s) > 0 then [] else [s])
  {
    if st.count.At(s) > 0 {
      SameGrew(st, InitOne(st, false, starts, s).0);
    } else if Implies(s).On? {
      assert Implies(s) == On(Events);
      var held := Hold(st, false, starts, Events).0;
      assert Hold(st, false, starts, Events) == InitOne(st, false, starts, Events);
      EventsGrew(st, starts);
      HeldGrew(st, held, starts, s, []);
      assert [] + [s] == [s];
    } else {
      SameGrew(st, st);
      HeldGrew(st, st, starts, s, []);
      assert [] + [s] == [s];
    }
  }

  lemma GamepadGrew(st: Status, starts: Starts)
    requires InitOne(st, false, starts, Gamepad).1 && st.count.At(Gamepad) == 0
    ensures Grew(st, InitOne(st, false, starts, Gamepad).0, (if st.count.At(Joystick) > 0 then [] else [Joystick]) + [Gamepad])
  {
    var held := Hold(st, false, starts, Joystick).0;
    assert Hold(st, false, starts, Joystick) == InitOne(st, false, starts, Joystick);
    FlagGrew(st, starts, Joystick);
    HeldGrew(st, held, starts, Gamepad, if st.count.At(Joystick) > 0 then [] else [Joystick]);
  }

  // ----- all flags -----

  /** What is new is among `front`, and came up in this order. */
  ghost predicate Ordered(before: Status, st: Status, front: seq<Subsystem>) {
    && Grew(before, st, Listed(front, st.running - before.running))
    && forall s :: s in st.running - before.running && s != Events ==> s in front
  }

  lemma ListedOneMore(front: seq<Subsystem>, s: Subsystem, some: set<Subsystem>)
    ensures Listed(front + [s], some) == Listed(front, some) + if s in some then [s] else []
  {
    ListedJoin(front, [s], some);
  }

  /** What is new and not in `front` changes nothing about it. */
  lemma EarlierSame(before: Status, st: Status, next: Status, front: seq<Subsystem>, names: seq<Subsystem>)
    requires Events !in front && Grew(st, next, names) && forall s :: s in names ==> s !in front
    ensures Listed(front, next.running - before.running) == Listed(front, st.running - before.running)
  {
    ListedSame(front, st.running - before.running, next.running - before.running);
  }

  lemma NothingNew(before: Status, st: Status, next: Status, front: seq<Subsystem>, s: Subsystem)
    requires Events !in front && s !in front && s != Events
    requires Ordered(before, st, front) && Grew(st, next, [])
    ensures Ordered(before, next, front + [s])
  {
    GrewThen(before, st, next, Listed(front, st.running - before.running), []);
    EarlierSame(before, st, next, front, []);
    ListedOneMore(front, s, next.running - before.running);
  }

  lemma OneNew(before: Status, st: Status, next: Status, front: seq<Subsystem>, s: Subsystem)
    requires Events !in front && s !in front && s != Events
    requires Ordered(before, st, front) && Grew(st, next, [s]) && s !in st.running
    ensures Ordered(before, next, front + [s])
  {
    GrewThen(before, st, next, Listed(front, st.running - before.running), [s]);
    EarlierSame(before, st, next, front, [s]);
    ListedOneMore(front, s, next.running - before.running);
  }

  lemma PairListed(front: seq<Subsystem>, some: set<Subsystem>)
    requires Joystick in some && Gamepad in some
    ensures Listed(front + [Joystick] + [Gamepad], some) == Listed(front, some) + [Joystick, Gamepad]
  {
    ListedJoin([Joystick], [Gamepad], some);
    ListedJoin(front, [Joystick] + [Gamepad], some);
    assert front + [Joystick] + [Gamepad] == front + ([Joystick] + [Gamepad]);
    assert Listed([Joystick] + [Gamepad], some) == [Joystick, Gamepad];
  }

  lemma JoystickNotListed(front: seq<Subsystem>, some: set<Subsystem>)
    requires Joystick !in some
    ensures Listed(front + [Joystick], some) == Listed(front, some)
  {
    ListedOneMore(front, Joystick, some);
    assert Listed(front, some) + [] == Listed(front, some);
  }

  /** A gamepad brings up the joysticks that come right before it in the order. */
  lemma PairNew(before: Status, st: Status, next: Status, front: seq<Subsystem>)
    requires Events !in front && Joystick !in front && Gamepad !in front
    requires Ordered(before, st, front + [Joystick]) && Grew(st, next, [Joystick, Gamepad])
    requires Joystick !in st.running && Gamepad !in st.running
    ensures Ordered(before, next, front + [Joystick] + [Gamepad])
  {
    JoystickNotListed(front, st.running - before.running);
    GrewThen(before, st, next, Listed(front, st.running - before.running), [Joystick, Gamepad]);
    EarlierSame(before, st, next, front, [Joystick, Gamepad]);
    PairListed(front, next.running - before.running);
  }

  lemma GamepadOrdered(before: Status, st: Status, starts: Starts, front: seq<Subsystem>)
    requires Events !in front && Joystick !in front && Gamepad !in front
    requires Ordered(before, st, front + [Joystick]) && RunsIffCounted(st.count, st.running, {})
    requires InitOne(st, false, starts, Gamepad).1 && st.count.At(Gamepad) == 0
    ensures Ordered(before, InitOne(st, false, starts, Gamepad).0, front + [Joystick] + [Gamepad])
  {
    var next := InitOne(st, false, starts, Gamepad).0;
    GamepadGrew(st, starts);
    if st.count.At(Joystick) > 0 {
      assert [] + [Gamepad] == [Gamepad];
      OneNew(before, st, next, front + [Joystick], Gamepad);
    } else {
      assert [Joystick] + [Gamepad] == [Joystick, Gamepad];
      PairNew(before, st, next, front);
    }
  }

  /** One flag that is given. */
  lemma FlagOrdered(before: Status, st: Status, starts: Starts, front: seq<Subsystem>, s: Subsystem)
    requires Events !in front && s !in front && s != Events && (s == Gamepad ==> front == [Video, Audio] + [Joystick])
    requires Ordered(before, st, front) && RunsIffCounted(st.count, st.running, {})
    requires InitOne(st, false, starts, s).1
    ensures Ordered(before, InitOne(st, false, starts, s).0, front + [s])
  {
    var next := InitOne(st, false, starts, s).0;
    if st.count.At(s) > 0 {
      SameGrew(st, next);
      NothingNew(before, st, next, front, s);
    } else if s != Gamepad {
      FlagGrew(st, starts, s);
      OneNew(before, st, next, front, s);
    } else {
      GamepadOrdered(before, st, starts, [Video, Audio]);
    }
  }

  /** Video comes up first and cameras last. */
  const START_ORDER: seq<Subsystem> := [Video, Audio, Joystick, Gamepad, Haptic, Sensor, Camera]

  lemma NotYet(k: nat)
    requires k < |START_ORDER|
    ensures START_ORDER[..k + 1] == START_ORDER[..k] + [START_ORDER[k]] && INIT_ORDER[k + 1] == START_ORDER[k]
    ensures START_ORDER[k] == Gamepad ==> START_ORDER[..k] == [Video, Audio] + [Joystick]
    ensures START_ORDER[k] !in START_ORDER[..k] && START_ORDER[k] != Events && Events !in START_ORDER[..k]
  {
  }

  /** One flag of the order, given or not. */
  lemma NextOrdered(before: Status, st: Status, starts: Starts, k: nat, given: bool)
    requires k < |START_ORDER| && Ordered(before, st, START_ORDER[..k]) && RunsIffCounted(st.count, st.running, {})
    requires given ==> InitOne(st, false, starts, START_ORDER[k]).1
    ensures Ordered(before, if given then InitOne(st, false, starts, START_ORDER[k]).0 else st, START_ORDER[..k + 1])
  {
    NotYet(k);
    if given {
      FlagOrdered(before, st, starts, START_ORDER[..k], START_ORDER[k]);
    } else {
      SameGrew(st, st);
      NothingNew(before, st, st, START_ORDER[..k], START_ORDER[k]);
    }
  }

  /** The flags before the `i`-th are done: `st` is balanced, and in order. */
  ghost predicate Underway(before: Status, st: Status, starts: Starts, explicit: Counts, flags: set<Subsystem>, i: nat, done: set<Subsystem>)
  {
    && 1 <= i <= |INIT_ORDER| && DoneBefore(INIT_ORDER, flags, done, i) && Fits(Requested(explicit, flags))
    && AllOrNothing(before, (st, true), starts, explicit, Requested(explicit, done))
    && Ordered(before, st, START_ORDER[..i - 1])
  }

  lemma FlagNotGiven(before: Status, st: Status, starts: Starts, explicit: Counts, flags: set<Subsystem>, i: nat, done: set<Subsystem>)
    requires i < |INIT_ORDER| && INIT_ORDER[i] !in flags && Underway(before, st, starts, explicit, flags, i, done)
    ensures Underway(before, st, starts, explicit, flags, i + 1, done)
  {
    OrdersListAll();
    DoneNext(INIT_ORDER, flags, done, i);
    NextOrdered(before, st, starts, i - 1, false);
  }

  lemma FlagGiven(before: Status, st: Status, next: Status, starts: Starts, explicit: Counts, flags: set<Subsystem>, i: nat, done: set<Subsystem>)
    requires i < |INIT_ORDER| && INIT_ORDER[i] in flags && Underway(before, st, starts, explicit, flags, i, done)
    requires InitOne(st, false, starts, INIT_ORDER[i]) == (next, true)
    ensures Underway(before, next, starts, explicit, flags, i + 1, done + {INIT_ORDER[i]})
  {
    var s := INIT_ORDER[i];
    OrdersListAll();
    DoneNext(INIT_ORDER, flags, done, i);
    InitOneMore(before, st, starts, explicit, flags, done, s);
    NotYet(i - 1);
    NextOrdered(before, st, starts, i - 1, true);
  }

  lemma {:induction false} AllOrdered(before: Status, st: Status, starts: Starts, explicit: Counts, flags: set<Subsystem>, i: nat, done: set<Subsystem>)
    requires Underway(before, st, starts, explicit, flags, i, done)
    ensures InitFrom(st, false, starts, flags, i, done).1 ==> Ordered(before, InitFrom(st, false, starts, flags, i, done).0, START_ORDER)
    decreases |INIT_ORDER| - i
  {
    if i == |INIT_ORDER| {
      assert START_ORDER[..i - 1] == START_ORDER;
    } else if INIT_ORDER[i] !in flags {
      FlagNotGiven(before, st, starts, explicit, flags, i, done);
      AllOrdered(before, st, starts, explicit, flags, i + 1, done);
    } else {
      var (next, ok) := InitOne(st, false, starts, INIT_ORDER[i]);
      if ok {
        FlagGiven(before, st, next, starts, explicit, flags, i, done);
        AllOrdered(before, next, starts, explicit, flags, i + 1, done + {INIT_ORDER[i]});
      }
    }
  }

  lemma NoneYet(before: Status, st: Status)
    requires Grew(before, st, [])
    ensures Ordered(before, st, [])
  {
  }

  /** `SDL_InitSubSystem` starts what is missing, but for events, in this order. */
  lemma InitComesUp(st: Status, starts: Starts, explicit: Counts, flags: set<Subsystem>)
    requires Balances(st, explicit, {}) && Fits(Requested(explicit, flags))
    ensures var (r, ok) := Init(st, false, starts, flags);
            ok ==>
              && st.log <= r.log && (forall k :: |st.log| <= k < |r.log| ==> r.log[k].Start?)
              && Others(r.log[|st.log|..]) ==
                 Listed([Video, Audio, Joystick, Gamepad, Haptic, Sensor, Camera], r.running - st.running)
  {
    RequestedNothing(explicit);
    OrdersListAll();
    DoneNext(INIT_ORDER, flags, {}, 0);
    if Events !in flags {
      SameGrew(st, st);
      NoneYet(st, st);
      AllOrdered(st, st, starts, explicit, flags, 1, {});
    } else if InitOne(st, false, starts, Events).1 {
      InitOneMore(st, st, starts, explicit, flags, {}, Events);
      EventsGrew(st, starts);
      NoneYet(st, InitOne(st, false, starts, Events).0);
      AllOrdered(st, InitOne(st, false, starts, Events).0, starts, explicit, flags, 1, {} + {Events});
    }
  }
}
