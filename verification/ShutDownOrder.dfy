/** When SDL_Quit keeps the order of the dependencies: which stops it makes, one
    after the other, and which of them leave a subsystem running without the one
    that it needs. */
module ShutDownOrder {
  import opened Subsystems
  import opened SdlInit
  import opened SdlLaws

  // ----- the stops that a forced quit makes -----

  /** The stops of one flag, and what still runs after them. Video releases its own
      request before its drivers go, the others after that. */
  function FlagStops(running: set<Subsystem>, s: Subsystem): seq<Event>
    decreases Rank(s)
  {
    if s !in running then []
    else if s == Video then FlagStops(running, Events) + [Stop(s, true)]
    else [Stop(s, true)] + if Needs(s).On? then FlagStops(running - {s}, Needs(s).subsystem) else []
  }

  function FlagLeaves(running: set<Subsystem>, s: Subsystem): set<Subsystem>
    decreases Rank(s)
  {
    if s !in running then running
    else if Needs(s).On? then FlagLeaves(running - {s}, Needs(s).subsystem)
    else running - {s}
  }

  /** The stops of all flags from the `i`-th on. */
  function StopsFrom(running: set<Subsystem>, i: nat): seq<Event>
    requires i <= |QUIT_ORDER|
    decreases |QUIT_ORDER| - i
  {
    if i == |QUIT_ORDER| then []
    else FlagStops(running, QUIT_ORDER[i]) + StopsFrom(FlagLeaves(running, QUIT_ORDER[i]), i + 1)
  }

  lemma FlagSkipped(running: set<Subsystem>, i: nat)
    requires i < |QUIT_ORDER| && QUIT_ORDER[i] !in running
    ensures StopsFrom(running, i) == StopsFrom(running, i + 1)
  {
    assert [] + StopsFrom(running, i + 1) == StopsFrom(running, i + 1);
  }

  lemma FlagTaken(running: set<Subsystem>, i: nat, stops: seq<Event>, left: set<Subsystem>)
    requires i < |QUIT_ORDER|
    requires stops == FlagStops(running, QUIT_ORDER[i]) && left == FlagLeaves(running, QUIT_ORDER[i])
    ensures StopsFrom(running, i) == stops + StopsFrom(left, i + 1)
  {
  }

  ghost predicate CountedIffRuns(st: Status, flags: set<Subsystem>) {
    forall s :: s in flags ==> (st.count.At(s) > 0 <==> s in st.running)
  }

  /** One flag of the shutdown has stopped what it stops. */
  ghost predicate FlagGone(st: Status, r: Status, s: Subsystem) {
    && r.log == st.log + FlagStops(st.running, s) && r.running == FlagLeaves(st.running, s)
    && r.running <= st.running
    && forall t: Subsystem :: r.count.At(t) == if t in st.running - r.running then 0 else st.count.At(t)
  }

  /** Events and haptic devices need nothing. */
  lemma LoneQuits(st: Status, s: Subsystem)
    requires Needs(s).Nothing? && CountedIffRuns(st, {s})
    ensures FlagGone(st, QuitOne(st, true, s), s)
  {
  }

  /** What has been stopped is not stopped again. */
  lemma StoppedQuits(st: Status, s: Subsystem)
    requires st.count.At(s) == 0
    ensures QuitOne(st, true, s) == st
  {
    CountsEqual(QuitOne(st, true, s).count, st.count);
  }

  lemma VideoQuits(st: Status)
    requires CountedIffRuns(st, {Video, Events}) && Video in st.running
    ensures FlagGone(st, QuitOne(st, true, Video), Video)
  {
    LoneQuits(st, Events);
    var a := Stopped(QuitOne(st, true, Events), Video, true);
    StoppedQuits(a, Events);
    assert QuitOne(st, true, Video) == a.(count := Decremented(a.count, Video, true));
    assert st.running - {Video} - {Events} == st.running - {Events} - {Video};
    assert a.log == st.log + FlagStops(st.running, Video);
  }

  lemma OthersQuit(st: Status, s: Subsystem)
    requires CountedIffRuns(st, Below(s)) && s in st.running && s != Video && Needs(s) == On(Events)
    ensures FlagGone(st, QuitOne(st, true, s), s)
  {
    assert s in Below(s) && Events in Below(s);
    var a := Stopped(st, s, true);
    LoneQuits(a, Events);
    var b := QuitOne(a, true, Events);
    StoppedQuits(b, Events);
    assert QuitOne(st, true, s) == b.(count := Decremented(b.count, s, true));
    assert b.log == st.log + FlagStops(st.running, s);
  }

  lemma GamepadQuits(st: Status)
    requires CountedIffRuns(st, Below(Gamepad)) && Gamepad in st.running
    ensures FlagGone(st, QuitOne(st, true, Gamepad), Gamepad)
    decreases 2, 0
  {
    assert Below(Gamepad) == {Gamepad} + Below(Joystick);
    var a := Stopped(st, Gamepad, true);
    FlagQuits(a, Joystick);
    var b := QuitOne(a, true, Joystick);
    assert b.log == st.log + FlagStops(st.running, Gamepad);
  }

  lemma FlagQuits(st: Status, s: Subsystem)
    requires CountedIffRuns(st, Below(s))
    ensures FlagGone(st, QuitOne(st, true, s), s)
    decreases Rank(s), 1
  {
    assert s in Below(s);
    if s !in st.running {
      StoppedQuits(st, s);
    } else if Needs(s).Nothing? {
      LoneQuits(st, s);
    } else if s == Gamepad {
      GamepadQuits(st);
    } else if s == Video {
      VideoQuits(st);
    } else {
      OthersQuit(st, s);
    }
  }

  lemma QuitStillCounted(st: Status, s: Subsystem)
    requires RunsIffCounted(st.count, st.running, {})
    ensures RunsIffCounted(QuitOne(st, true, s).count, QuitOne(st, true, s).running, {})
    ensures QuitOne(st, true, s).log == st.log + FlagStops(st.running, s)
    ensures QuitOne(st, true, s).running == FlagLeaves(st.running, s)
  {
    FlagQuits(st, s);
  }

  lemma Joined(a: seq<Event>, b: seq<Event>, c: seq<Event>)
    ensures (a + b) + c == a + (b + c)
  {
  }

  lemma {:induction false} ShutDownStops(st: Status, i: nat)
    requires i <= |QUIT_ORDER| && RunsIffCounted(st.count, st.running, {})
    ensures QuitFrom(st, true, ALL, i).log == st.log + StopsFrom(st.running, i)
    decreases |QUIT_ORDER| - i
  {
    if i < |QUIT_ORDER| {
      var s := QUIT_ORDER[i];
      QuitStillCounted(st, s);
      ShutDownStops(QuitOne(st, true, s), i + 1);
      Joined(st.log, FlagStops(st.running, s), StopsFrom(FlagLeaves(st.running, s), i + 1));
    }
  }

  // ----- the order of the stops -----

  /** What is stopped or started, one after the other, but for events. */
  function Others(events: seq<Event>): seq<Subsystem> {
    if events == [] then []
    else Others(events[..|events| - 1]) + if events[|events| - 1].s == Events then [] else [events[|events| - 1].s]
  }

  lemma {:induction false} OthersJoin(a: seq<Event>, b: seq<Event>)
    ensures Others(a + b) == Others(a) + Others(b)
  {
    if b == [] {
      assert a + b == a;
    } else {
      var front := b[..|b| - 1];
      OthersJoin(a, front);
      assert (a + b)[..|a + b| - 1] == a + front;
    }
  }

  lemma OthersOne(e: Event)
    ensures Others([e]) == if e.s == Events then [] else [e.s]
  {
    assert Others([e][..0]) == [];
  }

  /** The members of `some` in the order `order`. */
  function Listed(order: seq<Subsystem>, some: set<Subsystem>): seq<Subsystem> {
    if order == [] then [] else (if order[0] in some then [order[0]] else []) + Listed(order[1..], some)
  }

  lemma {:induction false} ListedSame(order: seq<Subsystem>, some: set<Subsystem>, more: set<Subsystem>)
    requires forall s :: s in order ==> (s in some <==> s in more)
    ensures Listed(order, some) == Listed(order, more)
  {
    if order != [] {
      ListedSame(order[1..], some, more);
    }
  }

  lemma FlagOthers(running: set<Subsystem>, s: Subsystem)
    requires s != Gamepad
    ensures Others(FlagStops(running, s)) == if s in running && s != Events then [s] else []
    ensures forall t: Subsystem :: t != Events ==> (t in FlagLeaves(running, s) <==> t in running && t != s)
  {
    OthersOne(Stop(s, true));
    if s in running && Needs(s).On? {
      assert Needs(s) == On(Events);
      EventsOthers(running);
      EventsOthers(running - {s});
      OthersJoin(FlagStops(running, Events), [Stop(s, true)]);
      OthersJoin([Stop(s, true)], FlagStops(running - {s}, Events));
    }
  }

  lemma EventsOthers(running: set<Subsystem>)
    ensures Others(FlagStops(running, Events)) == []
    ensures forall t: Subsystem :: t != Events ==> (t in FlagLeaves(running, Events) <==> t in running)
  {
    OthersOne(Stop(Events, true));
  }

  lemma GamepadOthers(running: set<Subsystem>)
    ensures Others(FlagStops(running, Gamepad)) == if Gamepad in running then Listed([Gamepad, Joystick], running) else []
    ensures forall t: Subsystem :: t != Events ==>
              (t in FlagLeaves(running, Gamepad) <==> t in running && (Gamepad in running ==> t != Gamepad && t != Joystick))
  {
    if Gamepad in running {
      var left := running - {Gamepad};
      FlagOthers(left, Joystick);
      OthersOne(Stop(Gamepad, true));
      OthersJoin([Stop(Gamepad, true)], FlagStops(left, Joystick));
      assert FlagStops(running, Gamepad) == [Stop(Gamepad, true)] + FlagStops(left, Joystick);
      assert Listed([Joystick], running) == Others(FlagStops(left, Joystick));
    }
  }

  /** Cameras go first and video goes last. */
  const STOP_ORDER: seq<Subsystem> := [Camera, Sensor, Gamepad, Joystick, Haptic, Audio, Video]

  lemma StopListed(running: set<Subsystem>, left: set<Subsystem>, i: nat)
    requires i < 7 && STOP_ORDER[i] != Gamepad
    requires forall t: Subsystem :: t != Events ==> (t in left <==> t in running && t != STOP_ORDER[i])
    ensures Listed(STOP_ORDER[i..], running) ==
            (if STOP_ORDER[i] in running then [STOP_ORDER[i]] else []) + Listed(STOP_ORDER[i + 1..], left)
  {
    assert STOP_ORDER[i..][1..] == STOP_ORDER[i + 1..];
    ListedSame(STOP_ORDER[i + 1..], left, running);
  }

  lemma {:induction false} ListedJoin(a: seq<Subsystem>, b: seq<Subsystem>, some: set<Subsystem>)
    ensures Listed(a + b, some) == Listed(a, some) + Listed(b, some)
  {
    if a == [] {
      assert a + b == b;
    } else {
      ListedJoin(a[1..], b, some);
      assert (a + b)[1..] == a[1..] + b;
    }
  }

  lemma GamepadListed(running: set<Subsystem>, left: set<Subsystem>, rest: seq<Subsystem>)
    requires Gamepad !in rest && Joystick !in rest && Events !in rest
    requires forall t: Subsystem :: t != Events ==>
               (t in left <==> t in running && (Gamepad in running ==> t != Gamepad && t != Joystick))
    ensures Listed([Gamepad, Joystick] + rest, running) ==
            (if Gamepad in running then Listed([Gamepad, Joystick], running) else []) + Listed([Joystick] + rest, left)
  {
    ListedSame(rest, left, running);
    ListedJoin([Gamepad, Joystick], rest, running);
    ListedJoin([Joystick], rest, left);
    assert [Gamepad, Joystick][1..] == [Joystick];
  }

  lemma StopsTaken(running: set<Subsystem>, i: nat)
    requires i < |QUIT_ORDER|
    ensures var s := QUIT_ORDER[i];
            Others(StopsFrom(running, i)) == Others(FlagStops(running, s)) + Others(StopsFrom(FlagLeaves(running, s), i + 1))
  {
    OthersJoin(FlagStops(running, QUIT_ORDER[i]), StopsFrom(FlagLeaves(running, QUIT_ORDER[i]), i + 1));
  }

  lemma FlagListed(running: set<Subsystem>, i: nat)
    requires i < 7
    ensures Listed(STOP_ORDER[i..], running) ==
            Others(FlagStops(running, QUIT_ORDER[i])) + Listed(STOP_ORDER[i + 1..], FlagLeaves(running, QUIT_ORDER[i]))
  {
    if QUIT_ORDER[i] == Gamepad {
      GamepadOthers(running);
      GamepadListed(running, FlagLeaves(running, Gamepad), STOP_ORDER[4..]);
      assert STOP_ORDER[2..] == [Gamepad, Joystick] + STOP_ORDER[4..] && STOP_ORDER[3..] == [Joystick] + STOP_ORDER[4..];
    } else {
      FlagOthers(running, QUIT_ORDER[i]);
      StopListed(running, FlagLeaves(running, QUIT_ORDER[i]), i);
    }
  }

  lemma {:induction false} StopsListed(running: set<Subsystem>, i: nat)
    requires i <= 7
    ensures Others(StopsFrom(running, i)) == Listed(STOP_ORDER[i..], running)
    decreases 7 - i
  {
    StopsTaken(running, i);
    if i < 7 {
      FlagListed(running, i);
      StopsListed(FlagLeaves(running, QUIT_ORDER[i]), i + 1);
    } else {
      FlagOthers(running, Events);
    }
  }

  // ----- which stops keep the order -----

  /** What needs the events subsystem. */
  const NEED_EVENTS: set<Subsystem> := {Video, Audio, Joystick, Camera, Sensor}

  /** The running sets that the shutdown takes down in order. */
  predicate InOrder(running: set<Subsystem>) {
    Video !in running && |running * NEED_EVENTS| <= 1
  }

  /** Before, between and after the stops everything that runs has what it needs. */
  ghost predicate OrderKept(running: set<Subsystem>, stops: seq<Event>) {
    Closed(running) && (stops != [] ==> OrderKept(running - {stops[0].s}, stops[1..]))
  }

  /** Where nothing needs anything, stops come in any order. */
  lemma {:induction false} NothingNeeded(running: set<Subsystem>, stops: seq<Event>)
    requires running * NEED_EVENTS == {} && Closed(running)
    ensures OrderKept(running, stops)
  {
    if stops != [] {
      NoneNeeds(running);
      NothingNeeded(running - {stops[0].s}, stops[1..]);
    }
  }

  lemma GamepadNeedsJoystick(running: set<Subsystem>)
    requires Closed(running) && Gamepad in running
    ensures Joystick in running
  {
    assert Needs(Gamepad) == On(Joystick);
  }

  lemma NoneNeeds(running: set<Subsystem>)
    requires running * NEED_EVENTS == {} && Closed(running)
    ensures forall s :: s in running ==> Needs(s).Nothing?
  {
    forall s | s in NEED_EVENTS
      ensures s !in running
    {
      assert s !in running * NEED_EVENTS;
    }
    assert Joystick in NEED_EVENTS && Joystick !in running;
    if Gamepad in running {
      GamepadNeedsJoystick(running);
      assert false;
    }
  }

  /** Stopping events breaks the order if anything that needs them is left. */
  lemma EventsStopped(running: set<Subsystem>, stops: seq<Event>)
    requires Closed(running) && stops != [] && stops[0].s == Events
    ensures OrderKept(running, stops) <==> running * NEED_EVENTS == {}
  {
    var left := running - {Events};
    if running * NEED_EVENTS == {} {
      NothingNeeded(running, stops);
    } else {
      var s :| s in running * NEED_EVENTS;
      assert s in left && Needs(s) == On(Events);
    }
  }

  lemma AtMostOne(running: set<Subsystem>, s: Subsystem)
    requires s in running * NEED_EVENTS && s != Video
    ensures InOrder(running) <==> (running - {s}) * NEED_EVENTS == {}
  {
    assert running * NEED_EVENTS == (running - {s}) * NEED_EVENTS + {s};
    assert Video in running ==> Video in (running - {s}) * NEED_EVENTS;
  }

  lemma StillClosed(running: set<Subsystem>, s: Subsystem)
    requires Closed(running) && s != Events && (s == Joystick ==> Gamepad !in running)
    ensures Closed(running - {s})
  {
  }

  /** The first subsystem to go that needs events takes them along. */
  lemma FirstTakesEvents(running: set<Subsystem>, s: Subsystem, rest: seq<Event>)
    requires Closed(running) && s in running * NEED_EVENTS && s != Video && (s == Joystick ==> Gamepad !in running)
    ensures OrderKept(running, FlagStops(running, s) + rest) <==> InOrder(running)
  {
    var stops := FlagStops(running, s) + rest;
    assert Needs(s) == On(Events) && Events in running;
    StillClosed(running, s);
    assert FlagStops(running - {s}, Events) == [Stop(Events, true)];
    assert stops[1..] == [Stop(Events, true)] + rest;
    AtMostOne(running, s);
    EventsStopped(running - {s}, stops[1..]);
  }

  /** Video, even alone, stops events while its drivers are still up. */
  lemma VideoIsLate(running: set<Subsystem>, rest: seq<Event>)
    requires Closed(running) && Video in running
    ensures !OrderKept(running, FlagStops(running, Video) + rest)
  {
    assert Needs(Video) == On(Events) && Events in running;
    assert FlagStops(running, Events) == [Stop(Events, true)];
    var stops := FlagStops(running, Video) + rest;
    assert stops[0] == Stop(Events, true);
    assert Video in running * NEED_EVENTS;
    EventsStopped(running, stops);
  }

  lemma GamepadTakesEvents(running: set<Subsystem>, rest: seq<Event>)
    requires Closed(running) && Gamepad in running
    ensures OrderKept(running, FlagStops(running, Gamepad) + rest) <==> InOrder(running)
  {
    var left := running - {Gamepad};
    GamepadNeedsJoystick(running);
    StillClosed(running, Gamepad);
    var stops := FlagStops(running, Gamepad) + rest;
    assert stops == [Stop(Gamepad, true)] + (FlagStops(left, Joystick) + rest);
    assert stops[1..] == FlagStops(left, Joystick) + rest;
    FirstTakesEvents(left, Joystick, rest);
    assert left * NEED_EVENTS == running * NEED_EVENTS;
  }

  /** Nothing but events is left for the last flag. */
  lemma OnlyEventsLeft(running: set<Subsystem>, i: nat)
    requires 7 <= i <= |QUIT_ORDER| && EarlierGone(running, i)
    ensures running * NEED_EVENTS == {}
  {
    forall s | s in NEED_EVENTS
      ensures s !in running
    {
      match s
      case Camera => assert QUIT_ORDER[0] == s;
      case Sensor => assert QUIT_ORDER[1] == s;
      case Joystick => assert QUIT_ORDER[3] == s;
      case Audio => assert QUIT_ORDER[5] == s;
      case Video => assert QUIT_ORDER[6] == s;
    }
  }

  /** No flag before the `i`-th is running any more. */
  ghost predicate EarlierGone(running: set<Subsystem>, i: nat)
    requires i <= |QUIT_ORDER|
  {
    forall j :: 0 <= j < i ==> QUIT_ORDER[j] !in running
  }

  /** Haptic devices need nothing and nothing needs them. */
  lemma LoneFlag(running: set<Subsystem>, s: Subsystem, rest: seq<Event>)
    requires Closed(running) && s in running && s == Haptic
    ensures Closed(running - {s}) && FlagLeaves(running, s) == running - {s}
    ensures OrderKept(running, FlagStops(running, s) + rest) <==> OrderKept(running - {s}, rest)
    ensures (running - {s}) * NEED_EVENTS == running * NEED_EVENTS
  {
    StillClosed(running, s);
    assert (FlagStops(running, s) + rest)[1..] == rest;
  }

  /** The first flag that runs and needs events decides. */
  lemma FlagDecides(running: set<Subsystem>, i: nat, rest: seq<Event>)
    requires i < |QUIT_ORDER| && Closed(running) && QUIT_ORDER[i] in running
    requires EarlierGone(running, i)
    requires QUIT_ORDER[i] == Gamepad || QUIT_ORDER[i] in NEED_EVENTS
    ensures OrderKept(running, FlagStops(running, QUIT_ORDER[i]) + rest) <==> InOrder(running)
  {
    if QUIT_ORDER[i] == Gamepad {
      GamepadTakesEvents(running, rest);
    } else if QUIT_ORDER[i] == Video {
      VideoIsLate(running, rest);
    } else {
      assert QUIT_ORDER[i] == Joystick ==> QUIT_ORDER[2] !in running;
      FirstTakesEvents(running, QUIT_ORDER[i], rest);
    }
  }

  lemma FlagKind(i: nat)
    requires i < 7
    ensures QUIT_ORDER[i] == Gamepad || QUIT_ORDER[i] in NEED_EVENTS || QUIT_ORDER[i] == Haptic
  {
  }

  ghost predicate Decided(running: set<Subsystem>, i: nat)
    requires i <= |QUIT_ORDER|
  {
    OrderKept(running, StopsFrom(running, i)) <==> InOrder(running)
  }

  lemma LoneFlagDecided(running: set<Subsystem>, i: nat)
    requires i < |QUIT_ORDER| && Closed(running) && QUIT_ORDER[i] in running && QUIT_ORDER[i] == Haptic
    requires Decided(running - {QUIT_ORDER[i]}, i + 1)
    ensures Decided(running, i)
  {
    var s := QUIT_ORDER[i];
    var left := running - {s};
    LoneFlag(running, s, StopsFrom(left, i + 1));
    FlagTaken(running, i, FlagStops(running, s), left);
  }

  lemma FirstFlagDecided(running: set<Subsystem>, i: nat)
    requires i < |QUIT_ORDER| && Closed(running) && QUIT_ORDER[i] in running
    requires EarlierGone(running, i)
    requires QUIT_ORDER[i] == Gamepad || QUIT_ORDER[i] in NEED_EVENTS
    ensures Decided(running, i)
  {
    var left := FlagLeaves(running, QUIT_ORDER[i]);
    FlagDecides(running, i, StopsFrom(left, i + 1));
    FlagTaken(running, i, FlagStops(running, QUIT_ORDER[i]), left);
  }

  lemma EndDecided(running: set<Subsystem>, i: nat)
    requires 7 <= i <= |QUIT_ORDER| && Closed(running)
    requires EarlierGone(running, i)
    ensures Decided(running, i)
  {
    OnlyEventsLeft(running, i);
    NothingNeeded(running, StopsFrom(running, i));
    assert Video !in running * NEED_EVENTS && |running * NEED_EVENTS| == 0;
  }

  lemma SkippedDecided(running: set<Subsystem>, i: nat)
    requires i < |QUIT_ORDER| && QUIT_ORDER[i] !in running && Decided(running, i + 1)
    ensures Decided(running, i)
  {
    FlagSkipped(running, i);
  }

  lemma NextGone(running: set<Subsystem>, left: set<Subsystem>, i: nat)
    requires i < |QUIT_ORDER| && EarlierGone(running, i) && left == running - {QUIT_ORDER[i]}
    ensures EarlierGone(left, i + 1)
  {
  }

  lemma {:induction false} OrderFrom(running: set<Subsystem>, i: nat)
    requires i <= |QUIT_ORDER| && Closed(running) && EarlierGone(running, i)
    ensures Decided(running, i)
    decreases |QUIT_ORDER| - i
  {
    if i >= 7 {
      EndDecided(running, i);
    } else {
      var s := QUIT_ORDER[i];
      var left := running - {s};
      FlagKind(i);
      NextGone(running, left, i);
      if s !in running {
        assert left == running;
        OrderFrom(running, i + 1);
        SkippedDecided(running, i);
      } else if s == Haptic {
        StillClosed(running, s);
        OrderFrom(left, i + 1);
        LoneFlagDecided(running, i);
      } else {
        FirstFlagDecided(running, i);
      }
    }
  }

  // ----- the shutdown as it is logged -----

  /** The log passes only through states in which everything has what it needs. */
  ghost predicate OrderKeptInLog(log: seq<Event>, from: nat) {
    forall k :: from <= k <= |log| ==> Closed(RunningAfter(log[..k]))
  }

  lemma {:induction false} LogKeepsOrder(log: seq<Event>, stops: seq<Event>)
    requires OnlyForcedStops(stops)
    ensures OrderKeptInLog(log + stops, |log|) <==> OrderKept(RunningAfter(log), stops)
    decreases |stops|
  {
    var all := log + stops;
    assert all[..|log|] == log;
    if stops == [] {
      assert all == log;
    } else {
      var more, rest := log + [stops[0]], stops[1..];
      assert all == more + rest && more[..|more| - 1] == log;
      assert RunningAfter(more) == RunningAfter(log) - {stops[0].s};
      LogKeepsOrder(more, rest);
      assert OrderKeptInLog(all, |log|) <==> Closed(RunningAfter(log)) && OrderKeptInLog(all, |log| + 1);
    }
  }

  /** `SDL_Quit` stops everything in the order of the dependencies if and only if
      video does not run and at most one of the audio, joystick, camera and sensor
      subsystems does; a caller can ask SDL_WasInit for their counts. */
  lemma ShutDownKeepsOrderIffFew(st: Status, explicit: Counts)
    requires Balances(st, explicit, {})
    ensures OrderKeptInLog(Quit(st, true, ALL).log, |st.log|) <==>
            Video !in st.running && |st.running * NEED_EVENTS| <= 1
    ensures st.running * NEED_EVENTS == set s | s in NEED_EVENTS && st.count.At(s) > 0
  {
    ShutDownLog(st, explicit);
    BalancedIsClosed(explicit, st.count, st.running, {});
    OrderFrom(st.running, 0);
    LogKeepsOrder(st.log, StopsFrom(st.running, 0));
    assert forall s :: s in st.running <==> st.count.At(s) > 0;
  }

  lemma ShutDownLog(st: Status, explicit: Counts)
    requires Balances(st, explicit, {})
    ensures Quit(st, true, ALL).log == st.log + StopsFrom(st.running, 0)
    ensures OnlyForcedStops(StopsFrom(st.running, 0)) && st.running == RunningAfter(st.log)
  {
    ShutDownEmpties(st, explicit);
    ShutDownStops(st, 0);
    assert Quit(st, true, ALL).log[|st.log|..] == StopsFrom(st.running, 0);
  }

  /** `SDL_Quit` stops what runs, but for events, in this order. */
  lemma ShutDownGoesDown(st: Status, explicit: Counts)
    requires Balances(st, explicit, {})
    ensures st.log <= Quit(st, true, ALL).log
    ensures Others(Quit(st, true, ALL).log[|st.log|..]) ==
            Listed([Camera, Sensor, Gamepad, Joystick, Haptic, Audio, Video], st.running)
  {
    ShutDownLog(st, explicit);
    StopsListed(st.running, 0);
    assert Quit(st, true, ALL).log[|st.log|..] == StopsFrom(st.running, 0);
    assert STOP_ORDER[0..] == [Camera, Sensor, Gamepad, Joystick, Haptic, Audio, Video];
  }

  // ----- programs that break the order -----

  /** A program that initialises `flags` and then calls `SDL_Quit`. */
  ghost predicate OutOfOrder(starts: Starts, flags: set<Subsystem>) {
    var (st, ok) := Init(Status(NONE, {}, []), false, starts, flags);
    ok && !OrderKeptInLog(Quit(st, true, ALL).log, |st.log|)
  }

  lemma FreshStart(starts: Starts, flags: set<Subsystem>)
    requires forall s :: s in RunningFor(Requested(NONE, flags)) ==> starts(s)
    ensures var (st, ok) := Init(Status(NONE, {}, []), false, starts, flags);
            ok && Balances(st, Requested(NONE, flags), {}) && st.running == RunningFor(Requested(NONE, flags))
  {
    NothingBalanced();
    FreshFits(flags);
    InitIsAllOrNothing(Status(NONE, {}, []), starts, NONE, flags);
    var (st, ok) := Init(Status(NONE, {}, []), false, starts, flags);
    BalancedIsDetermined(Requested(NONE, flags), st.count, st.running);
  }

  lemma BreaksOrder(starts: Starts, flags: set<Subsystem>)
    requires forall s :: s in RunningFor(Requested(NONE, flags)) ==> starts(s)
    requires !InOrder(RunningFor(Requested(NONE, flags)))
    ensures OutOfOrder(starts, flags)
  {
    FreshStart(starts, flags);
    ShutDownKeepsOrderIffFew(Init(Status(NONE, {}, []), false, starts, flags).0, Requested(NONE, flags));
  }

  /** Video alone: its quit function stops events before its drivers. */
  lemma VideoOutOfOrder(starts: Starts)
    requires starts(Video) && starts(Events)
    ensures OutOfOrder(starts, {Video})
  {
    VideoRuns();
    BreaksOrder(starts, {Video});
  }

  lemma VideoRuns()
    ensures RunningFor(Requested(NONE, {Video})) == {Video, Events}
  {
  }

  /** Audio and sensors: quitting sensors stops events while audio still runs. */
  lemma AudioAndSensorsOutOfOrder(starts: Starts)
    requires starts(Audio) && starts(Sensor) && starts(Events)
    ensures OutOfOrder(starts, {Audio, Sensor})
  {
    AudioAndSensorsRun();
    assert {Audio, Sensor, Events} * NEED_EVENTS == {Audio, Sensor};
    BreaksOrder(starts, {Audio, Sensor});
  }

  lemma AudioAndSensorsRun()
    ensures RunningFor(Requested(NONE, {Audio, Sensor})) == {Audio, Sensor, Events}
  {
  }

  lemma AudioAndVideoShutDown(st: Status, explicit: Counts)
    requires Balances(st, explicit, {}) && st.running == {Audio, Video, Events}
    ensures Quit(st, true, ALL).log == st.log + [Stop(Audio, true), Stop(Events, true), Stop(Video, true)]
    ensures !OrderKeptInLog(Quit(st, true, ALL).log, |st.log|)
  {
    ShutDownLog(st, explicit);
    AudioAndVideoStops();
    ShutDownKeepsOrderIffFew(st, explicit);
  }

  /** Audio and video, stop by stop: events stop while video still runs. */
  lemma AudioAndVideoOutOfOrder(starts: Starts)
    requires starts(Audio) && starts(Video) && starts(Events)
    ensures var (st, ok) := Init(Status(NONE, {}, []), false, starts, {Audio, Video});
            var log := Quit(st, true, ALL).log;
            && ok
            && log == st.log + [Stop(Audio, true), Stop(Events, true), Stop(Video, true)]
            && !OrderKeptInLog(log, |st.log|)
  {
    AudioAndVideoRun();
    FreshStart(starts, {Audio, Video});
    AudioAndVideoShutDown(Init(Status(NONE, {}, []), false, starts, {Audio, Video}).0, Requested(NONE, {Audio, Video}));
  }

  lemma AudioAndVideoRun()
    ensures RunningFor(NONE) == {} && RunningFor(Requested(NONE, {Audio, Video})) == {Audio, Video, Events}
  {
  }

  lemma AudioStops()
    ensures FlagStops({Audio, Video, Events}, Audio) == [Stop(Audio, true), Stop(Events, true)]
    ensures FlagLeaves({Audio, Video, Events}, Audio) == {Video}
  {
    var running: set<Subsystem> := {Audio, Video, Events};
    assert FlagStops(running - {Audio}, Events) == [Stop(Events, true)];
    assert FlagLeaves(running - {Audio}, Events) == running - {Audio} - {Events} == {Video};
  }

  lemma VideoStops()
    ensures FlagStops({Video}, Video) == [Stop(Video, true)] && FlagLeaves({Video}, Video) == {}
  {
    var none: set<Subsystem> := {};
    assert {Video} - {Video} == none;
    assert FlagStops(none, Events) == [] && FlagLeaves(none, Events) == none;
  }

  lemma {:induction false} FlagsSkipped(running: set<Subsystem>, i: nat, j: nat)
    requires i <= j <= |QUIT_ORDER| && forall k :: i <= k < j ==> QUIT_ORDER[k] !in running
    ensures StopsFrom(running, i) == StopsFrom(running, j)
    decreases j - i
  {
    if i < j {
      FlagSkipped(running, i);
      FlagsSkipped(running, i + 1, j);
    }
  }

  lemma NothingBeforeAudio()
    ensures StopsFrom({Audio, Video, Events}, 0) == StopsFrom({Audio, Video, Events}, 5)
  {
    FlagsSkipped({Audio, Video, Events}, 0, 5);
  }

  lemma VideoIsLast()
    ensures StopsFrom({Video}, 6) == [Stop(Video, true)]
  {
    VideoStops();
    FlagTaken({Video}, 6, [Stop(Video, true)], {});
    FlagSkipped({}, 7);
  }

  lemma AudioAndVideoStops()
    ensures StopsFrom({Audio, Video, Events}, 0) == [Stop(Audio, true), Stop(Events, true), Stop(Video, true)]
  {
    NothingBeforeAudio();
    AudioStops();
    FlagTaken({Audio, Video, Events}, 5, [Stop(Audio, true), Stop(Events, true)], {Video});
    VideoIsLast();
  }
}
