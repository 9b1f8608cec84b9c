/** SDL.c: the reference counts of the subsystems, changed step by step. */
module SdlInit {
  import opened Subsystems

  /** The order in which the flags are looked at. */
  const INIT_ORDER: seq<Subsystem> := [Events, Video, Audio, Joystick, Gamepad, Haptic, Sensor, Camera]
  const QUIT_ORDER: seq<Subsystem> := [Camera, Sensor, Gamepad, Joystick, Haptic, Audio, Video, Events]

  /** Whether the drivers of a subsystem would come up. Within one call no
      subsystem's drivers are tried twice. */
  type Starts = Subsystem -> bool

  // ----- what the calls do, as functions of the state -----

  /** The quit function of a subsystem. It is stopped where its drivers are quit:
      joysticks and sensors release their own request after that, video before. */
  function StopBackend(st: Status, forced: bool, s: Subsystem): Status
    decreases Rank(s), 0
  {
    match OwnRequest(s)
    case Nothing => Stopped(st, s, forced)
    case On(d) =>
      if s == Video then Stopped(QuitOne(st, forced, d), s, forced) else QuitOne(Stopped(st, s, forced), forced, d)
  }

  /** One flag of `SDL_QuitSubSystem`. */
  function QuitOne(st: Status, forced: bool, s: Subsystem): Status
    decreases Rank(s), 1
  {
    var after :=
      if !ShouldQuit(st.count, s, forced) then st
      else if Implies(s).On? then QuitOne(StopBackend(st, forced, s), forced, Implies(s).subsystem)
      else StopBackend(st, forced, s);
    after.(count := Decremented(after.count, s, forced))
  }

  function QuitFrom(st: Status, forced: bool, flags: set<Subsystem>, i: nat): Status
    requires i <= |QUIT_ORDER|
    decreases |QUIT_ORDER| - i
  {
    if i == |QUIT_ORDER| then st
    else QuitFrom(if QUIT_ORDER[i] in flags then QuitOne(st, forced, QUIT_ORDER[i]) else st, forced, flags, i + 1)
  }

  function Quit(st: Status, forced: bool, flags: set<Subsystem>): Status {
    QuitFrom(st, forced, flags, 0)
  }

  /** The init function of a subsystem: its own request, if it makes one, and its
      drivers; the request is released if the drivers fail. */
  function StartBackend(st: Status, forced: bool, starts: Starts, s: Subsystem): (Status, bool)
    decreases Rank(s), 0
  {
    match OwnRequest(s)
    case Nothing => if starts(s) then (Started(st, s), true) else (st, false)
    case On(d) =>
      var (held, ok) := InitOne(st, forced, starts, d);
      if !ok then (held, false)
      else if starts(s) then (Started(held, s), true)
      else (QuitOne(held, forced, d), false)
  }

  /** One flag of `SDL_InitSubSystem`. */
  function InitOne(st: Status, forced: bool, starts: Starts, s: Subsystem): (Status, bool)
    decreases Rank(s), 1
  {
    if st.count.At(s) > 0 then (st.(count := Incremented(st.count, s)), true)
    else
      var (held, ok) := if Implies(s).On? then Hold(st, forced, starts, Implies(s).subsystem) else (st, true);
      if !ok then (held, false)
      else
        var (started, up) := StartBackend(held.(count := Incremented(held.count, s)), forced, starts, s);
        if up then (started, true)
        else
          var undone := started.(count := Decremented(started.count, s, forced));
          (if Implies(s).On? then QuitOne(undone, forced, Implies(s).subsystem) else undone, false)
  }

  /** `SDL_InitOrIncrementSubsystem`. */
  function Hold(st: Status, forced: bool, starts: Starts, s: Subsystem): (Status, bool)
    decreases Rank(s), 2
  {
    if st.count.At(s) > 0 then (st.(count := Incremented(st.count, s)), true) else InitOne(st, forced, starts, s)
  }

  function InitFrom(st: Status, forced: bool, starts: Starts, flags: set<Subsystem>, i: nat, done: set<Subsystem>): (Status, bool)
    requires i <= |INIT_ORDER|
    decreases |INIT_ORDER| - i
  {
    if i == |INIT_ORDER| then (st, true)
    else if INIT_ORDER[i] !in flags then InitFrom(st, forced, starts, flags, i + 1, done)
    else
      var (next, ok) := InitOne(st, forced, starts, INIT_ORDER[i]);
      if ok then InitFrom(next, forced, starts, flags, i + 1, done + {INIT_ORDER[i]})
      else (Quit(next, forced, done), false)
  }

  function Init(st: Status, forced: bool, starts: Starts, flags: set<Subsystem>): (Status, bool) {
    InitFrom(st, forced, starts, flags, 0, {})
  }

  // ----- a single flag -----

  function PlaceOf(order: seq<Subsystem>, s: Subsystem): (i: nat)
    requires s in order
    ensures i < |order| && order[i] == s
    ensures forall j :: 0 <= j < i ==> order[j] != s
  {
    if order[0] == s then 0 else 1 + PlaceOf(order[1..], s)
  }

  ghost predicate OnceEach(order: seq<Subsystem>) {
    && (forall s: Subsystem :: s in order)
    && (forall i, j :: 0 <= i < j < |order| ==> order[i] != order[j])
  }

  lemma OrdersListAll()
    ensures OnceEach(INIT_ORDER) && OnceEach(QUIT_ORDER)
  {
    forall s: Subsystem
      ensures s in INIT_ORDER && s in QUIT_ORDER
    {
      match s
      case Events => assert INIT_ORDER[0] == s == QUIT_ORDER[7];
      case Video => assert INIT_ORDER[1] == s == QUIT_ORDER[6];
      case Audio => assert INIT_ORDER[2] == s == QUIT_ORDER[5];
      case Joystick => assert INIT_ORDER[3] == s == QUIT_ORDER[3];
      case Gamepad => assert INIT_ORDER[4] == s == QUIT_ORDER[2];
      case Haptic => assert INIT_ORDER[5] == s == QUIT_ORDER[4];
      case Sensor => assert INIT_ORDER[6] == s == QUIT_ORDER[1];
      case Camera => assert INIT_ORDER[7] == s == QUIT_ORDER[0];
    }
  }

  lemma {:induction false} QuitFromSingle(st: Status, forced: bool, s: Subsystem, k: nat, i: nat)
    requires k < |QUIT_ORDER| && QUIT_ORDER[k] == s && i <= |QUIT_ORDER|
    requires forall j :: 0 <= j < |QUIT_ORDER| && j != k ==> QUIT_ORDER[j] != s
    ensures QuitFrom(st, forced, {s}, i) == if i <= k then QuitOne(st, forced, s) else st
    decreases |QUIT_ORDER| - i
  {
    if i < |QUIT_ORDER| {
      QuitFromSingle(if i == k then QuitOne(st, forced, s) else st, forced, s, k, i + 1);
    }
  }

  lemma QuitSingle(st: Status, forced: bool, s: Subsystem)
    ensures Quit(st, forced, {s}) == QuitOne(st, forced, s)
  {
    OrdersListAll();
    QuitFromSingle(st, forced, s, PlaceOf(QUIT_ORDER, s), 0);
  }

  lemma {:induction false} QuitFromNone(st: Status, forced: bool, i: nat)
    requires i <= |QUIT_ORDER|
    ensures QuitFrom(st, forced, {}, i) == st
    decreases |QUIT_ORDER| - i
  {
    if i < |QUIT_ORDER| {
      QuitFromNone(st, forced, i + 1);
    }
  }

  lemma {:induction false} InitFromSingle(st: Status, forced: bool, starts: Starts, s: Subsystem, k: nat, i: nat, done: set<Subsystem>)
    requires k < |INIT_ORDER| && INIT_ORDER[k] == s && i <= |INIT_ORDER| && (i <= k ==> done == {})
    requires forall j :: 0 <= j < |INIT_ORDER| && j != k ==> INIT_ORDER[j] != s
    ensures InitFrom(st, forced, starts, {s}, i, done) == if i <= k then InitOne(st, forced, starts, s) else (st, true)
    decreases |INIT_ORDER| - i
  {
    if i == k {
      var (next, ok) := InitOne(st, forced, starts, s);
      if ok {
        InitFromSingle(next, forced, starts, s, k, i + 1, done + {s});
      } else {
        QuitFromNone(next, forced, 0);
      }
    } else if i < |INIT_ORDER| {
      InitFromSingle(st, forced, starts, s, k, i + 1, done);
    }
  }

  lemma InitSingle(st: Status, forced: bool, starts: Starts, s: Subsystem)
    ensures Init(st, forced, starts, {s}) == InitOne(st, forced, starts, s)
  {
    OrdersListAll();
    InitFromSingle(st, forced, starts, s, PlaceOf(INIT_ORDER, s), 0, {});
  }

  // ----- the code -----

  class Sdl {
    const mainIsReady: bool
    var refCount: Counts                  // SDL_SubsystemRefCount
    var inMainQuit: bool
    ghost var running: set<Subsystem>
    ghost var log: seq<Event>             // successful starts, and stops

    ghost function Now(): Status
      reads this
    {
      Status(refCount, running, log)
    }

    constructor (mainIsReady: bool)
      ensures !inMainQuit && Now() == Status(NONE, {}, []) && this.mainIsReady == mainIsReady
    {
      this.mainIsReady := mainIsReady;
      refCount, inMainQuit := NONE, false;
      running, log := {}, [];
    }

    method Increment(s: Subsystem)
      modifies this`refCount
      ensures refCount == Incremented(old(refCount), s)
    {
      refCount := refCount.With(s, (refCount.At(s) + 1) % 256);
    }

    method Decrement(s: Subsystem)
      modifies this`refCount
      ensures refCount == Decremented(old(refCount), s, inMainQuit)
    {
      if refCount.At(s) > 0 {
        if inMainQuit {
          refCount := refCount.With(s, 0);
        } else {
          refCount := refCount.With(s, refCount.At(s) - 1);
        }
      }
    }

    /** The drivers of a subsystem come up, or not. */
    method StartDrivers(s: Subsystem, starts: Starts) returns (ok: bool)
      modifies this`running, this`log
      ensures ok == starts(s)
      ensures Now() == if ok then Started(old(Now()), s) else old(Now())
    {
      ok := starts(s);
      if ok {
        log, running := log + [Start(s)], running + {s};
      }
    }

    method StopDrivers(s: Subsystem)
      modifies this`running, this`log
      ensures Now() == Stopped(old(Now()), s, inMainQuit)
    {
      log, running := log + [Stop(s, inMainQuit)], running - {s};
    }

    /** `SDL_VideoInit`, `SDL_InitJoysticks`, `SDL_InitSensors` and the others. */
    method BringUp(s: Subsystem, starts: Starts) returns (ok: bool)
      requires mainIsReady
      modifies this`refCount, this`running, this`log
      ensures (Now(), ok) == StartBackend(old(Now()), inMainQuit, starts, s)
      decreases Rank(s), 0
    {
      if OwnRequest(s).Nothing? {
        ok := StartDrivers(s, starts);
        return;
      }
      var d := OwnRequest(s).subsystem;
      InitSingle(Now(), inMainQuit, starts, d);
      ok := InitSubSystem({d}, starts, Rank(d));
      if !ok {
        return false;
      }
      ok := StartDrivers(s, starts);
      if !ok {
        QuitSingle(Now(), inMainQuit, d);
        QuitSubSystem({d}, Rank(d));
      }
    }

    /** `SDL_VideoQuit`, `SDL_QuitJoysticks`, `SDL_QuitSensors` and the others. */
    method ShutDown(s: Subsystem)
      modifies this`refCount, this`running, this`log
      ensures Now() == StopBackend(old(Now()), inMainQuit, s)
      decreases Rank(s), 0
    {
      if OwnRequest(s).Nothing? {
        StopDrivers(s);
      } else if s == Video {
        QuitSingle(Now(), inMainQuit, Events);
        QuitSubSystem({Events}, Rank(Events));
        StopDrivers(s);
      } else {
        StopDrivers(s);
        QuitSingle(Now(), inMainQuit, Events);
        QuitSubSystem({Events}, Rank(Events));
      }
    }

    method QuitFlag(s: Subsystem)
      modifies this`refCount, this`running, this`log
      ensures Now() == QuitOne(old(Now()), inMainQuit, s)
      decreases Rank(s), 1
    {
      if ShouldQuit(refCount, s, inMainQuit) {
        ShutDown(s);
        if Implies(s).On? {
          QuitSingle(Now(), inMainQuit, Implies(s).subsystem);
          QuitSubSystem({Implies(s).subsystem}, Rank(Implies(s).subsystem));
        }
      }
      Decrement(s);
    }

    /** `SDL_QuitSubSystem`. */
    method QuitSubSystem(flags: set<Subsystem>, ghost depth: nat)
      requires forall s :: s in flags ==> Rank(s) <= depth
      modifies this`refCount, this`running, this`log
      ensures Now() == Quit(old(Now()), inMainQuit, flags)
      decreases depth, 2
    {
      var i := 0;
      while i < |QUIT_ORDER|
        invariant 0 <= i <= |QUIT_ORDER| && inMainQuit == old(inMainQuit)
        invariant QuitFrom(Now(), inMainQuit, flags, i) == Quit(old(Now()), inMainQuit, flags)
      {
        if QUIT_ORDER[i] in flags {
          QuitFlag(QUIT_ORDER[i]);
        }
        i := i + 1;
      }
    }

    method InitFlag(s: Subsystem, starts: Starts) returns (ok: bool)
      requires mainIsReady
      modifies this`refCount, this`running, this`log
      ensures (Now(), ok) == InitOne(old(Now()), inMainQuit, starts, s)
      decreases Rank(s), 1
    {
      if refCount.At(s) == 0 {
        if Implies(s).On? {
          ok := InitOrIncrement(Implies(s).subsystem, starts);
          if !ok {
            return false;
          }
        }
        Increment(s);
        ok := BringUp(s, starts);
        if !ok {
          Decrement(s);
          if Implies(s).On? {
            QuitSingle(Now(), inMainQuit, Implies(s).subsystem);
            QuitSubSystem({Implies(s).subsystem}, Rank(Implies(s).subsystem));
          }
        }
      } else {
        Increment(s);
        ok := true;
      }
    }

    /** `SDL_InitOrIncrementSubsystem`. */
    method InitOrIncrement(s: Subsystem, starts: Starts) returns (ok: bool)
      requires mainIsReady
      modifies this`refCount, this`running, this`log
      ensures (Now(), ok) == Hold(old(Now()), inMainQuit, starts, s)
      decreases Rank(s), 3
    {
      if refCount.At(s) > 0 {
        Increment(s);
        return true;
      }
      InitSingle(Now(), inMainQuit, starts, s);
      ok := InitSubSystem({s}, starts, Rank(s));
    }

    /** `SDL_InitSubSystem`. */
    method InitSubSystem(flags: set<Subsystem>, starts: Starts, ghost depth: nat) returns (ok: bool)
      requires forall s :: s in flags ==> Rank(s) <= depth
      modifies this`refCount, this`running, this`log
      ensures (Now(), ok) == if mainIsReady then Init(old(Now()), inMainQuit, starts, flags) else (old(Now()), false)
      decreases depth, 2
    {
      if !mainIsReady {
        return false;
      }
      var flagsInitialized: set<Subsystem> := {};
      ok := true;
      var i := 0;
      while i < |INIT_ORDER|
        invariant 0 <= i <= |INIT_ORDER| && inMainQuit == old(inMainQuit) && ok
        invariant InitFrom(Now(), inMainQuit, starts, flags, i, flagsInitialized) == Init(old(Now()), inMainQuit, starts, flags)
      {
        if INIT_ORDER[i] in flags {
          ok := InitFlag(INIT_ORDER[i], starts);
          if !ok {
            QuitSubSystem(flagsInitialized, 2);
            return false;
          }
          flagsInitialized := flagsInitialized + {INIT_ORDER[i]};
        }
        i := i + 1;
      }
    }

    /** The part of `SDL_Quit` that concerns the subsystems. */
    method QuitAll()
      modifies this
      ensures !inMainQuit && Now() == Quit(old(Now()), true, ALL).(count := NONE)
    {
      inMainQuit := true;
      QuitSubSystem(ALL, 2);
      refCount := NONE;
      inMainQuit := false;
    }

    /** `SDL_WasInit`: without flags, every subsystem is asked for. */
    method WasInit(flags: set<Subsystem>) returns (initialized: set<Subsystem>)
      ensures forall s: Subsystem :: s in initialized <==> (flags == {} || s in flags) && refCount.At(s) > 0
    {
      OrdersListAll();
      var asked := if flags == {} then ALL else flags;
      initialized := {};
      var i := 0;
      while i < |INIT_ORDER|
        invariant 0 <= i <= |INIT_ORDER|
        invariant forall s: Subsystem :: s in initialized <==> s in asked && s in INIT_ORDER[..i] && refCount.At(s) > 0
      {
        if INIT_ORDER[i] in asked && refCount.At(INIT_ORDER[i]) > 0 {
          initialized := initialized + {INIT_ORDER[i]};
        }
        i := i + 1;
      }
      assert INIT_ORDER[..i] == INIT_ORDER;
    }
  }
}
