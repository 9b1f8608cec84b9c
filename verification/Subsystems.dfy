/** Which subsystems there are, what they need, and what the reference counts
    must be for a given set of outstanding requests. */
module Subsystems {
  datatype Subsystem = Audio | Video | Joystick | Haptic | Gamepad | Events | Sensor | Camera

  const ALL: set<Subsystem> := set s: Subsystem | true

  datatype Dependency = Nothing | On(subsystem: Subsystem)

  /** What SDL.c requests for `s` before it starts `s`. */
  function Implies(s: Subsystem): Dependency {
    match s
    case Video => On(Events)
    case Audio => On(Events)
    case Joystick => On(Events)
    case Camera => On(Events)
    case Gamepad => On(Joystick)
    case _ => Nothing
  }

  /** What the start of `s` requests for itself: SDL_VideoInit, SDL_InitJoysticks
      and SDL_InitSensors call SDL_InitSubSystem. */
  function OwnRequest(s: Subsystem): Dependency {
    if s in {Video, Joystick, Sensor} then On(Events) else Nothing
  }

  /** What has to run while `s` runs, and how many requests `s` holds on it. */
  function Needs(s: Subsystem): Dependency {
    if Implies(s).On? then Implies(s) else OwnRequest(s)
  }

  function Weight(s: Subsystem): nat {
    One(Implies(s).On?) + One(OwnRequest(s).On?)
  }

  function Rank(s: Subsystem): nat {
    match s
    case Gamepad => 2
    case Video => 1
    case Audio => 1
    case Joystick => 1
    case Camera => 1
    case Sensor => 1
    case _ => 0
  }

  // ----- counts -----

  /** A count for every subsystem. */
  datatype Counts = Counts(audio: nat, video: nat, joystick: nat, haptic: nat,
                           gamepad: nat, events: nat, sensor: nat, camera: nat) {
    function At(s: Subsystem): nat {
      match s
      case Audio => audio
      case Video => video
      case Joystick => joystick
      case Haptic => haptic
      case Gamepad => gamepad
      case Events => events
      case Sensor => sensor
      case Camera => camera
    }

    function With(s: Subsystem, n: nat): (r: Counts)
      ensures forall t: Subsystem :: r.At(t) == if t == s then n else At(t)
    {
      match s
      case Audio => this.(audio := n)
      case Video => this.(video := n)
      case Joystick => this.(joystick := n)
      case Haptic => this.(haptic := n)
      case Gamepad => this.(gamepad := n)
      case Events => this.(events := n)
      case Sensor => this.(sensor := n)
      case Camera => this.(camera := n)
    }
  }

  /** The counts that `f` gives. */
  function Tabulate(f: Subsystem -> nat): (r: Counts)
    ensures forall s: Subsystem :: r.At(s) == f(s)
  {
    Counts(f(Audio), f(Video), f(Joystick), f(Haptic), f(Gamepad), f(Events), f(Sensor), f(Camera))
  }

  lemma CountsEqual(c: Counts, d: Counts)
    requires forall s: Subsystem :: c.At(s) == d.At(s)
    ensures c == d
  {
    assert c.At(Audio) == d.At(Audio);
    assert c.At(Video) == d.At(Video);
    assert c.At(Joystick) == d.At(Joystick);
    assert c.At(Haptic) == d.At(Haptic);
    assert c.At(Gamepad) == d.At(Gamepad);
    assert c.At(Events) == d.At(Events);
    assert c.At(Sensor) == d.At(Sensor);
    assert c.At(Camera) == d.At(Camera);
  }

  const NONE: Counts := Counts(0, 0, 0, 0, 0, 0, 0, 0)

  function One(b: bool): nat {
    if b then 1 else 0
  }

  /** How many requests for `s` running subsystems hold. */
  function HeldBy(running: set<Subsystem>, s: Subsystem): nat {
    match s
    case Events =>
      2 * One(Video in running) + One(Audio in running) + 2 * One(Joystick in running) + One(Camera in running)
      + One(Sensor in running)
    case Joystick => One(Gamepad in running)
    case _ => 0
  }

  function Requested(explicit: Counts, flags: set<Subsystem>): Counts {
    Tabulate((s: Subsystem) => explicit.At(s) + One(s in flags))
  }

  function Released(explicit: Counts, flags: set<Subsystem>): Counts {
    Tabulate((s: Subsystem) => if s in flags && explicit.At(s) > 0 then explicit.At(s) - 1 else explicit.At(s))
  }

  // ----- the state that the requests determine -----

  predicate Needed(explicit: Counts, s: Subsystem) {
    match s
    case Events =>
      explicit.At(Events) > 0 || explicit.At(Video) > 0 || explicit.At(Audio) > 0 || explicit.At(Camera) > 0
      || explicit.At(Joystick) > 0 || explicit.At(Gamepad) > 0 || explicit.At(Sensor) > 0
    case Joystick => explicit.At(Joystick) > 0 || explicit.At(Gamepad) > 0
    case _ => explicit.At(s) > 0
  }

  /** The subsystems that run when the requests `explicit` are outstanding. */
  function RunningFor(explicit: Counts): set<Subsystem> {
    set s: Subsystem | Needed(explicit, s)
  }

  function CountsFor(explicit: Counts): Counts {
    Tabulate((s: Subsystem) => explicit.At(s) + HeldBy(RunningFor(explicit), s))
  }

  /** Every running subsystem has what it needs running. */
  predicate Closed(running: set<Subsystem>) {
    forall s: Subsystem :: s in running && Needs(s).On? ==> Needs(s).subsystem in running
  }

  /** Outside the subsystems `x` that are being stopped, a subsystem runs iff it is counted. */
  ghost predicate RunsIffCounted(count: Counts, running: set<Subsystem>, x: set<Subsystem>) {
    forall s: Subsystem :: if s in x then s !in running else (s in running <==> count.At(s) > 0)
  }

  /** Each count is the number of requests outstanding, those of running subsystems
      included; nothing that runs needs one being stopped. */
  ghost predicate Balanced(explicit: Counts, count: Counts, running: set<Subsystem>, x: set<Subsystem>) {
    && RunsIffCounted(count, running, x)
    && (forall s: Subsystem :: count.At(s) == explicit.At(s) + HeldBy(running, s))
    && (forall s :: s in x ==> HeldBy(running, s) == 0)
  }

  /** Counts and running subsystems are a function of the requests outstanding. */
  lemma BalancedIsDetermined(explicit: Counts, count: Counts, running: set<Subsystem>)
    ensures Balanced(explicit, count, running, {}) <==> count == CountsFor(explicit) && running == RunningFor(explicit)
  {
    if Balanced(explicit, count, running, {}) {
      forall s: Subsystem
        ensures s in running <==> s in RunningFor(explicit)
      {
        assert Gamepad in running <==> explicit.At(Gamepad) > 0;
        assert Joystick in running <==> Needed(explicit, Joystick);
      }
    }
  }

  lemma BalancedIsClosed(explicit: Counts, count: Counts, running: set<Subsystem>, x: set<Subsystem>)
    requires Balanced(explicit, count, running, x)
    ensures Closed(running)
  {
  }

  lemma CountsGrow(explicit: Counts, more: Counts)
    requires forall s: Subsystem :: explicit.At(s) <= more.At(s)
    ensures forall s: Subsystem :: CountsFor(explicit).At(s) <= CountsFor(more).At(s)
  {
  }

  // ----- what has been started and stopped -----

  datatype Event = Start(s: Subsystem) | Stop(s: Subsystem, forced: bool)

  ghost function RunningAfter(log: seq<Event>): set<Subsystem> {
    if log == [] then {}
    else
      var before := RunningAfter(log[..|log| - 1]);
      match log[|log| - 1]
      case Start(s) => before + {s}
      case Stop(s, _) => before - {s}
  }

  /** Only what is stopped is started and only what runs is stopped; and, but
      for the stops that `SDL_Quit` forces, every dependency is respected. */
  ghost predicate Legal(running: set<Subsystem>, e: Event) {
    match e
    case Start(s) => s !in running && Closed(running + {s})
    case Stop(s, forced) => s in running && (forced || Closed(running - {s}))
  }

  ghost predicate LegalLog(log: seq<Event>) {
    log == [] || (LegalLog(log[..|log| - 1]) && Legal(RunningAfter(log[..|log| - 1]), log[|log| - 1]))
  }

  lemma LogOneMore(log: seq<Event>, e: Event)
    requires LegalLog(log) && Legal(RunningAfter(log), e)
    ensures LegalLog(log + [e])
    ensures RunningAfter(log + [e]) == if e.Start? then RunningAfter(log) + {e.s} else RunningAfter(log) - {e.s}
  {
    assert (log + [e])[..|log + [e]| - 1] == log;
  }

  ghost predicate OnlyForcedStops(events: seq<Event>) {
    forall i :: 0 <= i < |events| ==> events[i].Stop? && events[i].forced
  }

  ghost function StopsOf(running: set<Subsystem>): multiset<Event> {
    multiset(set s | s in running :: Stop(s, true))
  }

  /** A legal run of stops that leaves nothing running stops each running
      subsystem exactly once. */
  lemma {:induction false} StoppedOnce(log: seq<Event>, stops: seq<Event>)
    requires LegalLog(log + stops) && OnlyForcedStops(stops)
    ensures RunningAfter(log + stops) <= RunningAfter(log)
    ensures multiset(stops) + StopsOf(RunningAfter(log + stops)) == StopsOf(RunningAfter(log))
  {
    if stops == [] {
      assert log + stops == log;
    } else {
      var front, last := stops[..|stops| - 1], stops[|stops| - 1];
      assert (log + stops)[..|log + stops| - 1] == log + front;
      StoppedOnce(log, front);
      assert stops == front + [last];
      var r := RunningAfter(log + front);
      assert StopsOf(r) == StopsOf(r - {last.s}) + multiset{last};
    }
  }

  // ----- the whole state -----

  datatype Status = Status(count: Counts, running: set<Subsystem>, log: seq<Event>)

  function Started(st: Status, s: Subsystem): Status {
    st.(running := st.running + {s}, log := st.log + [Start(s)])
  }

  function Stopped(st: Status, s: Subsystem, forced: bool): Status {
    st.(running := st.running - {s}, log := st.log + [Stop(s, forced)])
  }

  /** `SDL_IncrementSubsystemRefCount`: the counters are 8 bits wide. */
  function Incremented(count: Counts, s: Subsystem): Counts {
    count.With(s, (count.At(s) + 1) % 256)
  }

  /** `SDL_DecrementSubsystemRefCount`; the shutdown forces a counter to zero. */
  function Decremented(count: Counts, s: Subsystem, forced: bool): Counts {
    if count.At(s) == 0 then count else if forced then count.With(s, 0) else count.With(s, count.At(s) - 1)
  }

  /** `SDL_ShouldQuitSubsystem`. */
  predicate ShouldQuit(count: Counts, s: Subsystem, forced: bool) {
    count.At(s) != 0 && (count.At(s) == 1 || forced)
  }

  ghost predicate Sound(st: Status) {
    LegalLog(st.log) && st.running == RunningAfter(st.log)
  }

  /** The counts are balanced for the requests outstanding. */
  ghost predicate Balances(st: Status, explicit: Counts, x: set<Subsystem>) {
    Sound(st) && Balanced(explicit, st.count, st.running, x)
  }
}
