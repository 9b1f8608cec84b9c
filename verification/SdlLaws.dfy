/** What the reference counts of SDL.c promise: they are a function of the
    requests outstanding, a failed initialisation changes nothing, and what has
    been started is stopped once. */
module SdlLaws {
  import opened Subsystems
  import opened SdlInit

  /** What quitting `s` may quit. */
  function Below(s: Subsystem): set<Subsystem>
    decreases Rank(s)
  {
    match Needs(s)
    case Nothing => {s}
    case On(d) => {s} + Below(d)
  }

  // ----- one step on values -----

  lemma RequestedTwice(explicit: Counts, a: set<Subsystem>, s: Subsystem)
    requires s !in a
    ensures Requested(Requested(explicit, a), {s}) == Requested(explicit, a + {s})
  {
    CountsEqual(Requested(Requested(explicit, a), {s}), Requested(explicit, a + {s}));
  }

  lemma RequestedNothing(explicit: Counts)
    ensures Requested(explicit, {}) == explicit == Released(explicit, {})
  {
    CountsEqual(Requested(explicit, {}), explicit);
    CountsEqual(Released(explicit, {}), explicit);
  }

  lemma ReleasedTwice(explicit: Counts, a: set<Subsystem>, s: Subsystem)
    requires s !in a
    ensures Released(Released(explicit, a), {s}) == Released(explicit, a + {s})
  {
    CountsEqual(Released(Released(explicit, a), {s}), Released(explicit, a + {s}));
  }

  lemma ReleasedAgain(explicit: Counts, a: set<Subsystem>)
    ensures Released(Requested(explicit, a), a) == explicit
  {
    CountsEqual(Released(Requested(explicit, a), a), explicit);
  }

  lemma HeldByMore(running: set<Subsystem>, s: Subsystem, t: Subsystem)
    requires s !in running
    ensures HeldBy(running + {s}, t) == HeldBy(running, t) + if Needs(s) == On(t) then Weight(s) else 0
  {
  }

  lemma HeldByFewer(running: set<Subsystem>, s: Subsystem, t: Subsystem)
    requires s in running
    ensures HeldBy(running - {s}, t) == HeldBy(running, t) - if Needs(s) == On(t) then Weight(s) else 0
  {
  }

  /** One more request for a subsystem that is already counted. */
  lemma CountAnother(explicit: Counts, count: Counts, running: set<Subsystem>, s: Subsystem)
    requires Balanced(explicit, count, running, {}) && count.At(s) > 0
    ensures Balanced(Requested(explicit, {s}), count.With(s, count.At(s) + 1), running, {})
  {
  }

  /** The requests while `s` is being started or stopped: `k` requests are held on
      what it needs, whether or not it runs. */
  function Holding(explicit: Counts, s: Subsystem, k: nat): Counts {
    Tabulate((t: Subsystem) => explicit.At(t) + if Needs(s) == On(t) then k else 0)
  }

  lemma HoldingNone(explicit: Counts, s: Subsystem, k: nat)
    requires k == 0 || Needs(s).Nothing?
    ensures Holding(explicit, s, k) == explicit
  {
    CountsEqual(Holding(explicit, s, k), explicit);
  }

  lemma HoldingOneMore(explicit: Counts, s: Subsystem, k: nat)
    requires Needs(s).On?
    ensures Requested(Holding(explicit, s, k), {Needs(s).subsystem}) == Holding(explicit, s, k + 1)
    ensures Released(Holding(explicit, s, k + 1), {Needs(s).subsystem}) == Holding(explicit, s, k)
  {
    var d := Needs(s).subsystem;
    CountsEqual(Requested(Holding(explicit, s, k), {d}), Holding(explicit, s, k + 1));
    CountsEqual(Released(Holding(explicit, s, k + 1), {d}), Holding(explicit, s, k));
  }

  /** A subsystem may start once its requests on what it needs are granted. */
  lemma MayStart(explicit: Counts, count: Counts, running: set<Subsystem>, s: Subsystem)
    requires count.At(s) == 0 && Balanced(Holding(explicit, s, Weight(s)), count, running, {})
    ensures s !in running && Closed(running + {s})
  {
    BalancedIsClosed(Holding(explicit, s, Weight(s)), count, running, {});
    if Needs(s).On? {
      assert count.At(Needs(s).subsystem) > 0;
    }
  }

  lemma CountStarted(explicit: Counts, count: Counts, running: set<Subsystem>, s: Subsystem)
    requires count.At(s) == 0 && Balanced(Holding(explicit, s, Weight(s)), count, running, {})
    ensures Balanced(Requested(explicit, {s}), count.With(s, 1), running + {s}, {})
  {
    forall t: Subsystem
      ensures count.With(s, 1).At(t) == Requested(explicit, {s}).At(t) + HeldBy(running + {s}, t)
    {
      HeldByMore(running, s, t);
      assert Needs(s) != On(s);
    }
  }

  /** One request less for a subsystem that stays counted. */
  lemma CountFewer(explicit: Counts, count: Counts, running: set<Subsystem>, x: set<Subsystem>, s: Subsystem)
    requires Balanced(explicit, count, running, x) && s !in x && explicit.At(s) > 0 && count.At(s) > 1
    ensures Balanced(Released(explicit, {s}), count.With(s, count.At(s) - 1), running, x)
  {
  }

  /** The last request for a subsystem goes: nothing that runs needs it. */
  lemma MayStop(explicit: Counts, count: Counts, running: set<Subsystem>, x: set<Subsystem>, s: Subsystem)
    requires Balanced(explicit, count, running, x) && s !in x && explicit.At(s) > 0 && count.At(s) == 1
    ensures s in running && Closed(running - {s}) && HeldBy(running, s) == 0
  {
    BalancedIsClosed(explicit, count, running, x);
  }

  /** It is stopped: the requests that it held have to be released, too. */
  lemma CountStopped(explicit: Counts, count: Counts, running: set<Subsystem>, x: set<Subsystem>, s: Subsystem)
    requires Balanced(explicit, count, running, x) && s !in x && explicit.At(s) > 0 && count.At(s) == 1
    ensures Balanced(Holding(explicit, s, Weight(s)), count, running - {s}, x + {s})
  {
    MayStop(explicit, count, running, x, s);
    forall t: Subsystem
      ensures HeldBy(running - {s}, t) == HeldBy(running, t) - if Needs(s) == On(t) then Weight(s) else 0
    {
      HeldByFewer(running, s, t);
    }
  }

  lemma CountGone(explicit: Counts, count: Counts, running: set<Subsystem>, x: set<Subsystem>, s: Subsystem)
    requires Balanced(explicit, count, running, x + {s}) && s !in x && explicit.At(s) == 1
    ensures count.At(s) == 1 && Balanced(Released(explicit, {s}), count.With(s, 0), running, x)
  {
  }

  /** In the shutdown: counts move only to zero, by forced stops, and those of
      `flags` do. */
  ghost predicate ShutDown(before: Status, after: Status, flags: set<Subsystem>, x: set<Subsystem>) {
    && Sound(after) && RunsIffCounted(after.count, after.running, x)
    && before.log <= after.log && OnlyForcedStops(after.log[|before.log|..])
    && (forall s: Subsystem :: after.count.At(s) == 0 || (after.count.At(s) == before.count.At(s) && s !in flags))
  }

  /** In the shutdown any flag may be quit; otherwise each must have been
      requested, or nothing may count it. */
  ghost predicate MayQuit(forced: bool, st: Status, flags: set<Subsystem>, explicit: Counts, x: set<Subsystem>) {
    && (forall s :: s in flags ==> Below(s) !! x)
    && if forced then Sound(st) && RunsIffCounted(st.count, st.running, x)
       else Balances(st, explicit, x) && forall s :: s in flags && explicit.At(s) == 0 ==> st.count.At(s) == 0
  }

  ghost predicate HasQuit(forced: bool, before: Status, after: Status, flags: set<Subsystem>, explicit: Counts, x: set<Subsystem>)
  {
    if forced then ShutDown(before, after, flags, x)
    else Balances(after, Released(explicit, flags), x) && forall s: Subsystem :: after.count.At(s) <= before.count.At(s)
  }

  /** Quitting nothing: the start of each sequence. */
  lemma QuitNothing(forced: bool, st: Status, explicit: Counts, x: set<Subsystem>)
    requires MayQuit(forced, st, {}, explicit, x)
    ensures HasQuit(forced, st, st, {}, explicit, x)
  {
    RequestedNothing(explicit);
  }

  /** The drivers of `s` are stopped; its requests are still held. */
  lemma QuitStopped(forced: bool, st: Status, explicit: Counts, x: set<Subsystem>, s: Subsystem)
    requires MayQuit(forced, st, {s}, explicit, x) && st.count.At(s) > 0 && (forced || st.count.At(s) == 1)
    ensures s in st.running && (forced || Closed(st.running - {s}))
    ensures HasQuit(forced, st, Stopped(st, s, forced), {}, Holding(explicit, s, Weight(s)), x + {s})
    ensures !forced ==> explicit.At(s) == 1
  {
    assert s in Below(s);
    if !forced {
      MayStop(explicit, st.count, st.running, x, s);
      CountStopped(explicit, st.count, st.running, x, s);
      RequestedNothing(Holding(explicit, s, Weight(s)));
    }
    LogOneMore(st.log, Stop(s, forced));
  }

  lemma BelowNeeded(x: set<Subsystem>, s: Subsystem)
    requires Below(s) !! x && Needs(s).On?
    ensures Below(Needs(s).subsystem) !! x + {s}
  {
  }

  /** Quitting `flags` and then `more`. */
  lemma QuitThen(forced: bool, a: Status, b: Status, c: Status, flags: set<Subsystem>, more: set<Subsystem>,
                 explicit: Counts, rest: Counts, x: set<Subsystem>)
    requires HasQuit(forced, a, b, flags, explicit, x) && HasQuit(forced, b, c, more, rest, x)
    ensures forced ==> ShutDown(a, c, flags + more, x)
    ensures !forced ==> Balances(c, Released(rest, more), x) && forall s: Subsystem :: c.count.At(s) <= a.count.At(s)
  {
    if forced {
      assert c.log[|a.log|..] == b.log[|a.log|..] + c.log[|b.log|..];
    }
  }

  /** One of the requests that `s` holds may be released. */
  lemma MayRelease(forced: bool, st: Status, after: Status, explicit: Counts, x: set<Subsystem>, s: Subsystem, k: nat)
    requires Below(s) !! x && Needs(s).On?
    requires HasQuit(forced, st, after, {}, Holding(explicit, s, k + 1), x + {s})
    ensures MayQuit(forced, after, {Needs(s).subsystem}, Holding(explicit, s, k + 1), x + {s})
  {
    RequestedNothing(Holding(explicit, s, k + 1));
    BelowNeeded(x, s);
    assert Holding(explicit, s, k + 1).At(Needs(s).subsystem) > 0;
  }

  /** It has been released. */
  lemma HasReleased(forced: bool, st: Status, a: Status, b: Status, explicit: Counts, x: set<Subsystem>, s: Subsystem, k: nat)
    requires Needs(s).On? && HasQuit(forced, st, a, {}, Holding(explicit, s, k + 1), x + {s})
    requires HasQuit(forced, a, b, {Needs(s).subsystem}, Holding(explicit, s, k + 1), x + {s})
    ensures HasQuit(forced, st, b, {}, Holding(explicit, s, k), x + {s})
  {
    var d, held := Needs(s).subsystem, Holding(explicit, s, k + 1);
    QuitThen(forced, st, a, b, {}, {d}, held, held, x + {s});
    HoldingOneMore(explicit, s, k);
    RequestedNothing(Holding(explicit, s, k));
  }

  /** The stopped subsystem is counted no more. */
  lemma QuitCounted(forced: bool, st: Status, after: Status, explicit: Counts, x: set<Subsystem>, s: Subsystem)
    requires s !in x && (!forced ==> explicit.At(s) == 1)
    requires HasQuit(forced, st, after, {}, explicit, x + {s})
    ensures HasQuit(forced, st, after.(count := Decremented(after.count, s, forced)), {s}, explicit, x)
  {
    RequestedNothing(explicit);
    if !forced {
      CountGone(explicit, after.count, after.running, x, s);
    }
  }

  /** A subsystem that stays, or that nothing counts. */
  lemma QuitFewer(forced: bool, st: Status, explicit: Counts, x: set<Subsystem>, s: Subsystem)
    requires MayQuit(forced, st, {s}, explicit, x) && (st.count.At(s) == 0 || (!forced && st.count.At(s) > 1))
    ensures HasQuit(forced, st, st.(count := Decremented(st.count, s, forced)), {s}, explicit, x)
  {
    assert s in Below(s);
    if st.count.At(s) > 0 {
      CountFewer(explicit, st.count, st.running, x, s);
    }
  }

  // ----- quitting -----

  /** One flag: quitting it releases one request for it, and whatever was held
      for it alone. */
  lemma {:induction false} QuitOneReleases(forced: bool, st: Status, explicit: Counts, x: set<Subsystem>, s: Subsystem)
    requires MayQuit(forced, st, {s}, explicit, x)
    ensures HasQuit(forced, st, QuitOne(st, forced, s), {s}, explicit, x)
    decreases Rank(s), 4
  {
    if ShouldQuit(st.count, s, forced) {
      var after := StopReleases(forced, st, explicit, x, s);
      QuitCounted(forced, st, after, explicit, x, s);
    } else {
      QuitFewer(forced, st, explicit, x, s);
    }
  }

  /** A request that the stopped subsystem holds is released. */
  lemma {:induction false} Release(forced: bool, st: Status, a: Status, explicit: Counts, x: set<Subsystem>, s: Subsystem, k: nat)
    requires Below(s) !! x && Needs(s).On? && HasQuit(forced, st, a, {}, Holding(explicit, s, k + 1), x + {s})
    ensures HasQuit(forced, st, QuitOne(a, forced, Needs(s).subsystem), {}, Holding(explicit, s, k), x + {s})
    decreases Rank(s), 0
  {
    var d := Needs(s).subsystem;
    MayRelease(forced, st, a, explicit, x, s, k);
    QuitOneReleases(forced, a, Holding(explicit, s, k + 1), x + {s}, d);
    HasReleased(forced, st, a, QuitOne(a, forced, d), explicit, x, s, k);
  }

  /** Quitting events touches nothing else. */
  lemma QuitEvents(st: Status, forced: bool)
    ensures var r := QuitOne(st, forced, Events);
            && r.running - {Events} == st.running - {Events}
            && forall t: Subsystem :: t != Events ==> r.count.At(t) == st.count.At(t)
  {
  }

  /** While events stay counted, it makes no difference whether video releases its
      own request before its drivers are quit or after that. */
  lemma VideoMayStopFirst(st: Status)
    requires st.count.At(Events) >= 2
    ensures StopBackend(st, false, Video) == QuitOne(Stopped(st, Video, false), false, Events)
  {
  }

  lemma VideoGoesLast(st: Status, a: Status, x: set<Subsystem>)
    requires ShutDown(st, a, {Events}, x) && Video !in x && Video in a.running
    ensures ShutDown(st, Stopped(a, Video, true), {}, x + {Video})
  {
    LogOneMore(a.log, Stop(Video, true));
  }

  /** In the shutdown video's own request stops events, and then its drivers go. */
  lemma VideoStopsForced(st: Status, explicit: Counts, x: set<Subsystem>)
    requires MayQuit(true, st, {Video}, explicit, x) && st.count.At(Video) > 0
    ensures ShutDown(st, StopBackend(st, true, Video), {}, x + {Video})
    decreases Rank(Video), 0
  {
    assert Video in Below(Video) && Events in Below(Video) && Below(Events) == {Events};
    QuitOneReleases(true, st, explicit, x, Events);
    QuitEvents(st, true);
    VideoGoesLast(st, QuitOne(st, true, Events), x);
  }

  lemma VideoHoldsTwo(st: Status, explicit: Counts, x: set<Subsystem>)
    requires Balances(st, explicit, x) && Video in st.running
    ensures st.count.At(Events) >= 2
  {
  }

  lemma OwnRequestsEvents(s: Subsystem)
    requires OwnRequest(s).On?
    ensures Needs(s) == On(Events) == OwnRequest(s) && Weight(s) == One(Implies(s).On?) + 1
  {
  }

  /** The drivers of `s` are quit and its own request is released, in either order. */
  lemma {:induction false} OwnReleased(forced: bool, st: Status, explicit: Counts, x: set<Subsystem>, s: Subsystem)
    requires MayQuit(forced, st, {s}, explicit, x) && st.count.At(s) > 0 && s in st.running && OwnRequest(s).On?
    requires HasQuit(forced, st, Stopped(st, s, forced), {}, Holding(explicit, s, Weight(s)), x + {s})
    ensures HasQuit(forced, st, StopBackend(st, forced, s), {}, Holding(explicit, s, One(Implies(s).On?)), x + {s})
    decreases Rank(s), 1
  {
    OwnRequestsEvents(s);
    if forced && s == Video {
      VideoStopsForced(st, explicit, x);
    } else {
      assert s in {s} && Below(s) !! x;
      Release(forced, st, Stopped(st, s, forced), explicit, x, s, One(Implies(s).On?));
      if s == Video {
        VideoHoldsTwo(st, explicit, x);
        VideoMayStopFirst(st);
      }
    }
  }

  /** The subsystem is stopped, and its own request released; what SDL.c requested
      for it is still held. */
  lemma {:induction false} BackendStops(forced: bool, st: Status, explicit: Counts, x: set<Subsystem>, s: Subsystem)
    requires MayQuit(forced, st, {s}, explicit, x) && ShouldQuit(st.count, s, forced)
    ensures HasQuit(forced, st, StopBackend(st, forced, s), {}, Holding(explicit, s, One(Implies(s).On?)), x + {s})
    ensures s !in x && (!forced ==> explicit.At(s) == 1)
    decreases Rank(s), 2
  {
    assert s in Below(s);
    QuitStopped(forced, st, explicit, x, s);
    if OwnRequest(s).On? {
      OwnReleased(forced, st, explicit, x, s);
    }
  }

  /** The subsystem is stopped and every request that it held is released. */
  lemma {:induction false} StopReleases(forced: bool, st: Status, explicit: Counts, x: set<Subsystem>, s: Subsystem) returns (after: Status)
    requires MayQuit(forced, st, {s}, explicit, x) && ShouldQuit(st.count, s, forced)
    ensures HasQuit(forced, st, after, {}, explicit, x + {s})
    ensures QuitOne(st, forced, s) == after.(count := Decremented(after.count, s, forced))
    ensures s !in x && (!forced ==> explicit.At(s) == 1)
    decreases Rank(s), 3
  {
    after := StopBackend(st, forced, s);
    BackendStops(forced, st, explicit, x, s);
    HoldingNone(explicit, s, 0);
    if Implies(s).On? {
      Release(forced, st, after, explicit, x, s, 0);
      after := QuitOne(after, forced, Implies(s).subsystem);
    }
  }

  /** The flags of `flags` that come before place `i`. */
  ghost predicate DoneBefore(order: seq<Subsystem>, flags: set<Subsystem>, done: set<Subsystem>, i: nat) {
    && i <= |order| && done <= flags
    && (forall k :: 0 <= k < i && order[k] in flags ==> order[k] in done)
    && (forall k :: i <= k < |order| ==> order[k] !in done)
  }

  lemma DoneNext(order: seq<Subsystem>, flags: set<Subsystem>, done: set<Subsystem>, i: nat)
    requires OnceEach(order) && DoneBefore(order, flags, done, i) && i < |order|
    ensures order[i] in flags ==> DoneBefore(order, flags, done + {order[i]}, i + 1)
    ensures order[i] !in flags ==> DoneBefore(order, flags, done, i + 1)
  {
  }

  lemma DoneAll(order: seq<Subsystem>, flags: set<Subsystem>, done: set<Subsystem>)
    requires OnceEach(order) && DoneBefore(order, flags, done, |order|)
    ensures done == flags
  {
    forall s: Subsystem | s in flags
      ensures s in done
    {
      assert s in order;
    }
  }

  /** A flag that has not been quit yet may be quit next. */
  lemma MayQuitNext(forced: bool, before: Status, st: Status, explicit: Counts, flags: set<Subsystem>, done: set<Subsystem>, s: Subsystem)
    requires MayQuit(forced, before, flags, explicit, {}) && HasQuit(forced, before, st, done, explicit, {})
    requires s in flags && s !in done
    ensures MayQuit(forced, st, {s}, Released(explicit, done), {})
  {
  }

  lemma QuitOneMore(forced: bool, before: Status, st: Status, explicit: Counts, flags: set<Subsystem>, done: set<Subsystem>, s: Subsystem)
    requires MayQuit(forced, before, flags, explicit, {}) && HasQuit(forced, before, st, done, explicit, {})
    requires s in flags && s !in done
    ensures HasQuit(forced, before, QuitOne(st, forced, s), done + {s}, explicit, {})
  {
    MayQuitNext(forced, before, st, explicit, flags, done, s);
    QuitOneReleases(forced, st, Released(explicit, done), {}, s);
    QuitThen(forced, before, st, QuitOne(st, forced, s), done, {s}, explicit, Released(explicit, done), {});
    ReleasedTwice(explicit, done, s);
  }

  lemma {:induction false} QuitFromReleases(forced: bool, before: Status, st: Status, explicit: Counts, flags: set<Subsystem>, done: set<Subsystem>, i: nat)
    requires MayQuit(forced, before, flags, explicit, {}) && DoneBefore(QUIT_ORDER, flags, done, i)
    requires HasQuit(forced, before, st, done, explicit, {})
    ensures HasQuit(forced, before, QuitFrom(st, forced, flags, i), flags, explicit, {})
    decreases |QUIT_ORDER| - i
  {
    OrdersListAll();
    if i == |QUIT_ORDER| {
      DoneAll(QUIT_ORDER, flags, done);
    } else {
      var s := QUIT_ORDER[i];
      DoneNext(QUIT_ORDER, flags, done, i);
      if s in flags {
        QuitOneMore(forced, before, st, explicit, flags, done, s);
        QuitFromReleases(forced, before, QuitOne(st, forced, s), explicit, flags, done + {s}, i + 1);
      } else {
        QuitFromReleases(forced, before, st, explicit, flags, done, i + 1);
      }
    }
  }

  /** `SDL_QuitSubSystem` releases one request for each flag. */
  lemma QuitReleases(forced: bool, st: Status, explicit: Counts, flags: set<Subsystem>)
    requires MayQuit(forced, st, flags, explicit, {})
    ensures HasQuit(forced, st, Quit(st, forced, flags), flags, explicit, {})
  {
    QuitNothing(forced, st, explicit, {});
    QuitFromReleases(forced, st, st, explicit, flags, {}, 0);
  }

  // ----- initialising -----

  /** No counter would exceed its 8 bits. */
  ghost predicate Fits(explicit: Counts) {
    forall s: Subsystem :: CountsFor(explicit).At(s) <= 255
  }

  /** The subsystems that have to be started for the requests `more`. */
  ghost function Missing(explicit: Counts, more: Counts): set<Subsystem> {
    RunningFor(more) - RunningFor(explicit)
  }

  ghost predicate AllStart(starts: Starts, missing: set<Subsystem>) {
    forall s :: s in missing ==> starts(s)
  }

  /** What an initialisation does: all or nothing, and all exactly when every
      subsystem that is missing starts. */
  ghost predicate AllOrNothing(st: Status, r: (Status, bool), starts: Starts, explicit: Counts, more: Counts) {
    && Balances(r.0, if r.1 then more else explicit, {})
    && (r.1 <==> AllStart(starts, Missing(explicit, more)))
  }

  /** A subsystem that is counted is there: one more request starts nothing. */
  lemma AnotherStartsNothing(explicit: Counts, count: Counts, running: set<Subsystem>, s: Subsystem)
    requires Balanced(explicit, count, running, {}) && count.At(s) > 0 && Fits(Requested(explicit, {s}))
    ensures Missing(explicit, Requested(explicit, {s})) == {} && count.At(s) + 1 <= 255
  {
    var more, c := Requested(explicit, {s}), count.With(s, count.At(s) + 1);
    assert running == RunningFor(explicit) by {
      BalancedIsDetermined(explicit, count, running);
    }
    assert c == CountsFor(more) && running == RunningFor(more) by {
      CountAnother(explicit, count, running, s);
      BalancedIsDetermined(more, c, running);
    }
  }

  lemma AnotherBalanced(explicit: Counts, count: Counts, running: set<Subsystem>, s: Subsystem)
    requires Balanced(explicit, count, running, {}) && count.At(s) > 0 && Fits(Requested(explicit, {s}))
    ensures Balanced(Requested(explicit, {s}), Incremented(count, s), running, {})
  {
    AnotherStartsNothing(explicit, count, running, s);
    CountAnother(explicit, count, running, s);
  }

  /** `SDL_IncrementSubsystemRefCount` on a subsystem that is counted grants one
      more request: nothing has to be started, and nothing wraps. */
  lemma AnotherIncremented(st: Status, starts: Starts, explicit: Counts, s: Subsystem)
    requires Balances(st, explicit, {}) && st.count.At(s) > 0 && Fits(Requested(explicit, {s}))
    ensures AllOrNothing(st, (st.(count := Incremented(st.count, s)), true), starts, explicit, Requested(explicit, {s}))
  {
    AnotherStartsNothing(explicit, st.count, st.running, s);
    AnotherBalanced(explicit, st.count, st.running, s);
  }

  /** What one more request brings up. */
  lemma RequestNeeds(explicit: Counts, s: Subsystem, t: Subsystem)
    ensures Needed(Requested(explicit, {s}), t) <==> Needed(explicit, t) || t in Below(s)
  {
  }

  /** What requests on behalf of `s` bring up. */
  lemma HoldingNeeds(explicit: Counts, s: Subsystem, k: nat, t: Subsystem)
    ensures k == 0 || Needs(s).Nothing? ==> (Needed(Holding(explicit, s, k), t) <==> Needed(explicit, t))
    ensures k > 0 && Needs(s).On? ==>
              (Needed(Holding(explicit, s, k), t) <==> Needed(explicit, t) || t in Below(Needs(s).subsystem))
  {
    if k == 0 || Needs(s).Nothing? {
      HoldingNone(explicit, s, k);
    }
  }

  lemma BelowItself(s: Subsystem)
    ensures Below(s) == {s} + (if Needs(s).On? then Below(Needs(s).subsystem) else {})
    ensures Needs(s).On? ==> s !in Below(Needs(s).subsystem)
  {
  }

  /** Holding what `s` needs takes no more than requesting `s`. */
  lemma HoldingRuns(explicit: Counts, s: Subsystem, k: nat)
    requires s !in RunningFor(explicit)
    ensures s !in RunningFor(Holding(explicit, s, k))
    ensures k > 0 || Needs(s).Nothing? ==> RunningFor(Requested(explicit, {s})) == RunningFor(Holding(explicit, s, k)) + {s}
    ensures RunningFor(explicit) <= RunningFor(Holding(explicit, s, k)) <= RunningFor(Holding(explicit, s, k + 1))
    ensures RunningFor(Holding(explicit, s, k)) <= RunningFor(Requested(explicit, {s}))
  {
    var held, more, requested := Holding(explicit, s, k), Holding(explicit, s, k + 1), Requested(explicit, {s});
    BelowItself(s);
    HoldingNeeds(explicit, s, k, s);
    forall t: Subsystem
      ensures t in RunningFor(explicit) ==> t in RunningFor(held)
      ensures t in RunningFor(held) ==> t in RunningFor(more) && t in RunningFor(requested)
      ensures k > 0 || Needs(s).Nothing? ==> (t in RunningFor(requested) <==> t in RunningFor(held) + {s})
    {
      HoldingNeeds(explicit, s, k, t);
      HoldingNeeds(explicit, s, k + 1, t);
      RequestNeeds(explicit, s, t);
    }
  }

  lemma HoldingFits(explicit: Counts, s: Subsystem, k: nat)
    requires s !in RunningFor(explicit) && Fits(Requested(explicit, {s})) && k <= Weight(s)
    ensures Fits(Holding(explicit, s, k))
  {
    var held := Holding(explicit, s, Weight(s));
    HoldingRuns(explicit, s, Weight(s));
    CountsGrow(Holding(explicit, s, k), held);
    forall t: Subsystem
      ensures CountsFor(held).At(t) <= 255
    {
      HeldByMore(RunningFor(held), s, t);
      assert CountsFor(Requested(explicit, {s})).At(t) <= 255;
    }
  }

  lemma StartedSound(st: Status, explicit: Counts, s: Subsystem)
    requires st.count.At(s) == 0 && Balances(st, Holding(explicit, s, Weight(s)), {})
    ensures Balances(Started(st.(count := Incremented(st.count, s)), s), Requested(explicit, {s}), {})
  {
    MayStart(explicit, st.count, st.running, s);
    CountStarted(explicit, st.count, st.running, s);
    LogOneMore(st.log, Start(s));
  }

  /** A request that is held for `s` is released again. */
  lemma HeldReleased(st: Status, explicit: Counts, s: Subsystem, k: nat)
    requires Needs(s).On? && Balances(st, Holding(explicit, s, k + 1), {})
    ensures Balances(QuitOne(st, false, Needs(s).subsystem), Holding(explicit, s, k), {})
  {
    QuitOneReleases(false, st, Holding(explicit, s, k + 1), {}, Needs(s).subsystem);
    HoldingOneMore(explicit, s, k);
  }

  /** Taking back an increment restores the counters. */
  lemma UndoneCount(count: Counts, s: Subsystem)
    requires count.At(s) < 255
    ensures Decremented(Incremented(count, s), s, false) == count
  {
    CountsEqual(Decremented(Incremented(count, s), s, false), count);
  }

  lemma CountersCommute(count: Counts, s: Subsystem, t: Subsystem)
    requires s != t
    ensures Incremented(Incremented(count, s), t) == Incremented(Incremented(count, t), s)
    ensures Decremented(Incremented(count, s), t, false) == Incremented(Decremented(count, t, false), s)
  {
    CountsEqual(Incremented(Incremented(count, s), t), Incremented(Incremented(count, t), s));
    CountsEqual(Decremented(Incremented(count, s), t, false), Incremented(Decremented(count, t, false), s));
  }

  /** A request for events, written out. */
  lemma InitEvents(st: Status, starts: Starts)
    ensures InitOne(st, false, starts, Events) ==
            if st.count.At(Events) == 0 && !starts(Events) then (st, false)
            else
              var counted := st.(count := Incremented(st.count, Events));
              (if st.count.At(Events) == 0 then Started(counted, Events) else counted, true)
  {
    if st.count.At(Events) == 0 {
      UndoneCount(st.count, Events);
    }
  }

  lemma QuitEventsOnce(st: Status)
    ensures QuitOne(st, false, Events) ==
            (if st.count.At(Events) == 1 then Stopped(st, Events, false) else st).(count := Decremented(st.count, Events, false))
  {
  }

  /** Requests for events do not look at the other counters. */
  lemma EventsFrame(st: Status, starts: Starts, s: Subsystem)
    requires s != Events && st.count.At(s) == 0
    ensures var counted := st.(count := Incremented(st.count, s));
            var (a, ok) := InitOne(st, false, starts, Events);
            && InitOne(counted, false, starts, Events) == (a.(count := Incremented(a.count, s)), ok)
            && a.count.At(s) == 0
  {
    InitEvents(st, starts);
    InitEvents(st.(count := Incremented(st.count, s)), starts);
    CountersCommute(st.count, s, Events);
  }

  lemma EventsFrameQuit(st: Status, s: Subsystem)
    requires s != Events && st.count.At(s) == 0
    ensures var counted := st.(count := Incremented(st.count, s));
            var a := QuitOne(st, false, Events);
            && QuitOne(counted, false, Events) == a.(count := Incremented(a.count, s)) && a.count.At(s) == 0
  {
    QuitEventsOnce(st);
    QuitEventsOnce(st.(count := Incremented(st.count, s)));
    CountersCommute(st.count, s, Events);
  }

  /** The start of `s` from `held`, with the counter of `s` raised only at the end:
      in the code it is up while the start makes its own request. */
  function LateCount(held: Status, starts: Starts, s: Subsystem): (Status, bool) {
    var (a, ok) := if OwnRequest(s).On? then InitOne(held, false, starts, Events) else (held, true);
    if !ok then (a, false)
    else if starts(s) then (Started(a.(count := Incremented(a.count, s)), s), true)
    else (if OwnRequest(s).On? then QuitOne(a, false, Events) else a, false)
  }

  lemma CountedEarly(held: Status, starts: Starts, s: Subsystem)
    requires held.count.At(s) == 0
    ensures var (r, ok) := StartBackend(held.(count := Incremented(held.count, s)), false, starts, s);
            LateCount(held, starts, s) == (if ok then r else r.(count := Decremented(r.count, s, false)), ok)
  {
    UndoneCount(held.count, s);
    if OwnRequest(s).On? {
      EventsFrame(held, starts, s);
      var (a, ok) := InitOne(held, false, starts, Events);
      EventsFrameQuit(a, s);
      UndoneCount(a.count, s);
      UndoneCount(QuitOne(a, false, Events).count, s);
    }
  }

  /** Holding what `s` needs does not count `s`. */
  lemma HoldingLeaves(st: Status, explicit: Counts, s: Subsystem, k: nat)
    requires Balances(st, Holding(explicit, s, k), {}) && s !in RunningFor(explicit)
    ensures st.count.At(s) == 0
  {
    BalancedIsDetermined(Holding(explicit, s, k), st.count, st.running);
    HoldingRuns(explicit, s, k);
  }

  /** `k` requests have been granted, for which everything needed came up. */
  ghost predicate Held(st: Status, starts: Starts, explicit: Counts, s: Subsystem, k: nat) {
    Balances(st, Holding(explicit, s, k), {}) && AllStart(starts, Missing(explicit, Holding(explicit, s, k)))
  }

  lemma HeldMore(st: Status, r: Status, starts: Starts, explicit: Counts, s: Subsystem, k: nat)
    requires Held(st, starts, explicit, s, k)
    requires Balances(r, Holding(explicit, s, k + 1), {})
    requires AllStart(starts, Missing(Holding(explicit, s, k), Holding(explicit, s, k + 1)))
    ensures Held(r, starts, explicit, s, k + 1)
  {
  }

  lemma NotHeld(starts: Starts, explicit: Counts, s: Subsystem, k: nat)
    requires s !in RunningFor(explicit)
    requires !AllStart(starts, Missing(Holding(explicit, s, k), Holding(explicit, s, k + 1)))
    ensures !AllStart(starts, Missing(explicit, Requested(explicit, {s})))
  {
    HoldingRuns(explicit, s, k);
    HoldingRuns(explicit, s, k + 1);
    var t :| t in Missing(Holding(explicit, s, k), Holding(explicit, s, k + 1)) && !starts(t);
    assert t in Missing(explicit, Requested(explicit, {s}));
  }

  /** One more request on what `s` needs is granted, or something does not start. */
  lemma HoldOneMore(st: Status, r: (Status, bool), starts: Starts, explicit: Counts, s: Subsystem, k: nat)
    requires Needs(s).On? && Held(st, starts, explicit, s, k) && s !in RunningFor(explicit)
    requires AllOrNothing(st, r, starts, Holding(explicit, s, k), Requested(Holding(explicit, s, k), {Needs(s).subsystem}))
    ensures if r.1 then Held(r.0, starts, explicit, s, k + 1)
            else Balances(r.0, Holding(explicit, s, k), {}) && !AllStart(starts, Missing(explicit, Requested(explicit, {s})))
  {
    HoldingOneMore(explicit, s, k);
    if r.1 {
      HeldMore(st, r.0, starts, explicit, s, k);
    } else {
      NotHeld(starts, explicit, s, k);
    }
  }

  /** Once everything is held, the drivers of `s` decide. */
  lemma DriversDecide(st: Status, starts: Starts, explicit: Counts, s: Subsystem)
    requires Held(st, starts, explicit, s, Weight(s)) && s !in RunningFor(explicit)
    ensures starts(s) <==> AllStart(starts, Missing(explicit, Requested(explicit, {s})))
  {
    HoldingRuns(explicit, s, Weight(s));
    assert s in Missing(explicit, Requested(explicit, {s}));
  }

  /** The own request of `s` is granted, or something does not start. */
  lemma {:induction false} OwnGranted(held: Status, starts: Starts, explicit: Counts, s: Subsystem)
    requires Held(held, starts, explicit, s, One(Implies(s).On?)) && s !in RunningFor(explicit)
    requires Fits(Requested(explicit, {s})) && OwnRequest(s).On?
    ensures var (a, ok) := InitOne(held, false, starts, Events);
            if ok then Held(a, starts, explicit, s, Weight(s))
            else Balances(a, Holding(explicit, s, One(Implies(s).On?)), {})
                 && !AllStart(starts, Missing(explicit, Requested(explicit, {s})))
    decreases Rank(s), 0
  {
    OwnRequestsEvents(s);
    OwnFits(explicit, s);
    InitOneKeeps(held, starts, Holding(explicit, s, One(Implies(s).On?)), Events);
    HoldOneMore(held, InitOne(held, false, starts, Events), starts, explicit, s, One(Implies(s).On?));
  }

  lemma OwnFits(explicit: Counts, s: Subsystem)
    requires s !in RunningFor(explicit) && Fits(Requested(explicit, {s})) && OwnRequest(s).On?
    ensures Fits(Requested(Holding(explicit, s, One(Implies(s).On?)), {Events}))
  {
    OwnRequestsEvents(s);
    HoldingFits(explicit, s, Weight(s));
    HoldingOneMore(explicit, s, One(Implies(s).On?));
  }

  /** With everything held, `s` starts, or its own request is released. */
  lemma AllHeld(a: Status, starts: Starts, explicit: Counts, s: Subsystem)
    requires Held(a, starts, explicit, s, Weight(s)) && s !in RunningFor(explicit)
    ensures starts(s) <==> AllStart(starts, Missing(explicit, Requested(explicit, {s})))
    ensures starts(s) ==> Balances(Started(a.(count := Incremented(a.count, s)), s), Requested(explicit, {s}), {})
    ensures !starts(s) && OwnRequest(s).On? ==>
              Balances(QuitOne(a, false, Events), Holding(explicit, s, One(Implies(s).On?)), {})
  {
    DriversDecide(a, starts, explicit, s);
    HoldingLeaves(a, explicit, s, Weight(s));
    StartedSound(a, explicit, s);
    if OwnRequest(s).On? {
      OwnRequestsEvents(s);
      HeldReleased(a, explicit, s, One(Implies(s).On?));
    }
  }

  /** The start of `s`, with what SDL.c requested for it held. */
  lemma {:induction false} LateCountKeeps(held: Status, starts: Starts, explicit: Counts, s: Subsystem)
    requires Held(held, starts, explicit, s, One(Implies(s).On?)) && s !in RunningFor(explicit)
    requires Fits(Requested(explicit, {s}))
    ensures var (r, ok) := LateCount(held, starts, s);
            && (ok <==> AllStart(starts, Missing(explicit, Requested(explicit, {s}))))
            && Balances(r, if ok then Requested(explicit, {s}) else Holding(explicit, s, One(Implies(s).On?)), {})
    decreases Rank(s), 1
  {
    if OwnRequest(s).Nothing? {
      AllHeld(held, starts, explicit, s);
    } else {
      OwnGranted(held, starts, explicit, s);
      var (a, ok) := InitOne(held, false, starts, Events);
      if ok {
        AllHeld(a, starts, explicit, s);
      }
    }
  }

  /** `SDL_InitOrIncrementSubsystem` is all or nothing, too. */
  lemma {:induction false} HoldGrants(st: Status, starts: Starts, explicit: Counts, d: Subsystem)
    requires Balances(st, explicit, {}) && Fits(Requested(explicit, {d}))
    ensures AllOrNothing(st, Hold(st, false, starts, d), starts, explicit, Requested(explicit, {d}))
    decreases Rank(d), 3
  {
    if st.count.At(d) > 0 {
      AnotherIncremented(st, starts, explicit, d);
    } else {
      InitOneKeeps(st, starts, explicit, d);
    }
  }

  lemma HeldAtFirst(st: Status, starts: Starts, explicit: Counts, s: Subsystem)
    requires Balances(st, explicit, {})
    ensures Holding(explicit, s, 0) == explicit && Held(st, starts, explicit, s, 0)
  {
    HoldingNone(explicit, s, 0);
  }

  lemma ImpliedFits(explicit: Counts, s: Subsystem)
    requires s !in RunningFor(explicit) && Fits(Requested(explicit, {s})) && Implies(s).On?
    ensures Fits(Requested(explicit, {Implies(s).subsystem}))
  {
    HoldingFits(explicit, s, 1);
    HoldingOneMore(explicit, s, 0);
    HoldingNone(explicit, s, 0);
  }

  lemma FirstGranted(st: Status, held: (Status, bool), starts: Starts, explicit: Counts, s: Subsystem)
    requires Balances(st, explicit, {}) && s !in RunningFor(explicit) && Implies(s).On?
    requires AllOrNothing(st, held, starts, explicit, Requested(explicit, {Implies(s).subsystem}))
    ensures if held.1 then Held(held.0, starts, explicit, s, 1)
            else Balances(held.0, explicit, {}) && !AllStart(starts, Missing(explicit, Requested(explicit, {s})))
  {
    HeldAtFirst(st, starts, explicit, s);
    HoldOneMore(st, held, starts, explicit, s, 0);
  }

  /** What SDL.c requests for `s` is granted, or something does not start. */
  lemma {:induction false} HoldKeeps(st: Status, starts: Starts, explicit: Counts, s: Subsystem) returns (held: (Status, bool))
    requires Balances(st, explicit, {}) && s !in RunningFor(explicit) && Fits(Requested(explicit, {s}))
    ensures held == if Implies(s).On? then Hold(st, false, starts, Implies(s).subsystem) else (st, true)
    ensures if held.1 then Held(held.0, starts, explicit, s, One(Implies(s).On?))
            else Balances(held.0, explicit, {}) && !AllStart(starts, Missing(explicit, Requested(explicit, {s})))
    decreases Rank(s), 0
  {
    if Implies(s).On? {
      held := Hold(st, false, starts, Implies(s).subsystem);
      ImpliedFits(explicit, s);
      HoldGrants(st, starts, explicit, Implies(s).subsystem);
      FirstGranted(st, held, starts, explicit, s);
    } else {
      held := (st, true);
      HeldAtFirst(st, starts, explicit, s);
    }
  }

  /** One flag of `SDL_InitSubSystem`. */
  lemma {:induction false} InitOneKeeps(st: Status, starts: Starts, explicit: Counts, s: Subsystem)
    requires Balances(st, explicit, {}) && Fits(Requested(explicit, {s}))
    ensures AllOrNothing(st, InitOne(st, false, starts, s), starts, explicit, Requested(explicit, {s}))
    decreases Rank(s), 2
  {
    if st.count.At(s) > 0 {
      AnotherIncremented(st, starts, explicit, s);
    } else {
      assert s !in RunningFor(explicit) by {
        BalancedIsDetermined(explicit, st.count, st.running);
      }
      var hold := HoldKeeps(st, starts, explicit, s);
      var (held, granted) := hold;
      if granted {
        HoldingLeaves(held, explicit, s, One(Implies(s).On?));
        CountedEarly(held, starts, s);
        LateCountKeeps(held, starts, explicit, s);
        HoldingNone(explicit, s, 0);
        if Implies(s).On? && !LateCount(held, starts, s).1 {
          HeldReleased(LateCount(held, starts, s).0, explicit, s, 0);
        }
      }
    }
  }

  // ----- whole calls -----

  lemma {:induction false} InitFromKeeps(before: Status, st: Status, starts: Starts, explicit: Counts, flags: set<Subsystem>, i: nat, done: set<Subsystem>)
    requires Fits(Requested(explicit, flags)) && DoneBefore(INIT_ORDER, flags, done, i)
    requires AllOrNothing(before, (st, true), starts, explicit, Requested(explicit, done))
    ensures AllOrNothing(before, InitFrom(st, false, starts, flags, i, done), starts, explicit, Requested(explicit, flags))
    decreases |INIT_ORDER| - i
  {
    OrdersListAll();
    if i == |INIT_ORDER| {
      DoneAll(INIT_ORDER, flags, done);
    } else {
      var s := INIT_ORDER[i];
      DoneNext(INIT_ORDER, flags, done, i);
      if s in flags {
        InitOneMore(before, st, starts, explicit, flags, done, s);
        var (next, ok) := InitOne(st, false, starts, s);
        if ok {
          InitFromKeeps(before, next, starts, explicit, flags, i + 1, done + {s});
        }
      } else {
        InitFromKeeps(before, st, starts, explicit, flags, i + 1, done);
      }
    }
  }

  lemma MoreRuns(explicit: Counts, done: set<Subsystem>, more: set<Subsystem>)
    requires done <= more
    ensures RunningFor(explicit) <= RunningFor(Requested(explicit, done)) <= RunningFor(Requested(explicit, more))
  {
  }

  lemma FewerFit(explicit: Counts, done: set<Subsystem>, more: set<Subsystem>)
    requires done <= more && Fits(Requested(explicit, more))
    ensures Fits(Requested(explicit, done))
  {
    CountsGrow(Requested(explicit, done), Requested(explicit, more));
  }

  /** One more flag is initialised, or all flags before it are quit again. */
  lemma InitOneMore(before: Status, st: Status, starts: Starts, explicit: Counts, flags: set<Subsystem>, done: set<Subsystem>, s: Subsystem)
    requires Fits(Requested(explicit, flags)) && done <= flags && s in flags && s !in done
    requires AllOrNothing(before, (st, true), starts, explicit, Requested(explicit, done))
    ensures var (next, ok) := InitOne(st, false, starts, s);
            if ok then AllOrNothing(before, (next, true), starts, explicit, Requested(explicit, done + {s}))
            else AllOrNothing(before, (Quit(next, false, done), false), starts, explicit, Requested(explicit, flags))
  {
    var (next, ok) := InitOne(st, false, starts, s);
    MoreRuns(explicit, done, done + {s});
    MoreRuns(explicit, done + {s}, flags);
    FewerFit(explicit, done + {s}, flags);
    RequestedTwice(explicit, done, s);
    InitOneKeeps(st, starts, Requested(explicit, done), s);
    if !ok {
      QuitAgain(next, explicit, done);
    }
  }

  lemma QuitAgain(st: Status, explicit: Counts, done: set<Subsystem>)
    requires Balances(st, Requested(explicit, done), {})
    ensures Balances(Quit(st, false, done), explicit, {})
  {
    QuitReleases(false, st, Requested(explicit, done), done);
    ReleasedAgain(explicit, done);
  }

  /** `SDL_InitSubSystem` grants every flag, exactly when every subsystem that
      is missing starts; otherwise every count and everything that runs is as
      before the call. */
  lemma InitIsAllOrNothing(st: Status, starts: Starts, explicit: Counts, flags: set<Subsystem>)
    requires Balances(st, explicit, {}) && Fits(Requested(explicit, flags))
    ensures var (r, ok) := Init(st, false, starts, flags);
            && (ok <==> forall s :: s in RunningFor(Requested(explicit, flags)) - RunningFor(explicit) ==> starts(s))
            && Balances(r, if ok then Requested(explicit, flags) else explicit, {})
            && (!ok ==> r.count == st.count && r.running == st.running)
  {
    RequestedNothing(explicit);
    InitFromKeeps(st, st, starts, explicit, flags, 0, {});
    var (r, ok) := Init(st, false, starts, flags);
    if !ok {
      BalancedIsDetermined(explicit, st.count, st.running);
      BalancedIsDetermined(explicit, r.count, r.running);
    }
  }

  /** Quitting what has just been initialised leads back. */
  lemma QuitUndoesInit(st: Status, starts: Starts, explicit: Counts, flags: set<Subsystem>)
    requires Balances(st, explicit, {}) && Fits(Requested(explicit, flags))
    ensures var (r, ok) := Init(st, false, starts, flags);
            ok ==> Quit(r, false, flags).count == st.count && Quit(r, false, flags).running == st.running
  {
    InitIsAllOrNothing(st, starts, explicit, flags);
    var (r, ok) := Init(st, false, starts, flags);
    if ok {
      QuitAgain(r, explicit, flags);
      BalancedIsDetermined(explicit, st.count, st.running);
      BalancedIsDetermined(explicit, Quit(r, false, flags).count, Quit(r, false, flags).running);
    }
  }

  /** The flags that bring up the events subsystem, as the header documents. */
  const BRING_EVENTS: set<Subsystem> := {Events, Video, Audio, Joystick, Gamepad, Sensor, Camera}

  lemma NeedsEvents(explicit: Counts, flags: set<Subsystem>)
    ensures Needed(Requested(explicit, flags), Events) <==> Needed(explicit, Events) || flags * BRING_EVENTS != {}
  {
    var more := Requested(explicit, flags);
    assert forall s: Subsystem :: more.At(s) > 0 <==> explicit.At(s) > 0 || s in flags;
    assert forall c: Counts :: Needed(c, Events) <==> exists s :: s in BRING_EVENTS && c.At(s) > 0;
    if flags * BRING_EVENTS != {} {
      var s :| s in flags * BRING_EVENTS;
      assert s in BRING_EVENTS && more.At(s) > 0;
    }
    if Needed(more, Events) && !Needed(explicit, Events) {
      var s :| s in BRING_EVENTS && more.At(s) > 0;
      assert s in flags * BRING_EVENTS;
    }
  }

  lemma FreshFits(flags: set<Subsystem>)
    ensures Fits(Requested(NONE, flags))
  {
    forall s: Subsystem
      ensures CountsFor(Requested(NONE, flags)).At(s) <= 8
    {
      assert Requested(NONE, flags).At(s) <= 1;
    }
  }

  /** After a successful initialisation the events subsystem runs exactly if it did
      before or a flag brings it up, be it through SDL.c or through the subsystem's
      own request. */
  lemma EventsComeUpFor(st: Status, starts: Starts, explicit: Counts, flags: set<Subsystem>)
    requires Balances(st, explicit, {}) && Fits(Requested(explicit, flags))
    ensures var (r, ok) := Init(st, false, starts, flags);
            ok ==> (Events in r.running <==> Events in st.running || flags * BRING_EVENTS != {})
  {
    NeedsEvents(explicit, flags);
    InitIsAllOrNothing(st, starts, explicit, flags);
    var (r, ok) := Init(st, false, starts, flags);
    BalancedIsDetermined(explicit, st.count, st.running);
    BalancedIsDetermined(Requested(explicit, flags), r.count, r.running);
  }

  lemma NothingCounted(st: Status)
    requires RunsIffCounted(st.count, st.running, {}) && forall s: Subsystem :: st.count.At(s) == 0
    ensures st.count == NONE && st.running == {}
  {
    CountsEqual(st.count, NONE);
  }

  lemma NothingBalanced()
    ensures Balanced(NONE, NONE, {}, {}) && StopsOf({}) == multiset{}
  {
  }

  lemma ShutDownEmpties(st: Status, explicit: Counts)
    requires Balances(st, explicit, {})
    ensures var r := Quit(st, true, ALL);
            r.count == NONE && r.running == {} && Sound(r) && st.log <= r.log && OnlyForcedStops(r.log[|st.log|..])
  {
    QuitReleases(true, st, explicit, ALL);
    NothingCounted(Quit(st, true, ALL));
  }

  /** `SDL_Quit` stops every running subsystem, each exactly once, and leaves no
      count. ShutDownOrder says when the order of the dependencies is kept. */
  lemma ShutDownStopsEachOnce(st: Status, explicit: Counts)
    requires Balances(st, explicit, {})
    ensures var r := Quit(st, true, ALL);
            && r.count == NONE && r.running == {} && Balances(r, NONE, {})
            && st.log <= r.log && OnlyForcedStops(r.log[|st.log|..])
            && multiset(r.log[|st.log|..]) == StopsOf(st.running)
  {
    ShutDownEmpties(st, explicit);
    NothingBalanced();
    LogStops(st, Quit(st, true, ALL));
  }

  lemma LogStops(st: Status, r: Status)
    requires Sound(st) && Sound(r) && r.running == {} && st.log <= r.log && OnlyForcedStops(r.log[|st.log|..])
    ensures multiset(r.log[|st.log|..]) == StopsOf(st.running)
  {
    assert st.log + r.log[|st.log|..] == r.log;
    StoppedOnce(st.log, r.log[|st.log|..]);
    NothingBalanced();
  }

  // ----- whole runs -----

  datatype Call = InitCall(flags: set<Subsystem>, starts: Starts) | QuitCall(flags: set<Subsystem>) | ShutDownCall

  /** The state and the requests outstanding after some calls. */
  ghost function After(calls: seq<Call>): (Status, Counts) {
    if calls == [] then (Status(NONE, {}, []), NONE)
    else
      var (st, explicit) := After(calls[..|calls| - 1]);
      match calls[|calls| - 1]
      case InitCall(flags, starts) =>
        var (r, ok) := Init(st, false, starts, flags);
        (r, if ok then Requested(explicit, flags) else explicit)
      case QuitCall(flags) => (Quit(st, false, flags), Released(explicit, flags))
      case ShutDownCall => (Quit(st, true, ALL).(count := NONE), NONE)
  }

  /** Clients quit only what they initialised, or what nothing counts, and do
      not request more than the counters hold. */
  ghost predicate WellBehaved(calls: seq<Call>) {
    if calls == [] then true
    else
      var (st, explicit) := After(calls[..|calls| - 1]);
      WellBehaved(calls[..|calls| - 1]) &&
      match calls[|calls| - 1]
      case InitCall(flags, _) => Fits(Requested(explicit, flags))
      case QuitCall(flags) => forall s :: s in flags && explicit.At(s) == 0 ==> st.count.At(s) == 0
      case ShutDownCall => true
  }

  lemma {:induction false} RunBalances(calls: seq<Call>)
    requires WellBehaved(calls)
    ensures Balances(After(calls).0, After(calls).1, {})
  {
    if calls != [] {
      var front := calls[..|calls| - 1];
      RunBalances(front);
      var (st, explicit) := After(front);
      match calls[|calls| - 1]
      case InitCall(flags, starts) => InitIsAllOrNothing(st, starts, explicit, flags);
      case QuitCall(flags) => QuitReleases(false, st, explicit, flags);
      case ShutDownCall => ShutDownStopsEachOnce(st, explicit);
    }
  }

  /** After every run of well-behaved calls the counts and what runs are a
      function of the requests outstanding, whatever the order of the calls;
      starts and stops alternate, and dependencies run. */
  lemma RunsAreDetermined(calls: seq<Call>)
    requires WellBehaved(calls)
    ensures var (st, explicit) := After(calls);
            && st.count == CountsFor(explicit) && st.running == RunningFor(explicit)
            && LegalLog(st.log) && st.running == RunningAfter(st.log) && Closed(st.running)
  {
    RunBalances(calls);
    var (st, explicit) := After(calls);
    BalancedIsDetermined(explicit, st.count, st.running);
    BalancedIsClosed(explicit, st.count, st.running, {});
  }

  /** The events counter, written out: video and joysticks hold two requests each
      while they run, one from SDL.c and one of their own. */
  lemma EventsCounted(calls: seq<Call>)
    requires WellBehaved(calls)
    ensures var (st, explicit) := After(calls);
            st.count.At(Events) == explicit.At(Events)
                                   + 2 * One(Video in st.running) + 2 * One(Joystick in st.running)
                                   + One(Audio in st.running) + One(Camera in st.running) + One(Sensor in st.running)
  {
    RunBalances(calls);
  }
}
