/** SDL_hints.c: hints with priorities, environment variables that win over
    them, and watchers that are told about changes. */
module Hints {
  import opened Words
  import opened Wrappers

  type Text = Option<string>
  type Priority = x: int | 0 <= x <= 2
  const DEFAULT: Priority := 0
  const OVERRIDE: Priority := 2

  datatype Watch = Watch(callback: Ptr, userdata: Ptr)

  /** `watches` is the callback list, newest first. */
  datatype Hint = Hint(value: Text, priority: Priority, watches: seq<Watch>)

  /** Everything about one hint: its record, if there is one, and the new value
      that each callback was last told. */
  datatype Entry = Entry(hint: Option<Hint>, told: map<Watch, Text>)

  const NEW := Hint(None, DEFAULT, [])

  /** SDL_GetHint, where `env` is the hint's environment variable. */
  function Answer(env: Text, hint: Option<Hint>): Text {
    if hint.Some? && (env.None? || hint.value.priority == OVERRIDE) then hint.value.value else env
  }

  /** Each watch in turn is told `value`. */
  function Notified(told: map<Watch, Text>, watches: seq<Watch>, value: Text): map<Watch, Text>
    decreases watches
  {
    if watches == [] then told else Notified(told[watches[0] := value], watches[1..], value)
  }

  lemma {:induction false} NotifiedReaches(told: map<Watch, Text>, watches: seq<Watch>, value: Text)
    ensures var after := Notified(told, watches, value);
            forall w :: if w in watches then w in after && after[w] == value
                        else (w in after <==> w in told) && (w in told ==> after[w] == told[w])
    decreases watches
  {
    if watches != [] {
      NotifiedReaches(told[watches[0] := value], watches[1..], value);
    }
  }

  /** The list without its first match. */
  function Dropped(watches: seq<Watch>, w: Watch): seq<Watch> {
    if watches == [] then []
    else if watches[0] == w then watches[1..]
    else [watches[0]] + Dropped(watches[1..], w)
  }

  /** The loop that walks the list to the first match and unlinks it. */
  method Unlink(watches: seq<Watch>, w: Watch) returns (rest: seq<Watch>)
    ensures rest == Dropped(watches, w)
  {
    var i := 0;
    while i < |watches| && watches[i] != w
      invariant 0 <= i <= |watches|
      invariant Dropped(watches, w) == watches[..i] + Dropped(watches[i..], w)
    {
      i := i + 1;
    }
    if i < |watches| {
      assert watches[i..][1..] == watches[i + 1..];
      rest := watches[..i] + watches[i + 1..];
    } else {
      rest := watches;
    }
  }

  ghost predicate NoDuplicates(watches: seq<Watch>) {
    forall i, j :: 0 <= i < j < |watches| ==> watches[i] != watches[j]
  }

  lemma {:induction false} DroppedIsGone(watches: seq<Watch>, w: Watch)
    requires NoDuplicates(watches)
    ensures NoDuplicates(Dropped(watches, w))
    ensures forall v :: v in Dropped(watches, w) <==> v in watches && v != w
  {
    if watches != [] && watches[0] != w {
      var rest := watches[1..];
      assert watches == [watches[0]] + rest;
      assert watches[0] !in rest;
      DroppedIsGone(rest, w);
    } else if watches != [] {
      assert watches == [w] + watches[1..];
    }
  }

  // ----- the calls, on one hint -----

  datatype Call =
    | Set(value: Text, priority: Priority)
    | Reset
    | Add(watch: Watch)
    | Remove(watch: Watch)

  /** What the allocator grants a call: a new record, a copy of the value's text,
      and room for the new record among the properties. */
  datatype Memory = Memory(record: bool, text: bool, room: bool)

  const ENOUGH := Memory(true, true, true)

  /** The value that is stored: a text that cannot be copied becomes NULL. */
  function Stored(value: Text, mem: Memory): Text {
    if mem.text then value else None
  }

  /** SDL_SetHintWithPriority. Watchers are told the value, stored or not. */
  function AfterSet(env: Text, e: Entry, value: Text, priority: Priority, mem: Memory): (bool, Entry) {
    if env.Some? && priority < OVERRIDE then (false, e)
    else if e.hint.None? then
      if mem.record && mem.room then (true, e.(hint := Some(Hint(Stored(value, mem), priority, [])))) else (false, e)
    else
      var h := e.hint.value;
      if priority < h.priority then (false, e)
      else if h.value == value then (true, e.(hint := Some(h.(priority := priority))))
      else
        (true, Entry(Some(h.(value := Stored(value, mem), priority := priority)), Notified(e.told, h.watches, value)))
  }

  function AfterReset(env: Text, e: Entry): (bool, Entry) {
    if e.hint.None? then (false, e)
    else
      var h := e.hint.value;
      var told := if h.value != env then Notified(e.told, h.watches, env) else e.told;
      (true, Entry(Some(h.(value := None, priority := DEFAULT)), told))
  }

  function AfterRemove(e: Entry, w: Watch): Entry {
    if e.hint.None? then e
    else e.(hint := Some(e.hint.value.(watches := Dropped(e.hint.value.watches, w))))
  }

  /** SDL_AddHintCallback once there is memory for the watch itself. A new record
      that finds no room is released again; the callback is called even so. */
  function AfterAdd(env: Text, e: Entry, w: Watch, mem: Memory): (bool, Entry) {
    if e.hint.None? && !mem.record then (false, e)
    else if e.hint.None? && !mem.room then (false, e.(told := e.told[w := Answer(env, None)]))
    else
      var h := if e.hint.Some? then e.hint.value.(watches := Dropped(e.hint.value.watches, w)) else NEW;
      (true, Entry(Some(h.(watches := [w] + h.watches)), e.told[w := Answer(env, Some(h))]))
  }

  function After(env: Text, e: Entry, call: Call, mem: Memory): Entry {
    match call
    case Set(value, priority) => AfterSet(env, e, value, priority, mem).1
    case Reset => AfterReset(env, e).1
    case Add(w) => AfterAdd(env, e, w, mem).1
    case Remove(w) => AfterRemove(e, w)
  }

  /** May a set with this priority change the hint? */
  predicate Outranks(env: Text, e: Entry, priority: Priority) {
    (env.None? || priority == OVERRIDE) && (e.hint.Some? ==> priority >= e.hint.value.priority)
  }

  /** What SDL_GetHint answers after a call: the value of a set that succeeds, if it
      could be copied, and it succeeds unless an environment variable or a higher
      priority stands in the way; the environment variable after a reset; nothing
      new otherwise. */
  lemma AnswerAfter(env: Text, e: Entry, call: Call, mem: Memory)
    ensures var after := After(env, e, call, mem);
            match call
            case Set(value, priority) =>
              var ok := AfterSet(env, e, value, priority, mem).0;
              && (ok <==> Outranks(env, e, priority) && (e.hint.None? ==> mem.record && mem.room))
              && (ok && mem.text ==> Answer(env, after.hint) == value)
              && (ok ==> Answer(env, after.hint) in {value, None} && after.hint.value.priority == priority)
              && (!ok ==> after == e)
            case Reset => Answer(env, after.hint) == env
            case Add(_) => Answer(env, after.hint) == Answer(env, e.hint)
            case Remove(_) => Answer(env, after.hint) == Answer(env, e.hint)
  {
  }

  /** What a call returns: a set as AnswerAfter says, a reset whether there is a
      record, and the addition of a watch whether there is one in the end. */
  lemma Returned(env: Text, e: Entry, w: Watch, mem: Memory)
    ensures AfterReset(env, e).0 <==> e.hint.Some?
    ensures AfterAdd(env, e, w, mem).0 <==> e.hint.Some? || (mem.record && mem.room)
    ensures AfterAdd(env, e, w, mem).0 <==> AfterAdd(env, e, w, mem).1.hint.Some?
  {
  }

  /** A reset forgets the priority: after it a set succeeds with every priority,
      unless an environment variable is in the way, and its value is the answer. */
  lemma ResetUnlocks(env: Text, e: Entry, value: Text, priority: Priority, mem: Memory)
    requires e.hint.Some?
    ensures var (ok, after) := AfterSet(env, AfterReset(env, e).1, value, priority, mem);
            && (ok <==> env.None? || priority == OVERRIDE)
            && (ok && mem.text ==> Answer(env, after.hint) == value)
  {
  }

  /** The callbacks that a hint has. */
  function Watches(e: Entry): seq<Watch> {
    if e.hint.Some? then e.hint.value.watches else []
  }

  /** Which callbacks are listed after a call, in which order, and that listing them
      leaves value and priority alone. */
  lemma WatchesAfter(env: Text, e: Entry, call: Call, mem: Memory)
    requires Tidy(env, e)
    ensures var after := After(env, e, call, mem);
            match call
            case Set(_, _) => Watches(after) == Watches(e)
            case Reset => Watches(after) == Watches(e)
            case Add(w) =>
              && (AfterAdd(env, e, w, mem).0 ==>
                    && Watches(after) == [w] + Dropped(Watches(e), w)
                    && (forall v :: v in Watches(after) <==> v == w || v in Watches(e))
                    && w in after.told && after.told[w] == Answer(env, after.hint)
                    && after.hint.value.value == (if e.hint.Some? then e.hint.value.value else None)
                    && after.hint.value.priority == (if e.hint.Some? then e.hint.value.priority else 0))
              && (!AfterAdd(env, e, w, mem).0 ==> after.hint == e.hint)
            case Remove(w) =>
              && (forall v :: v in Watches(after) <==> v in Watches(e) && v != w)
              && (e.hint.Some? ==> after.hint == Some(e.hint.value.(watches := Watches(after))))
              && (w !in Watches(e) ==> after == e)
  {
    if call.Add? || call.Remove? {
      DroppedIsGone(Watches(e), call.watch);
      NothingDropped(Watches(e), call.watch);
    }
  }

  lemma {:induction false} NothingDropped(watches: seq<Watch>, w: Watch)
    ensures w !in watches ==> Dropped(watches, w) == watches
  {
    if watches != [] {
      NothingDropped(watches[1..], w);
    }
  }

  // ----- what watchers know -----

  /** No callback is listed twice, and an environment variable leaves nothing
      stored below override priority. */
  ghost predicate Tidy(env: Text, e: Entry) {
    e.hint.Some? ==>
      && NoDuplicates(e.hint.value.watches)
      && (env.Some? && e.hint.value.priority < OVERRIDE ==> e.hint.value.value.None?)
  }

  /** Every watch was last told what SDL_GetHint answers. */
  ghost predicate Agrees(env: Text, e: Entry) {
    e.hint.Some? ==>
      forall w :: w in e.hint.value.watches ==> w in e.told && e.told[w] == Answer(env, e.hint)
  }

  /** A call that changes what SDL_GetHint answers and tells nobody: an override
      to NULL that uncovers a stored NULL below an environment variable. */
  predicate Silent(env: Text, e: Entry, call: Call) {
    && env.Some? && call == Set(None, OVERRIDE)
    && e.hint.Some? && e.hint.value.priority < OVERRIDE && e.hint.value.watches != []
  }

  /** A call that tells watchers of a new value whose text then cannot be copied. */
  predicate Uncopied(env: Text, e: Entry, call: Call, mem: Memory) {
    && !mem.text && call.Set? && call.value.Some? && Outranks(env, e, call.priority)
    && e.hint.Some? && e.hint.value.value != call.value && e.hint.value.watches != []
  }

  lemma TidyStep(env: Text, e: Entry, call: Call, mem: Memory)
    requires Tidy(env, e)
    ensures Tidy(env, After(env, e, call, mem))
  {
    if (call.Add? || call.Remove?) && e.hint.Some? {
      var rest := Dropped(e.hint.value.watches, call.watch);
      DroppedIsGone(e.hint.value.watches, call.watch);
      assert forall i :: 0 <= i < |rest| ==> rest[i] in rest;
    }
  }

  lemma SetAgreement(env: Text, e: Entry, value: Text, priority: Priority, mem: Memory)
    requires Tidy(env, e) && Agrees(env, e) && e.hint.Some?
    ensures Agrees(env, AfterSet(env, e, value, priority, mem).1) <==>
            !Silent(env, e, Set(value, priority)) && !Uncopied(env, e, Set(value, priority), mem)
  {
    var watches := e.hint.value.watches;
    NotifiedReaches(e.told, watches, value);
    if watches != [] {
      assert watches[0] in watches;
    }
  }

  /** A call keeps watchers and SDL_GetHint in agreement unless it is silent or a
      copy fails in it, and such a call always breaks the agreement. */
  lemma AgreementStep(env: Text, e: Entry, call: Call, mem: Memory)
    requires Tidy(env, e) && Agrees(env, e)
    ensures Agrees(env, After(env, e, call, mem)) <==> !Silent(env, e, call) && !Uncopied(env, e, call, mem)
  {
    if e.hint.Some? {
      var h := e.hint.value;
      match call
      case Set(value, priority) => SetAgreement(env, e, value, priority, mem);
      case Reset => NotifiedReaches(e.told, h.watches, env);
      case Add(w) => DroppedIsGone(h.watches, w);
      case Remove(w) => DroppedIsGone(h.watches, w);
    }
  }

  /** The hint has a record that makes SDL_GetHint answer NULL. */
  predicate AnswersNull(env: Text, e: Entry) {
    e.hint.Some? && Answer(env, e.hint) == None
  }

  /** Once SDL_GetHint answers something else than NULL, every watcher has been
      put right again. */
  lemma RecoveryStep(env: Text, e: Entry, call: Call, mem: Memory)
    requires Tidy(env, e) && (Agrees(env, e) || AnswersNull(env, e))
    ensures var after := After(env, e, call, mem); Agrees(env, after) || AnswersNull(env, after)
  {
    if Agrees(env, e) {
      AgreementStep(env, e, call, mem);
    } else {
      var h := e.hint.value;
      match call
      case Set(value, priority) => NotifiedReaches(e.told, h.watches, value);
      case Reset => NotifiedReaches(e.told, h.watches, env);
      case Add(w) =>
      case Remove(w) =>
    }
  }

  /** Calls in order, each with what the allocator grants it. */
  type Calls = seq<(Call, Memory)>

  function Run(env: Text, calls: Calls): Entry {
    if calls == [] then Entry(None, map[])
    else
      var last := calls[|calls| - 1];
      After(env, Run(env, calls[..|calls| - 1]), last.0, last.1)
  }

  ghost predicate NeverSilent(env: Text, calls: Calls) {
    forall i :: 0 <= i < |calls| ==> !Silent(env, Run(env, calls[..i]), calls[i].0)
  }

  ghost predicate NeverUncopied(env: Text, calls: Calls) {
    forall i :: 0 <= i < |calls| ==> !Uncopied(env, Run(env, calls[..i]), calls[i].0, calls[i].1)
  }

  /** After any calls: no duplicates; and agreement as long as no call was silent,
      which none is without an environment variable, and no copy failed; also after
      such calls, except while SDL_GetHint answers NULL. */
  lemma {:induction false} WatchersAgree(env: Text, calls: Calls)
    ensures Tidy(env, Run(env, calls))
    ensures (env.None? || NeverSilent(env, calls)) && NeverUncopied(env, calls) ==> Agrees(env, Run(env, calls))
    ensures Agrees(env, Run(env, calls)) || AnswersNull(env, Run(env, calls))
  {
    if calls != [] {
      var n := |calls| - 1;
      var before := calls[..n];
      WatchersAgree(env, before);
      TidyStep(env, Run(env, before), calls[n].0, calls[n].1);
      RecoveryStep(env, Run(env, before), calls[n].0, calls[n].1);
      if (env.None? || NeverSilent(env, calls)) && NeverUncopied(env, calls) {
        assert forall i :: 0 <= i < n ==> before[..i] == calls[..i] && before[i] == calls[i];
        AgreementStep(env, Run(env, before), calls[n].0, calls[n].1);
      }
    }
  }

  /** A watcher of a hint with an environment variable hears nothing of an
      override to NULL, although SDL_GetHint answers NULL from then on. */
  lemma SilentOverride(text: string, w: Watch)
    ensures var env := Some(text);
            var e := Run(env, [(Add(w), ENOUGH), (Set(None, OVERRIDE), ENOUGH)]);
            && e.hint.Some? && w in e.hint.value.watches
            && Answer(env, e.hint) == None
            && w in e.told && e.told[w] == Some(text)
  {
    var env := Some(text);
    var calls := [(Add(w), ENOUGH), (Set(None, OVERRIDE), ENOUGH)];
    assert calls[..1] == [(Add(w), ENOUGH)] && calls[..1][..0] == [] && [w] + [] == [w];
    assert Run(env, calls[..1][..0]) == Entry(None, map[]);
    assert Run(env, calls[..1]) == Entry(Some(Hint(None, DEFAULT, [w])), map[w := env]);
  }

  /** Nor does one learn that the text it was told could not be copied. */
  lemma FailedCopy(text: string, w: Watch)
    ensures var e := Run(None, [(Add(w), ENOUGH), (Set(Some(text), DEFAULT), ENOUGH.(text := false))]);
            && e.hint.Some? && w in e.hint.value.watches
            && Answer(None, e.hint) == None
            && w in e.told && e.told[w] == Some(text)
  {
    var calls := [(Add(w), ENOUGH), (Set(Some(text), DEFAULT), ENOUGH.(text := false))];
    assert calls[..1] == [(Add(w), ENOUGH)] && calls[..1][..0] == [] && [w] + [] == [w];
    assert Run(None, calls[..1][..0]) == Entry(None, map[]);
    assert Run(None, calls[..1]) == Entry(Some(Hint(None, DEFAULT, [w])), map[w := None]);
    NotifiedReaches(map[w := None], [w], Some(text));
  }

  // ----- the hints of a program -----

  const VIDEO_DRIVER := "SDL_VIDEO_DRIVER"
  const AUDIO_DRIVER := "SDL_AUDIO_DRIVER"

  /** GetHintEnvironmentVariable: two hints fall back to older variable names. */
  function EnvironmentVariable(getenv: string -> Text, name: string): Text {
    if getenv(name).Some? then getenv(name)
    else if name == VIDEO_DRIVER then getenv("SDL_VIDEODRIVER")
    else if name == AUDIO_DRIVER then getenv("SDL_AUDIODRIVER")
    else None
  }

  /** The video and audio hints, and no others, also answer to their old names, but
      only while the new name is not set. */
  lemma OldNamesCount(getenv: string -> Text, name: string)
    ensures getenv(name).Some? ==> EnvironmentVariable(getenv, name) == getenv(name)
    ensures getenv("SDL_VIDEO_DRIVER").None? ==>
              EnvironmentVariable(getenv, "SDL_VIDEO_DRIVER") == getenv("SDL_VIDEODRIVER")
    ensures getenv("SDL_AUDIO_DRIVER").None? ==>
              EnvironmentVariable(getenv, "SDL_AUDIO_DRIVER") == getenv("SDL_AUDIODRIVER")
    ensures name != "SDL_VIDEO_DRIVER" && name != "SDL_AUDIO_DRIVER" ==>
              EnvironmentVariable(getenv, name) == getenv(name)
  {
    assert |VIDEO_DRIVER| == |AUDIO_DRIVER| && VIDEO_DRIVER[4] != AUDIO_DRIVER[4];
  }

  class HintTable {
    const getenv: string -> Text
    var hints: map<string, Hint>
    /** What each callback was last told about each hint. */
    var told: map<string, map<Watch, Text>>

    constructor (getenv: string -> Text)
      ensures this.getenv == getenv && hints == map[] && told == map[]
    {
      this.getenv := getenv;
      hints, told := map[], map[];
    }

    function Env(name: string): Text {
      EnvironmentVariable(getenv, name)
    }

    function At(name: string): Entry
      reads this
    {
      Entry(if name in hints then Some(hints[name]) else None, if name in told then told[name] else map[])
    }

    twostate predicate OthersUnchanged(name: string)
      reads this
    {
      forall n :: n != name ==> At(n) == old(At(n))
    }

    method NotifyAll(name: string, value: Text)
      requires name in hints
      modifies this`told
      ensures At(name) == old(At(name)).(told := Notified(old(At(name)).told, hints[name].watches, value))
      ensures OthersUnchanged(name)
    {
      var watches := hints[name].watches;
      var i := 0;
      if name !in told {
        told := told[name := map[]];
      }
      while i < |watches|
        invariant 0 <= i <= |watches| && name in told
        invariant OthersUnchanged(name)
        invariant Notified(told[name], watches[i..], value) == Notified(old(At(name)).told, watches, value)
      {
        told := told[name := told[name][watches[i] := value]];
        i := i + 1;
      }
    }

    /** The value is replaced before the watchers hear of it. */
    method ReplaceValue(name: string, value: Text, mem: Memory)
      requires name in hints
      modifies this
      ensures name in hints && hints[name] == old(hints[name]).(value := Stored(value, mem))
      ensures At(name).told == Notified(old(At(name)).told, old(hints[name]).watches, value)
      ensures OthersUnchanged(name)
    {
      hints := hints[name := hints[name].(value := Stored(value, mem))];
      assert OthersUnchanged(name);
      NotifyAll(name, value);
    }

    method SetHintWithPriority(name: string, value: Text, priority: Priority, mem: Memory) returns (ok: bool)
      modifies this
      ensures OthersUnchanged(name)
      ensures name == "" ==> !ok && At(name) == old(At(name))
      ensures name != "" ==> (ok, At(name)) == AfterSet(Env(name), old(At(name)), value, priority, mem)
    {
      if name == "" || (Env(name).Some? && priority < OVERRIDE) {
        return false;
      }
      if name in hints {
        if priority < hints[name].priority {
          return false;
        }
        if hints[name].value != value {
          ReplaceValue(name, value, mem);
        }
        hints := hints[name := hints[name].(priority := priority)];
        return true;
      }
      if mem.record && mem.room {
        hints := hints[name := Hint(Stored(value, mem), priority, [])];
      }
      return mem.record && mem.room;
    }

    method ResetHint(name: string) returns (ok: bool)
      modifies this
      ensures OthersUnchanged(name)
      ensures name == "" ==> !ok && At(name) == old(At(name))
      ensures name != "" ==> (ok, At(name)) == AfterReset(Env(name), old(At(name)))
    {
      if name == "" || name !in hints {
        return false;
      }
      if hints[name].value != Env(name) {
        NotifyAll(name, Env(name));
      }
      hints := hints[name := hints[name].(value := None, priority := DEFAULT)];
      return true;
    }

    method GetHint(name: string) returns (value: Text)
      ensures value == Answer(Env(name), At(name).hint)
    {
      value := Env(name);
      if name in hints && (value.None? || hints[name].priority == OVERRIDE) {
        value := hints[name].value;
      }
    }

    method RemoveHintCallback(name: string, w: Watch)
      modifies this`hints
      ensures OthersUnchanged(name)
      ensures At(name) == if name == "" then old(At(name)) else AfterRemove(old(At(name)), w)
    {
      if name == "" || name !in hints {
        return;
      }
      var rest := Unlink(hints[name].watches, w);
      hints := hints[name := hints[name].(watches := rest)];
    }

    /** `entryMemory` is for the watch. */
    method AddHintCallback(name: string, w: Watch, entryMemory: bool, mem: Memory) returns (ok: bool)
      modifies this
      ensures OthersUnchanged(name)
      ensures name == "" || w.callback == 0 || !entryMemory ==> !ok && At(name) == old(At(name))
      ensures name != "" && w.callback != 0 && entryMemory ==>
                (ok, At(name)) == AfterAdd(Env(name), old(At(name)), w, mem)
    {
      if name == "" || w.callback == 0 || !entryMemory {
        return false;
      }
      RemoveHintCallback(name, w);
      ok := true;
      if name !in hints {
        if !mem.record {
          return false;
        }
        ok := mem.room;
        if mem.room {
          hints := hints[name := NEW];
        }
      }
      if ok {
        hints := hints[name := hints[name].(watches := [w] + hints[name].watches)];
      }
      var value := GetHint(name);
      told := told[name := (if name in told then told[name] else map[])[w := value]];
    }
  }
}
