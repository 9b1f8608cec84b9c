/** SDL_properties.c: groups of named properties, and who cleans up the
    pointers that were handed over with a cleanup callback. */
module Properties {
  import opened Words
  import opened Wrappers

  type GroupId = Uint32

  /** One call that handed `value` over with a cleanup callback. The serial
      number tells apart calls with the same arguments. */
  datatype Handover = Handover(callback: Ptr, userdata: Ptr, value: Ptr, serial: nat)

  datatype Property =
    | Pointer(pointer: Ptr)
    | Owned(handover: Handover)
    | Text(chars: string)
    | Number(n: int)
    | Real(x: real)
    | Boolean(b: bool)

  type Group = map<string, Property>
  type Groups = map<GroupId, Group>

  /** The handovers that die with a property. */
  function Dues(p: Property): set<Handover> {
    if p.Owned? then {p.handover} else {}
  }

  /** Group `g` keeps the value of handover `c` readable under `name`. */
  predicate Keeps(groups: Groups, g: GroupId, name: string, c: Handover) {
    g in groups && name in groups[g] && groups[g][name] == Owned(c)
  }

  ghost predicate Kept(groups: Groups, c: Handover) {
    exists g, name :: Keeps(groups, g, name, c)
  }

  ghost predicate Distinct(s: seq<Handover>) {
    forall i, j :: 0 <= i < j < |s| ==> s[i] != s[j]
  }

  ghost predicate Serial(asked: seq<Handover>) {
    forall i :: 0 <= i < |asked| ==> asked[i].serial == i
  }

  /** Every handover so far is in one place: its value is readable under one name
      of one group, or its cleanup has been called, once and with its own
      arguments; but for those in `hand`, which the running call still holds. */
  ghost predicate Accounted(groups: Groups, asked: seq<Handover>, called: seq<Handover>, hand: set<Handover>) {
    && Serial(asked)
    && Distinct(called)
    && (forall c :: c in called ==> c in asked && c !in hand && !Kept(groups, c))
    && (forall c :: c in hand ==> c in asked && !Kept(groups, c))
    && (forall g, name, c :: Keeps(groups, g, name, c) ==> c in asked)
    && (forall g, name, g', name', c ::
          Keeps(groups, g, name, c) && Keeps(groups, g', name', c) ==> g == g' && name == name')
    && (forall c :: c in asked ==> c in called || c in hand || Kept(groups, c))
  }

  lemma DistinctAppend(s: seq<Handover>, c: Handover)
    requires Distinct(s) && c !in s
    ensures Distinct(s + [c])
  {
    assert forall i :: 0 <= i < |s| ==> s[i] in s;
  }

  /** A new handover starts in the hand of the call that receives it. */
  lemma TakeOver(groups: Groups, asked: seq<Handover>, called: seq<Handover>, c: Handover)
    requires Accounted(groups, asked, called, {}) && c.serial == |asked|
    ensures Accounted(groups, asked + [c], called, {c})
  {
    assert forall i :: 0 <= i < |asked| ==> asked[i].serial != c.serial;
    assert c !in asked;
    assert forall g, name :: !Keeps(groups, g, name, c);
    assert !Kept(groups, c);
    assert forall i :: 0 <= i < |asked| ==> (asked + [c])[i] == asked[i];
  }

  /** The cleanup of a handover in hand is called. */
  lemma CallHeld(groups: Groups, asked: seq<Handover>, called: seq<Handover>, hand: set<Handover>, c: Handover)
    requires Accounted(groups, asked, called, hand) && c in hand
    ensures Accounted(groups, asked, called + [c], hand - {c})
  {
    DistinctAppend(called, c);
  }

  function Without(groups: Groups, g: GroupId, name: string): Groups
    requires g in groups
  {
    groups[g := groups[g] - {name}]
  }

  function With(groups: Groups, g: GroupId, name: string, p: Property): Groups
    requires g in groups
  {
    groups[g := groups[g][name := p]]
  }

  /** Taking a property out puts its handover into the running call's hand. */
  lemma TakeOut(groups: Groups, asked: seq<Handover>, called: seq<Handover>, hand: set<Handover>, g: GroupId, name: string)
    requires Accounted(groups, asked, called, hand) && g in groups && name in groups[g]
    ensures Accounted(Without(groups, g, name), asked, called, hand + Dues(groups[g][name]))
  {
    var p, rest := groups[g][name], Without(groups, g, name);
    assert forall h, n, c :: Keeps(rest, h, n, c) <==> Keeps(groups, h, n, c) && !(h == g && n == name);
    forall c | Kept(groups, c) && c !in Dues(p)
      ensures Kept(rest, c)
    {
      var h, n :| Keeps(groups, h, n, c);
      assert Keeps(rest, h, n, c);
    }
    if p.Owned? {
      assert Keeps(groups, g, name, p.handover);
    }
  }

  /** Putting a held property in takes its handover out of the hand. */
  lemma PutIn(groups: Groups, asked: seq<Handover>, called: seq<Handover>, hand: set<Handover>, g: GroupId, name: string, p: Property)
    requires Accounted(groups, asked, called, hand) && g in groups && name !in groups[g]
    requires Dues(p) <= hand
    ensures Accounted(With(groups, g, name, p), asked, called, hand - Dues(p))
  {
    var more := With(groups, g, name, p);
    assert forall h, n, c :: Keeps(more, h, n, c) <==> Keeps(groups, h, n, c) || (h == g && n == name && p == Owned(c));
    forall c | Kept(groups, c)
      ensures Kept(more, c)
    {
      var h, n :| Keeps(groups, h, n, c);
      assert Keeps(more, h, n, c);
    }
    if p.Owned? {
      assert Keeps(more, g, name, p.handover);
    }
  }

  /** An empty group keeps nothing, so it may come and go. */
  lemma EmptyGroup(groups: Groups, asked: seq<Handover>, called: seq<Handover>, hand: set<Handover>, g: GroupId)
    requires g in groups && groups[g] == map[]
    ensures Accounted(groups, asked, called, hand) <==> Accounted(groups - {g}, asked, called, hand)
  {
    assert forall h, n, c :: Keeps(groups - {g}, h, n, c) <==> Keeps(groups, h, n, c);
    assert forall c :: Kept(groups - {g}, c) <==> Kept(groups, c);
  }

  lemma {:induction false} Occurrences(s: seq<Handover>, c: Handover)
    requires Distinct(s)
    ensures multiset(s)[c] == if c in s then 1 else 0
  {
    if s != [] {
      var front, last := s[..|s| - 1], s[|s| - 1];
      assert s == front + [last];
      Occurrences(front, c);
    }
  }

  /** With no group left and nothing in hand, the cleanup calls are exactly the
      handovers: one each, none missing, none twice, none with other arguments. */
  lemma CalledOnceEach(asked: seq<Handover>, called: seq<Handover>)
    requires Accounted(map[], asked, called, {})
    ensures multiset(called) == multiset(asked)
  {
    assert forall c :: !Kept(map[], c);
    forall c: Handover
      ensures multiset(called)[c] == multiset(asked)[c]
    {
      Occurrences(called, c);
      Occurrences(asked, c);
    }
  }

  // ----- the public calls -----

  function DuesOf(property: Option<Property>): set<Handover> {
    if property.Some? then Dues(property.value) else {}
  }

  /** What becomes of one property that SDL_CopyProperties tries to copy. */
  datatype Outcome = Copied | NoMemory | NoRoom

  /** The binding that a copy leaves under `name`; a failed insertion has already
      replaced the old one. */
  function AfterCopy(src: Group, dst: Group, outcome: string -> Outcome, name: string): Option<Property> {
    if name in src && !src[name].Owned? && outcome(name) == Copied then Some(src[name])
    else if name in src && !src[name].Owned? && outcome(name) == NoRoom then None
    else if name in dst then Some(dst[name])
    else None
  }

  function Lookup(group: Group, name: string): Option<Property> {
    if name in group then Some(group[name]) else None
  }

  /** Every name but those in `left` has been copied, or not, from `src`. */
  ghost predicate CopiedBut(left: set<string>, src: Group, dst: Group, outcome: string -> Outcome, now: Group) {
    forall n :: Lookup(now, n) == if n in left then Lookup(dst, n) else AfterCopy(src, dst, outcome, n)
  }

  /** What a copy does, name by name: a copied property is bound as it was in the
      source, one without room is unbound, and every other name is left alone. */
  lemma CopyOutcomes(src: Group, dst: Group, outcome: string -> Outcome, now: Group, n: string)
    requires Lookup(now, n) == AfterCopy(src, dst, outcome, n)
    ensures n in src && !src[n].Owned? && outcome(n) == Copied ==> n in now && now[n] == src[n]
    ensures n in src && !src[n].Owned? && outcome(n) == NoRoom ==> n !in now
    ensures n !in src || src[n].Owned? || outcome(n) == NoMemory ==>
              (n in now <==> n in dst) && (n in now ==> now[n] == dst[n])
  {
  }

  /** Rebinding or unbinding one name leaves every other name of every group alone. */
  lemma OneNameChanges(groups: Groups, g: GroupId, name: string, p: Property, h: GroupId, n: string)
    requires g in groups && h in groups
    ensures name in With(groups, g, name, p)[g] && With(groups, g, name, p)[g][name] == p
    ensures name !in Without(groups, g, name)[g]
    ensures With(groups, g, name, p).Keys == Without(groups, g, name).Keys == groups.Keys
    ensures h != g || n != name ==>
              && (n in With(groups, g, name, p)[h] <==> n in groups[h])
              && (n in Without(groups, g, name)[h] <==> n in groups[h])
              && (n in groups[h] ==> With(groups, g, name, p)[h][n] == groups[h][n] == Without(groups, g, name)[h][n])
  {
  }

  lemma CopyStep(left: set<string>, src: Group, dst: Group, outcome: string -> Outcome,
                 before: Group, after: Group, name: string)
    requires CopiedBut(left, src, dst, outcome, before) && name in left && name in src
    requires forall n :: Lookup(after, n) == AfterCopy(map[name := src[name]], before, _ => outcome(name), n)
    ensures CopiedBut(left - {name}, src, dst, outcome, after)
  {
    assert Lookup(before, name) == Lookup(dst, name);
  }

  class PropertyGroups {
    var groups: Groups
    /** SDL_last_properties_id. */
    var last: Uint32
    /** Every handover with a callback, and every cleanup call, in order. */
    var asked: seq<Handover>
    var called: seq<Handover>

    /** Between public calls nothing is in hand. */
    ghost predicate Valid()
      reads this
    {
      && Accounted(groups, asked, called, {})
      && (forall g :: g in groups ==> 0 < g <= last)
    }

    constructor ()
      ensures Valid() && groups == map[] && asked == [] && called == []
    {
      groups, last, asked, called := map[], 0, [], [];
    }

    /** The new group is empty and its ID is new; the swap loop of LazyIds hands
        IDs out one after the other. A group that cannot be registered uses up its
        ID all the same. */
    method CreateProperties(memory: bool, registered: bool) returns (props: GroupId)
      requires Valid() && last < 0xFFFF_FFFF
      modifies this
      ensures Valid() && asked == old(asked) && called == old(called)
      ensures last == old(last) + if memory then 1 else 0
      ensures !memory || !registered ==> props == 0 && groups == old(groups)
      ensures memory && registered ==>
                props == last && props !in old(groups) && groups == old(groups)[props := map[]]
    {
      if !memory {
        return 0;
      }
      last := last + 1;
      props := last;
      if !registered {
        return 0;
      }
      groups := groups[props := map[]];
      assert groups - {props} == old(groups);
      EmptyGroup(groups, asked, called, {}, props);
    }

    /** A call receives a value with its callback. */
    method Receive(callback: Ptr, userdata: Ptr, value: Ptr) returns (c: Handover)
      requires Accounted(groups, asked, called, {})
      modifies this`asked
      ensures c == Handover(callback, userdata, value, |old(asked)|) && asked == old(asked) + [c]
      ensures Accounted(groups, asked, called, {c})
    {
      c := Handover(callback, userdata, value, |asked|);
      TakeOver(groups, asked, called, c);
      asked := asked + [c];
    }

    method CallCleanup(c: Handover, ghost hand: set<Handover>)
      requires c in hand && Accounted(groups, asked, called, hand)
      modifies this`called
      ensures called == old(called) + [c]
      ensures Accounted(groups, asked, called, hand - {c})
    {
      CallHeld(groups, asked, called, hand, c);
      called := called + [c];
    }

    /** SDL_FreePropertyWithCleanup with cleanup set. */
    method FreeProperty(p: Property, ghost hand: set<Handover>)
      requires Dues(p) <= hand && Accounted(groups, asked, called, hand)
      modifies this`called
      ensures called == old(called) + if p.Owned? then [p.handover] else []
      ensures Accounted(groups, asked, called, hand - Dues(p))
    {
      if p.Owned? {
        CallCleanup(p.handover, hand);
      } else {
        assert hand - Dues(p) == hand;
      }
    }

    /** Remove one binding of one group, as the group's hash table does. */
    method RemoveBinding(g: GroupId, name: string, ghost hand: set<Handover>)
      requires g in groups && Accounted(groups, asked, called, hand)
      modifies this`groups, this`called
      ensures groups == Without(old(groups), g, name)
      ensures old(called) <= called
      ensures Accounted(groups, asked, called, hand)
    {
      if name in groups[g] {
        var p := groups[g][name];
        TakeOut(groups, asked, called, hand, g, name);
        assert p.Owned? ==> p.handover !in hand by {
          assert p.Owned? ==> Keeps(groups, g, name, p.handover);
        }
        assert hand + Dues(p) - Dues(p) == hand;
        groups := Without(groups, g, name);
        FreeProperty(p, hand + Dues(p));
      } else {
        assert groups[g] - {name} == groups[g];
        assert groups == Without(groups, g, name);
      }
    }

    method PrivateSetProperty(props: GroupId, name: string, property: Option<Property>, stored: bool,
                              ghost hand: set<Handover>)
      returns (ok: bool)
      requires hand == DuesOf(property) && Accounted(groups, asked, called, hand)
      modifies this`groups, this`called
      ensures ok == (props in groups && name != "" && props != 0 && (property.None? || stored))
      ensures old(called) <= called
      ensures props !in old(groups) || name == "" || props == 0 ==> groups == old(groups)
      ensures props in old(groups) && name != "" && props != 0 ==>
                groups == if ok && property.Some? then With(old(groups), props, name, property.value)
                          else Without(old(groups), props, name)
      ensures !ok ==> forall c :: c in hand ==> c in called
      ensures Accounted(groups, asked, called, {})
    {
      if props == 0 || name == "" || props !in groups {
        if property.Some? {
          FreeProperty(property.value, hand);
        }
        return false;
      }
      RemoveBinding(props, name, hand);
      if property.Some? {
        if stored {
          PutIn(groups, asked, called, hand, props, name, property.value);
          groups := With(groups, props, name, property.value);
          assert groups[props] == old(groups)[props][name := property.value];
        } else {
          FreeProperty(property.value, hand);
          return false;
        }
      }
      return true;
    }

    /** Does a call with these arguments reach a group? */
    predicate Reaches(props: GroupId, name: string)
      reads this
    {
      props in groups && props != 0 && name != ""
    }

    /** A handover is bound, or its cleanup has been called when the call returns;
        a failed call has dropped the old binding all the same, unless it did not
        reach a group or found no memory for the new property. */
    method SetPointerPropertyWithCleanup(props: GroupId, name: string, value: Ptr, callback: Ptr, userdata: Ptr,
                                         memory: bool, stored: bool)
      returns (ok: bool)
      requires Valid()
      modifies this`groups, this`asked, this`called
      ensures Valid() && old(called) <= called
      ensures asked == if callback == 0 then old(asked)
                       else old(asked) + [Handover(callback, userdata, value, |old(asked)|)]
      ensures ok == (old(Reaches(props, name)) && (value == 0 || (memory && stored)))
      ensures !old(Reaches(props, name)) || (value != 0 && !memory) ==> groups == old(groups)
      ensures old(Reaches(props, name)) && value == 0 ==> groups == Without(old(groups), props, name)
      ensures old(Reaches(props, name)) && value != 0 && memory && !stored ==>
                groups == Without(old(groups), props, name)
      ensures ok && value != 0 ==>
                groups == With(old(groups), props, name,
                               if callback == 0 then Pointer(value) else Owned(asked[|asked| - 1]))
      ensures callback != 0 && !(ok && value != 0) ==> asked[|asked| - 1] in called
    {
      var p := Pointer(value);
      ghost var hand: set<Handover> := {};
      if callback != 0 {
        var c := Receive(callback, userdata, value);
        p, hand := Owned(c), {c};
      }
      if value == 0 || !memory {
        FreeProperty(p, hand);
        ghost var sofar := called;
        if value == 0 {
          ok := ClearProperty(props, name);
        } else {
          ok := false;
        }
        assert forall c :: c in sofar ==> c in called;
      } else {
        ok := PrivateSetProperty(props, name, Some(p), stored, hand);
      }
    }

    method ClearProperty(props: GroupId, name: string) returns (ok: bool)
      requires Accounted(groups, asked, called, {})
      modifies this`groups, this`called
      ensures ok == old(Reaches(props, name)) && old(called) <= called
      ensures groups == if ok then Without(old(groups), props, name) else old(groups)
      ensures Accounted(groups, asked, called, {})
    {
      ok := PrivateSetProperty(props, name, None, true, {});
    }

    /** The setters of values that nobody has to clean up; no value stands for a
        NULL pointer or string, which clears the property. */
    method SetPlainProperty(props: GroupId, name: string, p: Option<Property>, memory: bool, stored: bool) returns (ok: bool)
      requires Valid() && (p.Some? ==> !p.value.Owned?)
      modifies this`groups, this`called
      ensures Valid() && old(called) <= called
      ensures ok == (old(Reaches(props, name)) && (p.None? || (memory && stored)))
      ensures !old(Reaches(props, name)) || (p.Some? && !memory) ==> groups == old(groups)
      ensures old(Reaches(props, name)) && p.None? ==> groups == Without(old(groups), props, name)
      ensures old(Reaches(props, name)) && p.Some? && memory ==>
                groups == if stored then With(old(groups), props, name, p.value) else Without(old(groups), props, name)
    {
      if p.None? {
        ok := ClearProperty(props, name);
        return;
      }
      if !memory {
        return false;
      }
      ok := PrivateSetProperty(props, name, p, stored, {});
    }

    /** A value that can still be read has not been cleaned up. */
    method GetPointerProperty(props: GroupId, name: string, default: Ptr) returns (value: Ptr)
      requires Valid()
      ensures old(Reaches(props, name)) && name in groups[props] && groups[props][name].Pointer? ==>
                value == groups[props][name].pointer
      ensures old(Reaches(props, name)) && name in groups[props] && groups[props][name].Owned? ==>
                && value == groups[props][name].handover.value
                && groups[props][name].handover in asked
                && groups[props][name].handover !in called
      ensures !old(Reaches(props, name)) || name !in groups[props] ==> value == default
      ensures old(Reaches(props, name)) && name in groups[props]
              && !groups[props][name].Pointer? && !groups[props][name].Owned?
              ==> value == default
    {
      value := default;
      if props != 0 && name != "" && props in groups && name in groups[props] {
        var p := groups[props][name];
        if p.Pointer? {
          value := p.pointer;
        } else if p.Owned? {
          value := p.handover.value;
          assert Keeps(groups, props, name, p.handover);
          assert Kept(groups, p.handover);
        }
      }
    }

    /** One step of SDL_CopyProperties. */
    method CopyOneProperty(name: string, p: Property, dst: GroupId, outcome: Outcome) returns (ok: bool)
      requires dst in groups && Accounted(groups, asked, called, {})
      modifies this`groups, this`called
      ensures ok == (p.Owned? || outcome == Copied)
      ensures groups.Keys == old(groups).Keys && groups - {dst} == old(groups) - {dst}
      ensures forall n :: Lookup(groups[dst], n) ==
                          AfterCopy(map[name := p], old(groups)[dst], _ => outcome, n)
      ensures !p.Owned? && outcome == Copied ==> name in groups[dst] && groups[dst][name] == p
      ensures !p.Owned? && outcome == NoRoom ==> name !in groups[dst]
      ensures p.Owned? || outcome == NoMemory ==> groups[dst] == old(groups)[dst]
      ensures groups[dst] - {name} == old(groups)[dst] - {name}
      ensures old(called) <= called
      ensures Accounted(groups, asked, called, {})
    {
      if p.Owned? {
        return true;
      }
      if outcome == NoMemory {
        return false;
      }
      RemoveBinding(dst, name, {});
      if outcome == NoRoom {
        return false;
      }
      PutIn(groups, asked, called, {}, dst, name, p);
      groups := With(groups, dst, name, p);
      return true;
    }

    /** Each property of `src` is copied or not on its own; what had a cleanup in
        `src` is skipped, and what a copy replaces in `dst` is cleaned up. */
    method CopyProperties(src: GroupId, dst: GroupId, outcome: string -> Outcome) returns (ok: bool)
      requires Valid() && src != dst
      modifies this`groups, this`called
      ensures Valid() && old(called) <= called
      ensures !(src in old(groups) && dst in old(groups)) ==> !ok && groups == old(groups)
      ensures src in old(groups) && dst in old(groups) ==>
                && groups.Keys == old(groups).Keys && groups - {dst} == old(groups) - {dst}
                && (ok <==> forall n :: n in groups[src] && !groups[src][n].Owned? ==> outcome(n) == Copied)
                && (forall n :: Lookup(groups[dst], n) == AfterCopy(groups[src], old(groups)[dst], outcome, n))
                && (forall n :: n in groups[src] && !groups[src][n].Owned? && outcome(n) == Copied ==>
                      n in groups[dst] && groups[dst][n] == groups[src][n])
                && (forall n :: n in groups[src] && !groups[src][n].Owned? && outcome(n) == NoRoom ==> n !in groups[dst])
                && (forall n :: n !in groups[src] || groups[src][n].Owned? || outcome(n) == NoMemory ==>
                      (n in groups[dst] <==> n in old(groups)[dst])
                      && (n in groups[dst] ==> groups[dst][n] == old(groups)[dst][n]))
    {
      if src !in groups || dst !in groups {
        return false;
      }
      ok := true;
      var from, left := groups[src], groups[src].Keys;
      ghost var to := groups[dst];
      while left != {}
        invariant left <= from.Keys
        invariant groups.Keys == old(groups).Keys && groups - {dst} == old(groups) - {dst}
        invariant Accounted(groups, asked, called, {}) && old(called) <= called
        invariant ok <==> forall n :: n in from && n !in left && !from[n].Owned? ==> outcome(n) == Copied
        invariant CopiedBut(left, from, to, outcome, groups[dst])
        decreases left
      {
        var name :| name in left;
        ghost var before := groups[dst];
        var copied := CopyOneProperty(name, from[name], dst, outcome(name));
        CopyStep(left, from, to, outcome, before, groups[dst], name);
        ok, left := ok && copied, left - {name};
      }
      assert groups[src] == (groups - {dst})[src] == (old(groups) - {dst})[src] == from;
      forall n {
        CopyOutcomes(from, to, outcome, groups[dst], n);
      }
    }

    /** Empty a group, as destroying its hash table does. */
    method FreeProperties(props: GroupId)
      requires props in groups && Accounted(groups, asked, called, {})
      modifies this`groups, this`called
      ensures groups == old(groups)[props := map[]] && old(called) <= called
      ensures Accounted(groups, asked, called, {})
    {
      while groups[props] != map[]
        invariant props in groups && groups == old(groups)[props := groups[props]] && old(called) <= called
        invariant Accounted(groups, asked, called, {})
        decreases groups[props].Keys
      {
        var name :| name in groups[props];
        RemoveBinding(props, name, {});
      }
    }

    /** Destroying a group calls every cleanup it still owes. */
    method DestroyProperties(props: GroupId)
      requires Valid()
      modifies this`groups, this`called
      ensures Valid() && groups == old(groups) - {props} && old(called) <= called
      ensures forall name, c :: Keeps(old(groups), props, name, c) ==> c in called
    {
      if props in groups {
        FreeProperties(props);
        EmptyGroup(groups, asked, called, {}, props);
        groups := groups - {props};
        forall name, c | Keeps(old(groups), props, name, c)
          ensures c in called
        {
          assert !Kept(groups, c) by {
            assert forall g, n :: Keeps(groups, g, n, c) ==> Keeps(old(groups), g, n, c) && g != props;
          }
        }
      } else {
        assert groups - {props} == groups;
      }
    }

    /** When everything is shut down, the cleanup calls are the handovers: each
        happened once, with its own arguments. */
    method QuitProperties(global: GroupId)
      requires Valid()
      modifies this`groups, this`called
      ensures Valid() && groups == map[] && old(called) <= called
      ensures multiset(called) == multiset(asked)
    {
      if global != 0 {
        DestroyProperties(global);
      }
      while groups != map[]
        invariant Valid() && old(called) <= called
        decreases groups.Keys
      {
        var props :| props in groups;
        DestroyProperties(props);
      }
      CalledOnceEach(asked, called);
    }
  }
}
