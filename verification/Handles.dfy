/** The table of open files and directories: every slot counts the handles on it and below it. */
module Handles {
  import opened Basics

  /** The names on the way from the root. */
  type Place = seq<string>

  datatype Slot = Slot(used: bool, parent: int, refs: int)

  /** Slot `i` is on the way from slot `h` to the root, `h` included. */
  ghost predicate Above(slots: seq<Slot>, depth: seq<nat>, h: int, i: int)
    decreases if 0 <= h < |depth| then depth[h] + 1 else 0
  {
    && 0 <= h < |slots| <= |depth|
    && (h == i || (0 <= slots[h].parent < |slots| && depth[slots[h].parent] < depth[h] && Above(slots, depth, slots[h].parent, i)))
  }

  /** Handles on slot `i` or below it. */
  ghost function Count(slots: seq<Slot>, depth: seq<nat>, open: seq<nat>, i: int): nat {
    if open == [] then 0
    else (if Above(slots, depth, open[0], i) then 1 else 0) + Count(slots, depth, open[1..], i)
  }

  /** The parent of a used slot is used and nearer to the root. */
  ghost predicate Rooted(slots: seq<Slot>, depth: seq<nat>, i: int)
    requires 0 <= i < |slots| <= |depth|
  {
    slots[i].parent == -1 || (0 <= slots[i].parent < |slots| && slots[slots[i].parent].used && depth[slots[i].parent] < depth[i])
  }

  ghost predicate AllRooted(slots: seq<Slot>, depth: seq<nat>)
    requires |slots| <= |depth|
  {
    var ok := forall i :: 0 <= i < |slots| && slots[i].used ==> Rooted(slots, depth, i);
    ok
  }

  ghost predicate TreeOk(slots: seq<Slot>, depth: seq<nat>, open: seq<nat>) {
    var ok :=
      && |slots| <= |depth|
      && AllRooted(slots, depth)
      && (forall i :: 0 <= i < |slots| ==> slots[i].refs == Count(slots, depth, open, i))
      && (forall i :: 0 <= i < |slots| ==> (slots[i].used <==> slots[i].refs > 0))
      && (forall k :: 0 <= k < |open| ==> open[k] < |slots|);
    ok
  }

  /** Only counts differ. */
  ghost predicate SameShape(slots: seq<Slot>, slots': seq<Slot>) {
    |slots'| == |slots| && forall i :: 0 <= i < |slots| ==> slots'[i].parent == slots[i].parent
  }

  lemma {:induction false} AboveSame(slots: seq<Slot>, slots': seq<Slot>, depth: seq<nat>, h: int, i: int)
    requires SameShape(slots, slots')
    ensures Above(slots', depth, h, i) == Above(slots, depth, h, i)
    decreases if 0 <= h < |depth| then depth[h] + 1 else 0
  {
    if 0 <= h < |slots| <= |depth| && 0 <= slots[h].parent < |slots| && depth[slots[h].parent] < depth[h] {
      AboveSame(slots, slots', depth, slots[h].parent, i);
    }
  }

  lemma {:induction false} CountSame(slots: seq<Slot>, slots': seq<Slot>, depth: seq<nat>, open: seq<nat>, i: int)
    requires SameShape(slots, slots')
    ensures Count(slots', depth, open, i) == Count(slots, depth, open, i)
  {
    if open != [] {
      AboveSame(slots, slots', depth, open[0], i);
      CountSame(slots, slots', depth, open[1..], i);
    }
  }

  lemma {:induction false} CountAdded(slots: seq<Slot>, depth: seq<nat>, open: seq<nat>, h: nat, i: int)
    ensures Count(slots, depth, open + [h], i) == Count(slots, depth, open, i) + if Above(slots, depth, h, i) then 1 else 0
  {
    if open == [] {
      assert (open + [h])[1..] == [];
    } else {
      CountAdded(slots, depth, open[1..], h, i);
      assert (open + [h])[1..] == open[1..] + [h];
    }
  }

  lemma {:induction false} CountDropped(slots: seq<Slot>, depth: seq<nat>, open: seq<nat>, k: nat, i: int)
    requires k < |open|
    ensures Count(slots, depth, open, i) == Count(slots, depth, open[..k] + open[k + 1..], i) + if Above(slots, depth, open[k], i) then 1 else 0
    decreases |open|
  {
    var open' := open[..k] + open[k + 1..];
    if k == 0 {
      assert open' == open[1..];
    } else {
      CountDropped(slots, depth, open[1..], k - 1, i);
      assert open'[1..] == open[1..][..k - 1] + open[1..][k..];
    }
  }

  /** What is above a slot is above everything below it. */
  lemma {:induction false} AboveTransitive(slots: seq<Slot>, depth: seq<nat>, h: int, i: int, j: int)
    requires Above(slots, depth, h, i) && Above(slots, depth, i, j)
    ensures Above(slots, depth, h, j)
    decreases if 0 <= h < |depth| then depth[h] + 1 else 0
  {
    if h != i {
      AboveTransitive(slots, depth, slots[h].parent, i, j);
    }
  }

  lemma {:induction false} CountGrows(slots: seq<Slot>, depth: seq<nat>, open: seq<nat>, i: int, j: int)
    requires Above(slots, depth, i, j)
    ensures Count(slots, depth, open, i) <= Count(slots, depth, open, j)
  {
    if open != [] {
      CountGrows(slots, depth, open[1..], i, j);
      if Above(slots, depth, open[0], i) {
        AboveTransitive(slots, depth, open[0], i, j);
      }
    }
  }

  lemma {:induction false} CountedIsAbove(slots: seq<Slot>, depth: seq<nat>, open: seq<nat>, k: nat, i: int)
    requires k < |open| && Above(slots, depth, open[k], i)
    ensures Count(slots, depth, open, i) > 0
    decreases |open|
  {
    if k > 0 {
      CountedIsAbove(slots, depth, open[1..], k - 1, i);
    }
  }

  lemma {:induction false} AboveIsNearer(slots: seq<Slot>, depth: seq<nat>, h: int, i: int)
    requires Above(slots, depth, h, i)
    ensures 0 <= i < |slots| <= |depth| && 0 <= h < |slots| && depth[i] <= depth[h]
    decreases if 0 <= h < |depth| then depth[h] + 1 else 0
  {
    if h != i {
      AboveIsNearer(slots, depth, slots[h].parent, i);
    }
  }

  // ---- Walks to the root ----

  /** A slot whose count changed by `d`; it is free when a walk that takes references away leaves none. */
  function Bump(s: Slot, d: int): Slot {
    Slot(s.used && !(d < 0 && s.refs + d == 0), s.parent, s.refs + d)
  }

  /** The slots from `h` up to, but without, slot `i` have changed by `d`. */
  ghost predicate Bumped(slots: seq<Slot>, depth: seq<nat>, h: int, i: int, d: int, slots': seq<Slot>) {
    var ok := |slots'| == |slots| && forall x :: 0 <= x < |slots| ==>
                slots'[x] == if Above(slots, depth, h, x) && !Above(slots, depth, i, x) then Bump(slots[x], d) else slots[x];
    ok
  }

  lemma BumpStep(slots: seq<Slot>, depth: seq<nat>, h: int, i: int, d: int, slots': seq<Slot>)
    requires Bumped(slots, depth, h, i, d, slots') && Above(slots, depth, h, i) && 0 <= i < |slots| <= |depth|
    requires Rooted(slots, depth, i)
    ensures slots'[i] == slots[i]
    ensures Bumped(slots, depth, h, slots[i].parent, d, slots'[i := Bump(slots[i], d)])
    ensures slots[i].parent >= 0 ==> Above(slots, depth, h, slots[i].parent)
  {
    var p := slots[i].parent;
    if p >= 0 {
      AboveTransitive(slots, depth, h, i, p);
    }
    if Above(slots, depth, p, i) {
      AboveIsNearer(slots, depth, p, i);
    }
  }

  class HandleTable {
    var slots: seq<Slot>
    /** Distance from the root. */
    ghost var depth: seq<nat>
    /** The handles given out and not yet closed, by slot. */
    ghost var open: seq<nat>
    /** What each used slot stands for: the names on the way to it from the root. */
    ghost var place: seq<Place>

    ghost predicate Valid()
      reads this
    {
      TreeOk(slots, depth, open) && PlacesOk(slots, place)
    }

    /** A table whose only handle is one on the root directory, which is in slot 0. */
    constructor (size: nat)
      requires size > 0
      ensures Valid() && |slots| == size && open == [0] && slots[0].used && slots[0].parent == -1 && place[0] == []
    {
      slots := seq(size, i => if i == 0 then Slot(true, -1, 1) else Slot(false, -1, 0));
      depth, open, place := seq(size, _ => 0), [0], seq(size, _ => []);
      new;
      assert open[1..] == [];
    }

    /** Changes the count of a slot and of all slots above it. */
    method Walk(handle: nat, d: int)
      requires |slots| <= |depth| && handle < |slots| && slots[handle].used && (d == 1 || d == -1)
      requires AllRooted(slots, depth)
      modifies this`slots
      ensures Bumped(old(slots), depth, handle, -1, d, slots)
    {
      var i: int := handle;
      while i >= 0
        invariant -1 <= i < |old(slots)| && |slots| == |old(slots)|
        invariant i >= 0 ==> Above(old(slots), depth, handle, i) && old(slots)[i].used
        invariant Bumped(old(slots), depth, handle, i, d, slots)
        decreases if i >= 0 then depth[i] + 1 else 0
      {
        assert Rooted(old(slots), depth, i);
        BumpStep(old(slots), depth, handle, i, d, slots);
        var s := slots[i];
        slots := slots[i := Slot(s.used && !(d < 0 && s.refs + d == 0), s.parent, s.refs + d)];
        i := s.parent;
      }
    }

    /** Gives out another handle on a slot. */
    method Increment(handle: nat)
      requires Valid() && handle < |slots| && slots[handle].used
      modifies this`slots, this`open
      ensures Valid() && open == old(open) + [handle] && SameUse(old(slots), slots)
    {
      Walk(handle, 1);
      HandleGiven(old(slots), depth, open, handle, slots);
      open := open + [handle];
    }

    /** Closes the handle `open[k]`; a slot is free again exactly when no handle on it or below it is left. */
    method Decrement(handle: nat, ghost k: nat)
      requires Valid() && k < |open| && open[k] == handle
      modifies this`slots, this`open
      ensures Valid() && open == old(open)[..k] + old(open)[k + 1..]
      ensures |slots| == |old(slots)|
      ensures forall i :: 0 <= i < |slots| ==> slots[i].parent == old(slots)[i].parent && (slots[i].used ==> old(slots)[i].used)
      ensures forall j :: 0 <= j < |open| ==> open[j] < |slots| && slots[open[j]].used
    {
      OpenIsUsed(slots, depth, open, k);
      Walk(handle, -1);
      HandleClosed(old(slots), depth, open, k, slots);
      open := open[..k] + open[k + 1..];
      forall j | 0 <= j < |open| ensures open[j] < |slots| && slots[open[j]].used {
        OpenIsUsed(slots, depth, open, j);
      }
    }

    /** The first slot that is not used. */
    method AllocSlot() returns (slot: int)
      ensures -1 <= slot < |slots| && (slot >= 0 ==> !slots[slot].used)
      ensures forall i :: 0 <= i < (if slot < 0 then |slots| else slot) ==> slots[i].used
    {
      var i := 0;
      while i < |slots|
        invariant i <= |slots| && forall x :: 0 <= x < i ==> slots[x].used
      {
        if !slots[i].used {
          return i;
        }
        i := i + 1;
      }
      return -1;
    }

    /** Opens what a directory has under a name, in a slot of its own; `found` says whether there is such a thing. */
    method Open(dir: nat, ghost name: string, found: bool) returns (slot: int)
      requires Valid() && dir < |slots| && slots[dir].used
      modifies this
      ensures Valid() && |slots| == |old(slots)| && slot < |slots|
      ensures slot >= 0 <==> found && !AllUsed(old(slots))
      ensures slot < 0 ==> slots == old(slots) && open == old(open) && place == old(place)
      ensures slot >= 0 ==> !old(slots)[slot].used && slots[slot].used && slots[slot].parent == dir && open == old(open) + [slot]
      ensures slot >= 0 ==> forall i :: 0 <= i < slot ==> old(slots)[i].used
      ensures slot >= 0 ==> place == old(place)[slot := old(place)[dir] + [name]]
      ensures if slot >= 0 then Grown(old(slots), old(depth), slot, dir, slots, depth) else depth == old(depth)
    {
      if !found {
        return -1;
      }
      slot := AllocSlot();
      if slot < 0 {
        return;
      }
      ghost var slots0, depth0, open0 := slots, depth, open;
      Enter(slot, dir);
      PlaceOpened(slots0, depth0, open0, place, slot, dir, slots, name);
      place := place[slot := place[dir] + [name]];
    }

    /** Puts a new entry of a directory into a free slot. */
    method Enter(slot: nat, dir: nat)
      requires TreeOk(slots, depth, open) && dir < |slots| && slots[dir].used && slot < |slots| && !slots[slot].used
      modifies this`slots, this`depth, this`open
      ensures TreeOk(slots, depth, open) && Joined(old(slots), slot, dir, slots) && open == old(open) + [slot]
      ensures Grown(old(slots), old(depth), slot, dir, slots, depth)
    {
      ghost var slots0, depth0 := slots, depth;
      SlotJoins(slots, depth, open, slot, dir);
      slots := slots[slot := Slot(true, dir, 1)];
      depth := depth[slot := depth[dir] + 1];
      ghost var slots1, depth1 := slots, depth;
      Walk(dir, 1);
      SlotOpened(slots0, depth0, open, slot, dir, slots1, depth1, slots);
      open := open + [slot];
    }

    /** Follows a path from an open directory. The handles held before stay; one more is given out on success,
        on just the place the path leads to, and none on failure. It fails exactly if the path leads nowhere or
        needs more slots than there are. */
    method OpenPath(from: nat, path: seq<Component>) returns (r: int)
      requires Valid() && from < |slots| && slots[from].used
      modifies this
      ensures Valid() && (r >= 0 ==> open == old(open) + [r]) && (r < 0 ==> open == old(open))
      ensures r >= 0 ==> r < |slots| && slots[r].used && Follow(old(place)[from], path) == Some(place[r])
      ensures r < 0 <==> Follow(old(place)[from], path) == None || NeedsMore(path, |Unused(old(slots))|)
    {
      ghost var front, free, at := open, |Unused(slots)|, place[from];
      WayUsed(slots, depth, front, from);
      Increment(from);
      SameOwn(old(slots), slots, depth, front, from);
      var cur := from;
      assert path[..0] == [];
      for i := 0 to |path|
        invariant Valid() && 0 <= cur < |slots| && slots[cur].used && open == front + [cur]
        invariant Reached(slots, depth, front, place, cur, at, path[..i], free)
      {
        if path[i] == Dot {
          ReachedNext(slots, depth, front, place, cur, at, path, i, free, slots, depth, place, cur);
        } else {
          assert forall x :: (front + [x])[..|front|] == front;
          ghost var slots0, depth0, place0, cur0 := slots, depth, place, cur;
          var next := Step(cur, path[i], |front|);
          if next < 0 {
            StepFails(slots0, depth0, front, place0, cur0, at, path, i, free);
            return -1;
          }
          ReachedNext(slots0, depth0, front, place0, cur0, at, path, i, free, slots, depth, place, next);
          cur := next;
        }
      }
      assert path[..|path|] == path;
      return cur;
    }

    /** Goes from one directory to the next one of a path, giving up the handle `open[k]` on it. */
    method Step(cur: nat, c: Component, ghost k: nat) returns (next: int)
      requires Valid() && |open| == k + 1 && open[k] == cur && c != Dot && cur < |place|
      modifies this
      ensures Valid() && open == if next >= 0 then old(open)[..k] + [next] else old(open)[..k]
      ensures next >= 0 ==> next < |slots| && slots[next].used && Along(old(place)[cur], c) == Some(place[next])
      ensures next < 0 <==> Along(old(place)[cur], c) == None || (c.Name? && AllUsed(old(slots)))
      ensures next >= 0 ==> Took(old(slots), old(depth), old(open)[..k], cur, c, slots, depth, next)
    {
      next := Advance(cur, c, k);
      ghost var between := slots;
      Decrement(cur, k);
      assert next >= 0 ==> (old(open) + [next])[..k] + (old(open) + [next])[k + 1..] == old(open)[..k] + [next];
      assert next < 0 ==> old(open)[..k] + old(open)[k + 1..] == old(open)[..k];
      if next >= 0 {
        assert open[k] == next;
        SameOwn(between, slots, depth, old(open)[..k], next);
      }
    }

    /** Opens the next directory of a path. */
    method Advance(cur: nat, c: Component, ghost k: nat) returns (next: int)
      requires Valid() && |open| == k + 1 && open[k] == cur && c != Dot && cur < |place|
      modifies this
      ensures Valid() && open == if next >= 0 then old(open) + [next] else old(open)
      ensures next >= 0 ==> next < |slots| && slots[next].used && Along(old(place)[cur], c) == Some(place[next])
      ensures next < 0 <==> Along(old(place)[cur], c) == None || (c.Name? && AllUsed(old(slots)))
      ensures next >= 0 ==> Took(old(slots), old(depth), old(open)[..k], cur, c, slots, depth, next)
    {
      OpenIsUsed(slots, depth, open, k);
      next := -1;
      if c == DotDot {
        next := OpenParent(cur, k);
      } else if c.Name? {
        next := OpenEntry(cur, c.name, c.found, k);
      }
    }

    method OpenEntry(cur: nat, ghost name: string, found: bool, ghost k: nat) returns (next: int)
      requires Valid() && |open| == k + 1 && open[k] == cur && cur < |slots| && slots[cur].used && |place| == |slots|
      modifies this
      ensures Valid() && open == if next >= 0 then old(open) + [next] else old(open)
      ensures next >= 0 ==> next < |slots| && slots[next].used && Along(old(place)[cur], Name(name, found)) == Some(place[next])
      ensures next < 0 <==> !found || AllUsed(old(slots))
      ensures next >= 0 ==> Took(old(slots), old(depth), old(open)[..k], cur, Name(name, found), slots, depth, next)
    {
      ghost var front := open[..k];
      LastOf(open, k);
      next := Open(cur, name, found);
      if next >= 0 {
        OwnOpened(old(slots), old(depth), front, cur, next, slots, depth);
      }
    }

    method OpenParent(cur: nat, ghost k: nat) returns (next: int)
      requires Valid() && k < |open| && cur < |slots| && slots[cur].used && |place| == |slots|
      modifies this`slots, this`open
      ensures Valid() && open == if next >= 0 then old(open) + [next] else old(open)
      ensures next >= 0 ==> next < |slots| && slots[next].used && Along(place[cur], DotDot) == Some(place[next])
      ensures next < 0 <==> Along(place[cur], DotDot) == None
      ensures next >= 0 ==> Took(old(slots), depth, old(open)[..k], cur, DotDot, slots, depth, next)
    {
      next := slots[cur].parent;
      assert Rooted(slots, depth, cur);
      if next >= 0 {
        OwnParent(slots, depth, open[..k], cur);
        Increment(next);
        SameOwn(old(slots), slots, depth, old(open)[..k], next);
      }
    }
  }

  /** A component of a path: a name that is no valid one, or one under which something is found or not. */
  datatype Component = Dot | DotDot | Invalid | Name(name: string, found: bool)

  /** Where one component leads from a place. */
  function Along(at: Place, c: Component): Option<Place> {
    match c
    case Dot => Some(at)
    case DotDot => if at == [] then None else Some(at[..|at| - 1])
    case Invalid => None
    case Name(name, found) => if found then Some(at + [name]) else None
  }

  /** Where a path leads from a place. */
  function Follow(at: Place, path: seq<Component>): Option<Place> {
    if path == [] then Some(at) else
    var before := Follow(at, path[..|path| - 1]);
    if before.None? then None else Along(before.value, path[|path| - 1])
  }

  lemma FollowNext(at: Place, path: seq<Component>, i: nat)
    requires i < |path|
    ensures var before := Follow(at, path[..i]);
            Follow(at, path[..i + 1]) == if before.None? then None else Along(before.value, path[i])
  {
    assert path[..i + 1][..i] == path[..i];
  }

  lemma {:induction false} FollowFails(at: Place, path: seq<Component>, i: nat)
    requires i <= |path| && Follow(at, path[..i]) == None
    ensures Follow(at, path) == None
    decreases |path| - i
  {
    if i < |path| {
      FollowNext(at, path, i);
      FollowFails(at, path, i + 1);
    } else {
      assert path[..i] == path;
    }
  }

  // ---- Slots a path needs ----

  /** Slots taken on a way through a path, after one more component: each name takes one, and `..` gives back the
      last one taken, if any. */
  function Deeper(n: nat, c: Component): nat {
    if c.Name? then n + 1 else if c == DotDot && n > 0 then n - 1 else n
  }

  function Nested(path: seq<Component>): nat {
    if path == [] then 0 else Deeper(Nested(path[..|path| - 1]), path[|path| - 1])
  }

  lemma NestedNext(path: seq<Component>, i: nat)
    requires i < |path|
    ensures Nested(path[..i + 1]) == Deeper(Nested(path[..i]), path[i])
  {
    assert path[..i + 1][..i] == path[..i];
  }

  predicate StuckAt(path: seq<Component>, i: int, free: nat) {
    0 <= i < |path| && path[i].Name? && Nested(path[..i]) >= free
  }

  /** At some name all of `free` slots are taken already. */
  predicate NeedsMore(path: seq<Component>, free: nat) {
    exists i :: 0 <= i < |path| && StuckAt(path, i, free)
  }

  ghost function Unused(slots: seq<Slot>): set<nat> {
    set i: nat | 0 <= i < |slots| && !slots[i].used
  }

  /** Slots with no handle of `front` on them or below them. */
  ghost function NotHeld(slots: seq<Slot>, depth: seq<nat>, front: seq<nat>): set<nat> {
    set i: nat | 0 <= i < |slots| && Count(slots, depth, front, i) == 0
  }

  /** Slots from `h` up to the first that a handle of `front` is on or below. */
  ghost function Own(slots: seq<Slot>, depth: seq<nat>, front: seq<nat>, h: int): nat
    decreases if 0 <= h < |depth| then depth[h] + 1 else 0
  {
    if !(0 <= h < |slots| <= |depth|) || Count(slots, depth, front, h) > 0 then 0
    else 1 + if 0 <= slots[h].parent < |slots| && depth[slots[h].parent] < depth[h] then Own(slots, depth, front, slots[h].parent) else 0
  }

  ghost function WayUp(slots: seq<Slot>, depth: seq<nat>, h: int): set<nat> {
    set i: nat | 0 <= i < |slots| && Above(slots, depth, h, i)
  }

  predicate AllUsed(slots: seq<Slot>) {
    forall i :: 0 <= i < |slots| ==> slots[i].used
  }

  /** After one component of a path the slots held by the handles of `front` are the same, and as many more or fewer
      are taken as the component says. */
  ghost predicate Took(slots: seq<Slot>, depth: seq<nat>, front: seq<nat>, cur: int, c: Component,
                       slots': seq<Slot>, depth': seq<nat>, next: int) {
    var ok := NotHeld(slots', depth', front) == NotHeld(slots, depth, front) &&
              Own(slots', depth', front, next) == Deeper(Own(slots, depth, front, cur), c);
    ok
  }

  lemma {:induction false} OwnIsSize(slots: seq<Slot>, depth: seq<nat>, front: seq<nat>, h: int)
    ensures |WayUp(slots, depth, h) * NotHeld(slots, depth, front)| == Own(slots, depth, front, h)
    decreases if 0 <= h < |depth| then depth[h] + 1 else 0
  {
    var own := WayUp(slots, depth, h) * NotHeld(slots, depth, front);
    if !(0 <= h < |slots| <= |depth|) {
      assert own == {};
    } else if Count(slots, depth, front, h) > 0 {
      forall i: nat | i in WayUp(slots, depth, h) ensures i !in own {
        CountGrows(slots, depth, front, h, i);
      }
      assert own == {};
    } else {
      var p := slots[h].parent;
      if 0 <= p < |slots| && depth[p] < depth[h] {
        OwnIsSize(slots, depth, front, p);
        var rest := WayUp(slots, depth, p) * NotHeld(slots, depth, front);
        if h in rest {
          AboveIsNearer(slots, depth, p, h);
        }
        assert own == rest + {h};
      } else {
        assert own == {h};
      }
    }
  }

  /** The slots not used are those that no handle of `front` holds, less those on the way of the last handle. */
  lemma SlotsLeft(slots: seq<Slot>, depth: seq<nat>, front: seq<nat>, h: nat)
    requires TreeOk(slots, depth, front + [h])
    ensures |Unused(slots)| + Own(slots, depth, front, h) == |NotHeld(slots, depth, front)|
    ensures |Unused(slots)| == 0 <==> AllUsed(slots)
  {
    OwnIsSize(slots, depth, front, h);
    var own, rest := WayUp(slots, depth, h) * NotHeld(slots, depth, front), Unused(slots);
    forall i: nat | i < |slots| ensures i in NotHeld(slots, depth, front) <==> i in own || i in rest {
      CountAdded(slots, depth, front, h, i);
    }
    forall i | i in own ensures i !in rest {
      CountAdded(slots, depth, front, h, i);
    }
    assert NotHeld(slots, depth, front) == own + rest;
    if AllUsed(slots) {
      assert rest == {};
    } else {
      var i: nat :| i < |slots| && !slots[i].used;
      assert i in rest;
    }
  }

  lemma {:induction false} SameOwn(slots: seq<Slot>, slots': seq<Slot>, depth: seq<nat>, front: seq<nat>, h: int)
    requires SameShape(slots, slots')
    ensures Own(slots', depth, front, h) == Own(slots, depth, front, h) && NotHeld(slots', depth, front) == NotHeld(slots, depth, front)
    decreases if 0 <= h < |depth| then depth[h] + 1 else 0
  {
    forall i ensures Count(slots', depth, front, i) == Count(slots, depth, front, i) {
      CountSame(slots, slots', depth, front, i);
    }
    if 0 <= h < |slots| <= |depth| && 0 <= slots[h].parent < |slots| && depth[slots[h].parent] < depth[h] {
      SameOwn(slots, slots', depth, front, slots[h].parent);
    }
  }

  /** At the beginning of a path nothing is taken. */
  lemma WayUsed(slots: seq<Slot>, depth: seq<nat>, front: seq<nat>, h: nat)
    requires TreeOk(slots, depth, front) && h < |slots| && slots[h].used
    ensures Own(slots, depth, front, h) == 0 && NotHeld(slots, depth, front) == Unused(slots)
  {
  }

  /** `..` gives back one slot, if any was taken. */
  lemma OwnParent(slots: seq<Slot>, depth: seq<nat>, front: seq<nat>, h: nat)
    requires h < |slots| <= |depth| && Rooted(slots, depth, h) && slots[h].parent >= 0
    ensures Own(slots, depth, front, slots[h].parent) == Deeper(Own(slots, depth, front, h), DotDot)
  {
    var p := slots[h].parent;
    if Count(slots, depth, front, h) > 0 {
      assert Above(slots, depth, h, p);
      CountGrows(slots, depth, front, h, p);
    }
  }

  /** Slot `s` was put below `dir`; nothing else was moved. */
  ghost predicate Grown(slots: seq<Slot>, depth: seq<nat>, s: nat, dir: nat, slots': seq<Slot>, depth': seq<nat>) {
    var ok := s < |slots| <= |depth| && dir < |slots| &&
              SameShape(slots[s := Slot(true, dir, 1)], slots') && depth' == depth[s := depth[dir] + 1];
    ok
  }

  lemma {:induction false} OwnMoved(slots: seq<Slot>, depth: seq<nat>, front: seq<nat>, s: nat, e: Slot, n: nat, h: int)
    requires s < |slots| <= |depth| && AllRooted(slots, depth)
    requires 0 <= h < |slots| && slots[h].used && !Above(slots, depth, h, s)
    requires forall i :: Count(slots[s := e], depth[s := n], front, i) == Count(slots, depth, front, i)
    ensures Own(slots[s := e], depth[s := n], front, h) == Own(slots, depth, front, h)
    decreases depth[h]
  {
    assert Rooted(slots, depth, h);
    if slots[h].parent >= 0 {
      OwnMoved(slots, depth, front, s, e, n, slots[h].parent);
    }
  }

  lemma LastOf(open: seq<nat>, k: nat)
    requires |open| == k + 1
    ensures open == open[..k] + [open[k]]
  {
  }

  /** A name takes one slot. */
  lemma OwnOpened(slots: seq<Slot>, depth: seq<nat>, front: seq<nat>, dir: nat, s: nat, slots': seq<Slot>, depth': seq<nat>)
    requires TreeOk(slots, depth, front + [dir]) && s < |slots| && !slots[s].used && dir < |slots| && slots[dir].used
    requires Grown(slots, depth, s, dir, slots', depth')
    ensures NotHeld(slots', depth', front) == NotHeld(slots, depth, front)
    ensures Own(slots', depth', front, s) == Own(slots, depth, front, dir) + 1
  {
    var open, e, n := front + [dir], Slot(true, dir, 1), depth[dir] + 1;
    var slots1 := slots[s := e];
    forall k | 0 <= k < |front| ensures front[k] < |slots| && slots[front[k]].used && !Above(slots, depth, front[k], s) {
      assert open[k] == front[k];
      OpenIsUsed(slots, depth, open, k);
      NotAbove(slots, depth, open, s, front[k]);
    }
    forall i ensures Count(slots1, depth', front, i) == Count(slots, depth, front, i) {
      CountMoved(slots, depth, front, s, e, n, i);
    }
    NotAbove(slots, depth, open, s, dir);
    OwnMoved(slots, depth, front, s, e, n, dir);
    CountAdded(slots, depth, front, dir, s);
    assert NotHeld(slots1, depth', front) == NotHeld(slots, depth, front);
    SameOwn(slots1, slots', depth', front, s);
  }

  /** A path from `at` leads to what slot `cur` stands for; it has taken as many of the `free` slots as it says, and
      was stuck nowhere. */
  ghost predicate Reached(slots: seq<Slot>, depth: seq<nat>, front: seq<nat>, place: seq<Place>, cur: int,
                          at: Place, path: seq<Component>, free: nat) {
    var ok :=
      && 0 <= cur < |place| && Follow(at, path) == Some(place[cur])
      && Own(slots, depth, front, cur) == Nested(path) && |NotHeld(slots, depth, front)| == free
      && !NeedsMore(path, free);
    ok
  }

  lemma StuckNext(path: seq<Component>, i: nat, free: nat)
    requires i < |path|
    ensures NeedsMore(path[..i + 1], free) <==> NeedsMore(path[..i], free) || StuckAt(path, i, free)
    ensures NeedsMore(path[..i + 1], free) ==> NeedsMore(path, free)
  {
    var some, more := path[..i], path[..i + 1];
    forall j | 0 <= j < i ensures StuckAt(more, j, free) == StuckAt(some, j, free) == StuckAt(path, j, free) {
      assert more[..j] == some[..j] == path[..j];
    }
    assert more[..i] == some;
    assert StuckAt(more, i, free) == StuckAt(path, i, free);
  }

  lemma ReachedNext(slots: seq<Slot>, depth: seq<nat>, front: seq<nat>, place: seq<Place>, cur: int, at: Place,
                    path: seq<Component>, i: nat, free: nat, slots': seq<Slot>, depth': seq<nat>, place': seq<Place>, next: int)
    requires i < |path| && Reached(slots, depth, front, place, cur, at, path[..i], free) && TreeOk(slots, depth, front + [cur])
    requires 0 <= next < |place'| && Along(place[cur], path[i]) == Some(place'[next]) && !(path[i].Name? && AllUsed(slots))
    requires Took(slots, depth, front, cur, path[i], slots', depth', next)
    ensures Reached(slots', depth', front, place', next, at, path[..i + 1], free)
  {
    FollowNext(at, path, i);
    NestedNext(path, i);
    StuckNext(path, i, free);
    SlotsLeft(slots, depth, front, cur);
  }

  lemma StepFails(slots: seq<Slot>, depth: seq<nat>, front: seq<nat>, place: seq<Place>, cur: int, at: Place,
                  path: seq<Component>, i: nat, free: nat)
    requires i < |path| && Reached(slots, depth, front, place, cur, at, path[..i], free) && TreeOk(slots, depth, front + [cur])
    requires Along(place[cur], path[i]) == None || (path[i].Name? && AllUsed(slots))
    ensures Follow(at, path) == None || NeedsMore(path, free)
  {
    FollowNext(at, path, i);
    if Along(place[cur], path[i]) == None {
      FollowFails(at, path, i + 1);
    } else {
      SlotsLeft(slots, depth, front, cur);
      StuckNext(path, i, free);
    }
  }

  /** A slot without parent stands for the root, another one for an entry of what its parent stands for. */
  ghost predicate PlacesOk(slots: seq<Slot>, place: seq<Place>) {
    var ok := |place| == |slots| && forall i :: 0 <= i < |slots| && slots[i].used ==>
                if 0 <= slots[i].parent < |slots| then place[i] != [] && place[slots[i].parent] == place[i][..|place[i]| - 1]
                else place[i] == [];
    ok
  }

  /** Slot `s` is used below `dir`; the others are used as before. */
  ghost predicate Joined(slots: seq<Slot>, s: nat, dir: nat, slots': seq<Slot>) {
    var ok := |slots'| == |slots| && s < |slots| && slots'[s] == Slot(true, dir, 1)
              && forall i :: 0 <= i < |slots| && i != s ==> slots'[i].used == slots[i].used && slots'[i].parent == slots[i].parent;
    ok
  }

  lemma PlaceOpened(slots: seq<Slot>, depth: seq<nat>, open: seq<nat>, place: seq<Place>, s: nat, dir: nat, slots': seq<Slot>,
                    name: string)
    requires TreeOk(slots, depth, open) && PlacesOk(slots, place) && s < |slots| && !slots[s].used && dir < |slots| && slots[dir].used
    requires Joined(slots, s, dir, slots')
    ensures PlacesOk(slots', place[s := place[dir] + [name]])
  {
    CountsAreExact(slots, depth, open, s);
    var place' := place[s := place[dir] + [name]];
    assert (place[dir] + [name])[..|place[dir]|] == place[dir];
  }

  /** A slot without references is above no handle and above no used slot. */
  lemma NotAbove(slots: seq<Slot>, depth: seq<nat>, open: seq<nat>, s: nat, h: nat)
    requires TreeOk(slots, depth, open) && s < |slots| && !slots[s].used && h < |slots| && slots[h].used
    ensures !Above(slots, depth, h, s)
  {
    if Above(slots, depth, h, s) {
      UsedAbove(slots, depth, open, h, s);
    }
  }

  /** Putting a slot elsewhere leaves the ways that do not lead through it. */
  lemma {:induction false} AboveMoved(slots: seq<Slot>, depth: seq<nat>, s: nat, e: Slot, n: nat, h: int, i: int)
    requires s < |slots| <= |depth| && forall x :: 0 <= x < |slots| && slots[x].used ==> Rooted(slots, depth, x)
    requires 0 <= h < |slots| && slots[h].used && !Above(slots, depth, h, s)
    ensures Above(slots[s := e], depth[s := n], h, i) == Above(slots, depth, h, i)
    decreases depth[h]
  {
    assert Rooted(slots, depth, h);
    if slots[h].parent >= 0 {
      AboveMoved(slots, depth, s, e, n, slots[h].parent, i);
    }
  }

  lemma {:induction false} CountMoved(slots: seq<Slot>, depth: seq<nat>, open: seq<nat>, s: nat, e: Slot, n: nat, i: int)
    requires s < |slots| <= |depth| && forall x :: 0 <= x < |slots| && slots[x].used ==> Rooted(slots, depth, x)
    requires forall k :: 0 <= k < |open| ==> open[k] < |slots| && slots[open[k]].used && !Above(slots, depth, open[k], s)
    ensures Count(slots[s := e], depth[s := n], open, i) == Count(slots, depth, open, i)
  {
    if open != [] {
      AboveMoved(slots, depth, s, e, n, open[0], i);
      CountMoved(slots, depth, open[1..], s, e, n, i);
    }
  }

  lemma SlotJoins(slots: seq<Slot>, depth: seq<nat>, open: seq<nat>, s: nat, dir: nat)
    requires TreeOk(slots, depth, open) && s < |slots| && !slots[s].used && dir < |slots| && slots[dir].used
    ensures |slots| <= |depth|
    ensures var slots', depth' := slots[s := Slot(true, dir, 1)], depth[s := depth[dir] + 1];
            AllRooted(slots', depth')
  {
    var slots', depth' := slots[s := Slot(true, dir, 1)], depth[s := depth[dir] + 1];
    forall i | 0 <= i < |slots'| && slots'[i].used ensures Rooted(slots', depth', i) {
      if i != s {
        assert Rooted(slots, depth, i);
      }
    }
  }

  lemma SlotOpened(slots: seq<Slot>, depth: seq<nat>, open: seq<nat>, s: nat, dir: nat,
                   slots1: seq<Slot>, depth1: seq<nat>, slots': seq<Slot>)
    requires TreeOk(slots, depth, open) && s < |slots| && !slots[s].used && dir < |slots| && slots[dir].used
    requires |slots| <= |depth| && slots1 == slots[s := Slot(true, dir, 1)] && depth1 == depth[s := depth[dir] + 1]
    requires Bumped(slots1, depth1, dir, -1, 1, slots')
    ensures TreeOk(slots', depth1, open + [s]) && Joined(slots, s, dir, slots')
  {
    assert SameShape(slots1, slots');
    NotAbove(slots, depth, open, s, dir);
    AboveMoved(slots, depth, s, Slot(true, dir, 1), depth[dir] + 1, dir, s);
    forall k | 0 <= k < |open| ensures open[k] < |slots| && slots[open[k]].used && !Above(slots, depth, open[k], s) {
      OpenIsUsed(slots, depth, open, k);
      NotAbove(slots, depth, open, s, open[k]);
    }
    forall i | 0 <= i < |slots'| ensures slots'[i].refs == Count(slots', depth1, open + [s], i) && (slots'[i].used <==> slots'[i].refs > 0) {
      CountSame(slots1, slots', depth1, open + [s], i);
      CountAdded(slots1, depth1, open, s, i);
      CountMoved(slots, depth, open, s, Slot(true, dir, 1), depth[dir] + 1, i);
      AboveMoved(slots, depth, s, Slot(true, dir, 1), depth[dir] + 1, dir, i);
      if Above(slots, depth, dir, i) {
        UsedAbove(slots, depth, open, dir, i);
      }
    }
    SlotJoins(slots, depth, open, s, dir);
    forall i | 0 <= i < |slots'| && slots'[i].used ensures Rooted(slots', depth1, i) {
      assert slots1[i].used && Rooted(slots1, depth1, i);
      assert slots1[i].parent >= 0 ==> slots1[slots1[i].parent].used;
    }
  }

  ghost predicate SameUse(slots: seq<Slot>, slots': seq<Slot>) {
    |slots'| == |slots| && forall i :: 0 <= i < |slots| ==> slots'[i].used == slots[i].used && slots'[i].parent == slots[i].parent
  }

  /** The handles on slot `i` or below it. */
  ghost function HandlesBelow(slots: seq<Slot>, depth: seq<nat>, open: seq<nat>, i: int): set<nat> {
    set k: nat | 0 <= k < |open| && Above(slots, depth, open[k], i)
  }

  lemma {:induction false} CountIsSize(slots: seq<Slot>, depth: seq<nat>, open: seq<nat>, i: int)
    ensures Count(slots, depth, open, i) == |HandlesBelow(slots, depth, open, i)|
    decreases |open|
  {
    if open != [] {
      var n := |open| - 1;
      var front := open[..n];
      CountIsSize(slots, depth, front, i);
      CountAdded(slots, depth, front, open[n], i);
      assert front + [open[n]] == open;
      var less, more := HandlesBelow(slots, depth, front, i), HandlesBelow(slots, depth, open, i);
      assert more == if Above(slots, depth, open[n], i) then less + {n} else less;
    } else {
      assert HandlesBelow(slots, depth, open, i) == {};
    }
  }

  /** In every state of the table the count of a slot is the number of handles on it and below it; a slot that is
      not used has no handle and is nobody's parent. */
  lemma CountsAreExact(slots: seq<Slot>, depth: seq<nat>, open: seq<nat>, i: nat)
    requires TreeOk(slots, depth, open) && i < |slots|
    ensures slots[i].refs == |HandlesBelow(slots, depth, open, i)|
    ensures !slots[i].used ==> i !in open && forall j :: 0 <= j < |slots| && slots[j].used ==> slots[j].parent != i
  {
    CountIsSize(slots, depth, open, i);
    forall k | 0 <= k < |open| ensures slots[open[k]].used {
      OpenIsUsed(slots, depth, open, k);
    }
    forall j | 0 <= j < |slots| && slots[j].used ensures slots[j].parent == i ==> slots[i].used {
      assert Rooted(slots, depth, j);
    }
  }

  lemma OpenIsUsed(slots: seq<Slot>, depth: seq<nat>, open: seq<nat>, k: nat)
    requires TreeOk(slots, depth, open) && k < |open|
    ensures open[k] < |slots| && slots[open[k]].used
  {
    CountedIsAbove(slots, depth, open, k, open[k]);
  }

  lemma HandleGiven(slots: seq<Slot>, depth: seq<nat>, open: seq<nat>, h: nat, slots': seq<Slot>)
    requires TreeOk(slots, depth, open) && h < |slots| && slots[h].used && Bumped(slots, depth, h, -1, 1, slots')
    ensures TreeOk(slots', depth, open + [h]) && SameUse(slots, slots')
  {
    assert SameShape(slots, slots');
    forall i | 0 <= i < |slots'|
      ensures slots'[i].refs == Count(slots', depth, open + [h], i) && slots'[i].used == slots[i].used
      ensures (slots'[i].used <==> slots'[i].refs > 0)
    {
      CountSame(slots, slots', depth, open + [h], i);
      CountAdded(slots, depth, open, h, i);
      if Above(slots, depth, h, i) {
        UsedAbove(slots, depth, open, h, i);
      }
    }
    forall i | 0 <= i < |slots'| && slots'[i].used ensures Rooted(slots', depth, i) {
      assert Rooted(slots, depth, i);
    }
  }

  /** Everything above a used slot is used. */
  lemma UsedAbove(slots: seq<Slot>, depth: seq<nat>, open: seq<nat>, h: int, i: int)
    requires TreeOk(slots, depth, open) && 0 <= h < |slots| && slots[h].used && Above(slots, depth, h, i)
    ensures 0 <= i < |slots| && slots[i].used
  {
    AboveIsNearer(slots, depth, h, i);
    CountGrows(slots, depth, open, h, i);
  }

  lemma HandleClosed(slots: seq<Slot>, depth: seq<nat>, open: seq<nat>, k: nat, slots': seq<Slot>)
    requires TreeOk(slots, depth, open) && k < |open| && Bumped(slots, depth, open[k], -1, -1, slots')
    ensures TreeOk(slots', depth, open[..k] + open[k + 1..])
  {
    var open', h := open[..k] + open[k + 1..], open[k];
    assert SameShape(slots, slots');
    forall i | 0 <= i < |slots'| ensures slots'[i].refs == Count(slots', depth, open', i) && (slots'[i].used <==> slots'[i].refs > 0) {
      CountSame(slots, slots', depth, open', i);
      CountDropped(slots, depth, open, k, i);
    }
    forall i | 0 <= i < |slots'| && slots'[i].used ensures Rooted(slots', depth, i) {
      assert Rooted(slots, depth, i);
      var p := slots[i].parent;
      if p >= 0 {
        assert Above(slots', depth, i, p);
        CountGrows(slots', depth, open', i, p);
      }
    }
    forall j | 0 <= j < |open'| ensures open'[j] < |slots'| {
      assert open'[j] == if j < k then open[j] else open[j + 1];
    }
  }
}
