/**
 The compositor's window list: a doubly linked list from back to front with head and tail pointers, z-orders,
 a window count and a focus. The ghost field `list` is the stacking order the links stand for.
 The flag bits of a window are separate booleans here.
 */
module WindowList {

  const MAX_WINDOWS: nat := 64

  class Window {
    var next: Window?
    var prev: Window?
    var z: int
    var active: bool
    var visible: bool
    var minimized: bool
    const id: nat

    constructor (id: nat, z: int)
      ensures this.id == id && this.z == z && next == null && prev == null
      ensures !active && visible && !minimized
    {
      this.id, this.z := id, z;
      next, prev := null, null;
      active, visible, minimized := false, true, false;
    }
  }

  /** `s` without its element number `k`. */
  function Without<T>(s: seq<T>, k: nat): (r: seq<T>)
    requires k < |s|
    ensures |r| == |s| - 1
  {
    s[..k] + s[k + 1..]
  }

  ghost function Elems(list: seq<Window>): set<Window> {
    set w | w in list
  }

  ghost predicate Distinct(list: seq<Window>)
  {
    forall i, j :: 0 <= i < j < |list| ==> list[i] != list[j]
  }

  /** The links of every window agree with its place in the list. */
  ghost predicate Wired(list: seq<Window>, head: Window?, tail: Window?)
    reads Elems(list)`next, Elems(list)`prev
  {
    && Distinct(list)
    && head == (if list == [] then null else list[0])
    && tail == (if list == [] then null else list[|list| - 1])
    && (forall i {:trigger list[i].prev} :: 0 <= i < |list| ==> list[i].prev == if i == 0 then null else list[i - 1])
    && (forall i {:trigger list[i].next} :: 0 <= i < |list| ==>
        list[i].next == if i == |list| - 1 then null else list[i + 1])
  }

  /** Z-orders rise strictly from back to front and stay below the next one to be given out. */
  ghost predicate Ordered(list: seq<Window>, nextZ: int)
    reads Elems(list)`z
  {
    && (forall i, j :: 0 <= i < j < |list| ==> list[i].z < list[j].z)
    && (forall i :: 0 <= i < |list| ==> list[i].z < nextZ)
  }

  /** The active window, if any, is in the list, and it alone carries the flag. */
  ghost predicate Focused(list: seq<Window>, active: Window?)
    reads Elems(list)`active
  {
    && (active != null ==> active in list)
    && forall i :: 0 <= i < |list| ==> (list[i].active <==> list[i] == active)
  }

  class Compositor {
    var head: Window?
    var tail: Window?
    var active: Window?
    var count: nat
    var nextId: nat
    var nextZ: int
    ghost var list: seq<Window>

    ghost predicate Valid()
      reads this, list
    {
      Wired(list, head, tail) && Ordered(list, nextZ) && Focused(list, active) && count == |list|
    }

    constructor ()
      ensures Valid() && list == [] && active == null
    {
      head, tail, active := null, null, null;
      count, nextId, nextZ := 0, 1, 0;
      list := [];
    }

    /** `compositor_unlink_window`. */
    method Unlink(win: Window, ghost k: nat)
      requires Wired(list, head, tail) && k < |list| && list[k] == win
      modifies `head, `tail, `list, Elems(list)`next, Elems(list)`prev
      ensures list == Without(old(list), k)
      ensures Wired(list, head, tail) && win.next == null && win.prev == null
    {
      assert k > 0 ==> list[k - 1] in Elems(list);
      assert k < |list| - 1 ==> list[k + 1] in Elems(list);
      if win.prev != null {
        win.prev.next := win.next;
      } else {
        head := win.next;
      }
      if win.next != null {
        win.next.prev := win.prev;
      } else {
        tail := win.prev;
      }
      win.prev, win.next := null, null;
      ghost var list0 := list;
      list := Without(list0, k);
      assert forall i :: 0 <= i < k ==> list[i] == list0[i];
      assert forall i :: k <= i < |list| ==> list[i] == list0[i + 1];
      assert forall i {:trigger list[i].prev} :: 0 <= i < |list| ==>
          list[i].prev == if i == 0 then null else list[i - 1];
    }

    /** `compositor_link_window`: at the front of the stack. */
    method Link(win: Window)
      requires Wired(list, head, tail) && win !in list
      modifies `head, `tail, `list, Elems(list)`next, win`next, win`prev
      ensures list == old(list) + [win] && Wired(list, head, tail)
    {
      assert tail != null ==> tail in Elems(list);
      win.prev, win.next := tail, null;
      if tail != null {
        tail.next := win;
      } else {
        head := win;
      }
      tail := win;
      list := list + [win];
    }

    /** Mark a window active when none is marked. */
    method GiveFocus(win: Window?)
      requires Focused(list, null) && (win != null ==> win in list)
      modifies `active, Elems(list)`active
      ensures Focused(list, active) && active == win
    {
      active := win;
      if win != null {
        assert win in Elems(list);
        win.active := true;
      }
    }

    /** `compositor_set_active_window`. */
    method SetActive(win: Window?)
      requires Focused(list, active) && (win != null ==> win in list)
      modifies `active, Elems(list)`active
      ensures Focused(list, active) && active == win
    {
      if active != null {
        assert active in Elems(list);
        active.active := false;
      }
      GiveFocus(win);
    }

    /** Link a new window in front and give it the focus. */
    method PlaceOnTop(win: Window)
      requires Wired(list, head, tail) && Ordered(list, nextZ) && Focused(list, active)
      requires win !in list && win.z == nextZ && !win.active
      modifies `head, `tail, `list, `active, Elems(list)`next, Elems(list)`active, win`next, win`prev, win`active
      ensures list == old(list) + [win] && active == win
      ensures Wired(list, head, tail) && Ordered(list, nextZ + 1) && Focused(list, active)
    {
      hide Wired, Ordered, Focused;
      ghost var list0 := list;
      Link(win);
      OrderedFront(list0, nextZ, win);
      FocusedMore(list0, active, win);
      assert Elems(list) == Elems(list0) + {win};
      SetActive(win);
    }

    /** `compositor_create_window`: the new window is on top and active; `memory` says whether kmalloc succeeds. */
    method Create(w: int, h: int, memory: bool) returns (win: Window?)
      requires Valid()
      modifies this, Elems(list)`next, Elems(list)`active
      ensures Valid()
      ensures win == null <==> old(count) >= 64 || w <= 0 || h <= 0 || !memory
      ensures win == null ==> list == old(list) && active == old(active)
      ensures nextId == old(nextId) + if win == null then 0 else 1
      ensures win != null ==>
                fresh(win) && list == old(list) + [win] && active == win && win.z == old(nextZ) && win.id == old(nextId)
      ensures win != null ==> win.visible && !win.minimized
    {
      hide Wired, Ordered, Focused, Without, Distinct;
      if count >= MAX_WINDOWS || w <= 0 || h <= 0 || !memory {
        return null;
      }
      win := new Window(nextId, nextZ);
      PlaceOnTop(win);
      nextZ, nextId, count := nextZ + 1, nextId + 1, count + 1;
    }

    /** `compositor_destroy_window`: if it was active, the frontmost remaining window becomes active. */
    method Destroy(win: Window, ghost k: nat)
      requires Valid() && k < |list| && list[k] == win
      modifies `head, `tail, `list, `active, `count, Elems(list)`next, Elems(list)`prev, Elems(list)`active
      ensures Valid() && list == Without(old(list), k)
      ensures active == if old(active) == win then tail else old(active)
    {
      hide Wired, Ordered, Focused, Without, Distinct;
      ghost var list0 := list;
      WiredFacts(list, head, tail);
      Unlink(win, k);
      NotInWithout(list0, k);
      OrderedWithout(list0, k, nextZ);
      FocusedWithout(list0, k, active);
      WiredFacts(list, head, tail);
      if active == win {
        GiveFocus(tail);
      }
      count := count - 1;
    }

    /** `compositor_raise_window`: to the front and active, unless it is in front already. */
    method Raise(win: Window, ghost k: nat)
      requires Valid() && k < |list| && list[k] == win
      modifies `head, `tail, `list, `active, `nextZ, Elems(list)`next, Elems(list)`prev, Elems(list)`active, win`z
      ensures Valid()
      ensures k == |old(list)| - 1 ==> list == old(list) && active == old(active)
      ensures k < |old(list)| - 1 ==> list == Without(old(list), k) + [win] && active == win
      ensures k < |old(list)| - 1 ==> win.z == old(nextZ) && nextZ == old(nextZ) + 1
    {
      hide Wired, Ordered, Focused, Without;
      WiredFacts(list, head, tail);
      if win == tail {
        return;
      }
      ghost var list0 := list;
      MoveToFront(win, k);
      BackInPlace(list0, list, k);
      FocusedSame(list0, list, active);
      SetActive(win);
    }

    /** Unlink, take the next z-order, and link in front. */
    method MoveToFront(win: Window, ghost k: nat)
      requires Wired(list, head, tail) && Ordered(list, nextZ) && k < |list| && list[k] == win
      modifies `head, `tail, `list, `nextZ, Elems(list)`next, Elems(list)`prev, win`z
      ensures Wired(list, head, tail) && Ordered(list, nextZ)
      ensures list == Without(old(list), k) + [win] && win.z == old(nextZ) && nextZ == old(nextZ) + 1
    {
      hide Wired, Ordered, Without, Distinct;
      ghost var list0 := list;
      WiredFacts(list, head, tail);
      Unlink(win, k);
      NotInWithout(list0, k);
      OrderedWithout(list0, k, nextZ);
      ghost var rest := list;
      win.z := nextZ;
      nextZ := nextZ + 1;
      Link(win);
      OrderedFront(rest, nextZ - 1, win);
    }

    /** Unlink, go below the lowest z-order, and link at the back. */
    method MoveToBack(win: Window, ghost k: nat)
      requires Wired(list, head, tail) && Ordered(list, nextZ) && 0 < k < |list| && list[k] == win
      modifies `head, `tail, `list, Elems(list)`next, Elems(list)`prev, win`z
      ensures Wired(list, head, tail) && Ordered(list, nextZ)
      ensures list == [win] + Without(old(list), k)
    {
      hide Wired, Ordered, Without, Distinct;
      ghost var list0 := list;
      WiredFacts(list, head, tail);
      Unlink(win, k);
      NotInWithout(list0, k);
      OrderedWithout(list0, k, nextZ);
      WiredFacts(list, head, tail);
      ghost var rest := list;
      win.z := if head == null then 0 else head.z - 1;
      LinkBack(win);
      OrderedBack(rest, nextZ, win);
    }

    /** `compositor_lower_window`: to the back; the focus does not move. */
    method Lower(win: Window, ghost k: nat)
      requires Valid() && k < |list| && list[k] == win
      modifies `head, `tail, `list, Elems(list)`next, Elems(list)`prev, win`z
      ensures Valid() && active == old(active)
      ensures list == [win] + Without(old(list), k)
    {
      hide Wired, Ordered, Focused;
      WiredFacts(list, head, tail);
      if win == head {
        assert list == [win] + Without(list, 0);
        return;
      }
      ghost var list0 := list;
      MoveToBack(win, k);
      BackInPlace(list0, list, k);
      FocusedSame(list0, list, active);
    }

    /** The relinking at the head of the list that ends `compositor_lower_window`. */
    method LinkBack(win: Window)
      requires Wired(list, head, tail) && win !in list && list != []
      modifies `head, `tail, `list, Elems(list)`prev, win`next, win`prev
      ensures list == [win] + old(list) && Wired(list, head, tail)
    {
      assert head in Elems(list);
      win.prev, win.next := null, head;
      head.prev := win;
      head := win;
      tail := if tail == null then win else tail;
      list := [win] + list;
    }

    /**
     `compositor_minimize_window`: if it was active, focus goes to the nearest window behind it that is
     visible and not minimized, or to none.
     */
    method Minimize(win: Window, ghost k: nat)
      requires Valid() && k < |list| && list[k] == win
      modifies `active, Elems(list)`active, win`minimized
      ensures Valid() && list == old(list)
      ensures win.minimized
      ensures old(active) != win || old(win.minimized) ==> active == old(active)
      ensures old(active) == win && !old(win.minimized) ==>
                if active == null then forall i :: 0 <= i < k ==> Hidden(list[i])
                else exists j :: 0 <= j < k && active == list[j] && !Hidden(list[j])
                       && forall i :: j < i < k ==> Hidden(list[i])
    {
      hide Ordered, Focused;
      if win.minimized {
        return;
      }
      win.minimized := true;
      if active == win {
        var next := win.prev;
        ghost var j: int := k - 1;
        while next != null && Hidden(next)
          invariant -1 <= j < k && next == (if j < 0 then null else list[j])
          invariant forall i :: j < i < k ==> Hidden(list[i])
          decreases j
        {
          next := next.prev;
          j := j - 1;
        }
        SetActive(next);
      }
    }

    /** The window `i` places from the back, by following the links. */
    method Nth(i: nat) returns (w: Window?)
      requires Wired(list, head, tail)
      ensures w == if i < |list| then list[i] else null
    {
      w := head;
      var j := 0;
      while j < i && w != null
        invariant 0 <= j <= i && j <= |list| && w == if j < |list| then list[j] else null
      {
        w := w.next;
        j := j + 1;
      }
    }

    /** The windows as a reader sees them. */
    ghost function Shown(): Stack
      reads this, Elems(list)`minimized, Elems(list)`visible
    {
      Stack(View(list, active), nextId)
    }

    method Perform(op: Op)
      requires Valid()
      modifies this, Elems(list)
      ensures Valid() && fresh(Elems(list) - old(Elems(list)))
      ensures Shown() == AfterOp(old(Shown()), op)
    {
      hide Wired, Ordered, Focused, Distinct, View, Without, Focus, NearestShown;
      if op.New? {
        PerformNew(op.w, op.h, op.memory);
        return;
      }
      var w := Nth(op.i);
      if w == null {
        return;
      }
      ElemsWithout(list, op.i);
      match op {
        case Close(k) => PerformClose(w, k);
        case Bring(k) => PerformBring(w, k);
        case Push(k) => PerformPush(w, k);
        case Activate(k) => PerformActivate(w, k);
        case Shrink(k) => PerformShrink(w, k);
      }
    }

    method PerformNew(w: int, h: int, memory: bool)
      requires Valid()
      modifies this, Elems(list)`next, Elems(list)`active
      ensures Valid() && fresh(Elems(list) - old(Elems(list)))
      ensures Shown() == AfterOp(old(Shown()), New(w, h, memory))
    {
      hide Wired, Ordered, Focused, Distinct, View, Without, Focus;
      ghost var list0, active0, before := list, active, View(list, active);
      var win := Create(w, h, memory);
      if win != null {
        WiredFacts(list, head, tail);
        ViewMore(list0, active0, win);
        ViewFocus(list, active0, |list0|);
      }
    }

    method PerformClose(win: Window, ghost k: nat)
      requires Valid() && k < |list| && list[k] == win
      modifies this, Elems(list)
      ensures Valid() && list == Without(old(list), k)
      ensures Shown() == AfterOp(old(Shown()), Close(k))
    {
      hide Wired, Ordered, Focused, Distinct, View, Without, Focus;
      ghost var list0, active0 := list, active;
      WiredFacts(list, head, tail);
      ghost var looks0 := View(list0, active0);
      assert looks0[k].focused == (win == active0);
      Destroy(win, k);
      assert View(list0, active0) == looks0;
      ViewWithout(list0, active0, k);
      WiredFacts(list, head, tail);
      if active0 == win {
        if list == [] {
          FocusNone(Without<Look>(View(list0, active0), k));
          assert View(list, active) == [];
        } else {
          ViewFocus(list, active0, |list| - 1);
        }
      }
    }

    method PerformBring(win: Window, ghost k: nat)
      requires Valid() && k < |list| && list[k] == win
      modifies this, Elems(list)
      ensures Valid() && Elems(list) <= old(Elems(list))
      ensures Shown() == AfterOp(old(Shown()), Bring(k))
    {
      hide Wired, Ordered, Focused, Distinct, View, Without, Focus;
      ghost var list0, active0, looks0 := list, active, View(list, active);
      ElemsWithout(list, k);
      Raise(win, k);
      assert View(list0, active0) == looks0;
      if k < |list0| - 1 {
        ViewWithout(list0, active0, k);
        WiredFacts(list, head, tail);
        ViewFocus(list, active0, |list| - 1);
      }
    }

    method PerformPush(win: Window, ghost k: nat)
      requires Valid() && k < |list| && list[k] == win
      modifies this, Elems(list)
      ensures Valid() && Elems(list) <= old(Elems(list))
      ensures Shown() == AfterOp(old(Shown()), Push(k))
    {
      hide Wired, Ordered, Focused, Distinct, View, Without, Focus;
      ElemsWithout(list, k);
      ViewWithout(list, active, k);
      Lower(win, k);
    }

    method PerformActivate(win: Window, ghost k: nat)
      requires Valid() && k < |list| && list[k] == win
      modifies this, Elems(list)
      ensures Valid() && list == old(list)
      ensures Shown() == AfterOp(old(Shown()), Activate(k))
    {
      hide Wired, Ordered, Focused, Distinct, View, Without, Focus;
      WiredFacts(list, head, tail);
      ViewFocus(list, active, k);
      SetActive(win);
    }

    method PerformShrink(win: Window, ghost k: nat)
      requires Valid() && k < |list| && list[k] == win
      modifies this, Elems(list)
      ensures Valid() && list == old(list)
      ensures Shown() == AfterOp(old(Shown()), Shrink(k))
    {
      hide Wired, Ordered, Focused, Distinct, Without, Focus, View, NearestShown;
      ghost var active0, before := active, View(list, active);
      WiredFacts(list, head, tail);
      DistinctAt(list, k);
      Minimize(win, k);
      if !before[k].minimized {
        assert View(list, active0) == before[k := before[k].(minimized := true)];
        if active0 == win {
          ViewNearest(list, active0, active, k);
        }
      }
    }

    /** Over every run the list stays sound, and its order, focus and flags are those the operations call for. */
    method Run(ops: seq<Op>)
      requires Valid()
      modifies this, Elems(list)
      ensures Valid()
      ensures Shown() == AfterOps(old(Shown()), ops)
    {
      hide Valid, AfterOp, View;
      var k := 0;
      while k < |ops|
        invariant 0 <= k <= |ops| && Valid() && fresh(Elems(list) - old(Elems(list)))
        invariant Shown() == AfterOps(old(Shown()), ops[..k])
      {
        assert ops[..k + 1][..k] == ops[..k];
        Perform(ops[k]);
        k := k + 1;
      }
      assert ops[..k] == ops;
    }
  }

  /** Operations on the window `i` places from the back; one that is not there is ignored. */
  datatype Op =
    | New(w: int, h: int, memory: bool)
    | Close(i: nat)
    | Bring(i: nat)
    | Push(i: nat)
    | Activate(i: nat)
    | Shrink(i: nat)

  /** What a reader sees of a window. */
  datatype Look = Look(id: nat, minimized: bool, visible: bool, focused: bool)

  /** The windows from back to front. */
  datatype Stack = Stack(looks: seq<Look>, nextId: nat)

  ghost function View(list: seq<Window>, active: Window?): (looks: seq<Look>)
    reads Elems(list)`minimized, Elems(list)`visible
    ensures |looks| == |list|
    ensures forall i :: 0 <= i < |list| ==>
              looks[i] == Look(list[i].id, list[i].minimized, list[i].visible, list[i] == active)
  {
    if list == [] then [] else
      var n := |list| - 1;
      assert forall i :: 0 <= i < n ==> list[..n][i] == list[i];
      View(list[..n], active) + [Look(list[n].id, list[n].minimized, list[n].visible, list[n] == active)]
  }

  /** The focus moved to window `k`, or taken away if there is no such window. */
  function Focus(looks: seq<Look>, k: int): (r: seq<Look>)
    ensures |r| == |looks|
    ensures forall i :: 0 <= i < |looks| ==> r[i] == looks[i].(focused := i == k)
  {
    seq(|looks|, i requires 0 <= i < |looks| => looks[i].(focused := i == k))
  }

  /** The nearest window behind `k` that is visible and not minimized, or -1. */
  function NearestShown(looks: seq<Look>, k: nat): (j: int)
    requires k <= |looks|
    ensures -1 <= j < k
  {
    if k == 0 then -1
    else if looks[k - 1].visible && !looks[k - 1].minimized then k - 1
    else NearestShown(looks, k - 1)
  }

  function AfterOp(s: Stack, op: Op): Stack {
    match op
    case New(w, h, memory) =>
      if |s.looks| < MAX_WINDOWS && w > 0 && h > 0 && memory
      then Stack(Focus(s.looks + [Look(s.nextId, false, true, false)], |s.looks|), s.nextId + 1)
      else s
    case Close(i) =>
      if i >= |s.looks| then s
      else
        var rest := Without<Look>(s.looks, i);
        s.(looks := if s.looks[i].focused then Focus(rest, |rest| - 1) else rest)
    case Bring(i) =>
      if i >= |s.looks| - 1 then s
      else s.(looks := Focus(Without<Look>(s.looks, i) + [s.looks[i]], |s.looks| - 1))
    case Push(i) =>
      if i >= |s.looks| then s else s.(looks := [s.looks[i]] + Without<Look>(s.looks, i))
    case Activate(i) =>
      if i >= |s.looks| then s else s.(looks := Focus(s.looks, i))
    case Shrink(i) =>
      if i >= |s.looks| || s.looks[i].minimized then s
      else
        var looks := s.looks[i := s.looks[i].(minimized := true)];
        s.(looks := if s.looks[i].focused then Focus(looks, NearestShown(looks, i)) else looks)
  }

  function AfterOps(s: Stack, ops: seq<Op>): Stack {
    if ops == [] then s else AfterOp(AfterOps(s, ops[..|ops| - 1]), ops[|ops| - 1])
  }

  ghost predicate SoundStack(s: Stack)
  {
    |s.looks| <= 64 && Below(s.looks, s.nextId) && Distinguished(s.looks) && OneFocus(s.looks)
  }

  ghost predicate Below(looks: seq<Look>, bound: nat)
  {
    forall i :: 0 <= i < |looks| ==> looks[i].id < bound
  }

  /** No two windows have one identity. */
  ghost predicate Distinguished(looks: seq<Look>)
  {
    forall i, j :: 0 <= i < j < |looks| ==> looks[i].id != looks[j].id
  }

  /** No two windows have the focus. */
  ghost predicate OneFocus(looks: seq<Look>)
  {
    forall i, j :: 0 <= i < j < |looks| ==> !(looks[i].focused && looks[j].focused)
  }

  lemma FocusSound(looks: seq<Look>, k: int, bound: nat)
    requires Distinguished(looks) && Below(looks, bound)
    ensures Distinguished(Focus(looks, k)) && Below(Focus(looks, k), bound) && OneFocus(Focus(looks, k))
  {
    hide Focus;
  }

  lemma MoreSound(looks: seq<Look>, w: Look)
    requires Distinguished(looks) && Below(looks, w.id)
    ensures Distinguished(looks + [w]) && Below(looks + [w], w.id + 1)
  {
  }

  lemma ShrunkSound(looks: seq<Look>, k: nat, bound: nat)
    requires Distinguished(looks) && Below(looks, bound) && OneFocus(looks) && k < |looks|
    ensures var looks' := looks[k := looks[k].(minimized := true)];
            Distinguished(looks') && Below(looks', bound) && OneFocus(looks')
  {
  }

  lemma TakenOut(looks: seq<Look>, k: nat, bound: nat)
    requires Distinguished(looks) && Below(looks, bound) && OneFocus(looks) && k < |looks|
    ensures var rest := Without<Look>(looks, k);
            && Distinguished(rest) && Below(rest, bound) && OneFocus(rest)
            && Distinguished(rest + [looks[k]]) && Below(rest + [looks[k]], bound)
            && Distinguished([looks[k]] + rest) && Below([looks[k]] + rest, bound) && OneFocus([looks[k]] + rest)
  {
    var rest := Without<Look>(looks, k);
    assert forall j :: 0 <= j < |rest| ==> rest[j] == looks[if j < k then j else j + 1];
  }

  lemma MoveSound(s: Stack, op: Op)
    requires SoundStack(s) && (op.Close? || op.Bring? || op.Push?)
    ensures SoundStack(AfterOp(s, op))
  {
    hide Focus, Distinguished, Below, OneFocus;
    if op.i < |s.looks| {
      var rest, n := Without<Look>(s.looks, op.i), |s.looks|;
      TakenOut(s.looks, op.i, s.nextId);
      FocusSound(rest, n - 2, s.nextId);
      FocusSound(rest + [s.looks[op.i]], n - 1, s.nextId);
    }
  }

  lemma OpSound(s: Stack, op: Op)
    requires SoundStack(s)
    ensures SoundStack(AfterOp(s, op))
  {
    hide SoundStack, AfterOp;
    if op.Close? || op.Bring? || op.Push? {
      MoveSound(s, op);
    } else {
      StaySound(s, op);
    }
  }

  lemma StaySound(s: Stack, op: Op)
    requires SoundStack(s) && (op.New? || op.Activate? || op.Shrink?)
    ensures SoundStack(AfterOp(s, op))
  {
    hide Focus, NearestShown, Distinguished, Below, OneFocus;
    match op {
      case New(w, h, memory) =>
        MoreSound(s.looks, Look(s.nextId, false, true, false));
        FocusSound(s.looks + [Look(s.nextId, false, true, false)], |s.looks|, s.nextId + 1);
      case Activate(i) =>
        FocusSound(s.looks, i, s.nextId);
      case Shrink(i) =>
        if i < |s.looks| {
          var looks := s.looks[i := s.looks[i].(minimized := true)];
          ShrunkSound(s.looks, i, s.nextId);
          FocusSound(looks, NearestShown(looks, i), s.nextId);
        }
    }
  }

  /**
   Over every run window identities stay distinct, at most one window has the focus, and there are never more than
   64.
   */
  lemma {:induction false} StackSound(s: Stack, ops: seq<Op>)
    requires SoundStack(s)
    ensures SoundStack(AfterOps(s, ops))
  {
    hide SoundStack, AfterOp;
    if ops != [] {
      StackSound(s, ops[..|ops| - 1]);
      OpSound(AfterOps(s, ops[..|ops| - 1]), ops[|ops| - 1]);
    }
  }

  lemma DistinctAt(list: seq<Window>, k: nat)
    requires Distinct(list) && k < |list|
    ensures forall i :: 0 <= i < |list| && i != k ==> list[i] != list[k]
  {
  }

  /** Giving the focus to the window at `k`. */
  lemma ViewFocus(list: seq<Window>, active: Window?, k: nat)
    requires Distinct(list) && k < |list|
    ensures View(list, list[k]) == Focus(View(list, active), k)
  {
    hide View, Focus;
    DistinctAt(list, k);
  }

  lemma FocusNone(looks: seq<Look>)
    ensures looks == [] ==> Focus(looks, -1) == []
  {
  }

  lemma ViewMore(list: seq<Window>, active: Window?, w: Window)
    requires w != active && w.visible && !w.minimized
    ensures View(list + [w], active) == View(list, active) + [Look(w.id, false, true, false)]
  {
  }

  lemma ViewWithout(list: seq<Window>, active: Window?, k: nat)
    requires k < |list|
    ensures View(list, active)[k] == Look(list[k].id, list[k].minimized, list[k].visible, list[k] == active)
    ensures View(Without(list, k), active) == Without<Look>(View(list, active), k)
    ensures View(Without(list, k) + [list[k]], active) == Without<Look>(View(list, active), k) + [View(list, active)[k]]
    ensures View([list[k]] + Without(list, k), active) == [View(list, active)[k]] + Without<Look>(View(list, active), k)
  {
    hide View;
  }

  /** The window a minimized one passes the focus to. */
  lemma {:induction false} NearestIs(looks: seq<Look>, k: nat, j: int)
    requires -1 <= j < k <= |looks|
    requires j >= 0 ==> looks[j].visible && !looks[j].minimized
    requires forall i :: j < i < k ==> looks[i].minimized || !looks[i].visible
    ensures NearestShown(looks, k) == j
  {
    if j < k - 1 {
      NearestIs(looks, k - 1, j);
    }
  }

  lemma ViewNearest(list: seq<Window>, active0: Window?, active: Window?, k: nat)
    requires Distinct(list) && k < |list|
    requires if active == null then forall i :: 0 <= i < k ==> Hidden(list[i])
             else exists j :: 0 <= j < k && active == list[j] && !Hidden(list[j])
                    && forall i :: j < i < k ==> Hidden(list[i])
    ensures View(list, active) == Focus(View(list, active0), NearestShown(View(list, active0), k))
  {
    hide Distinct, Focus;
    var looks := View(list, active0);
    if active == null {
      NearestIs(looks, k, -1);
    } else {
      var j :| 0 <= j < k && active == list[j] && !Hidden(list[j]) && forall i :: j < i < k ==> Hidden(list[i]);
      NearestIs(looks, k, j);
      ViewFocus(list, active0, j);
    }
  }

  predicate Hidden(w: Window)
    reads w`minimized, w`visible
  {
    w.minimized || !w.visible
  }

  lemma WiredFacts(list: seq<Window>, head: Window?, tail: Window?)
    requires Wired(list, head, tail)
    ensures Distinct(list)
    ensures head == (if list == [] then null else list[0]) && tail == (if list == [] then null else list[|list| - 1])
    ensures tail != null ==> tail in list
  {
  }

  lemma OrderedFront(list: seq<Window>, nextZ: int, win: Window)
    requires Ordered(list, nextZ) && win.z == nextZ
    ensures Ordered(list + [win], nextZ + 1)
  {
    var list' := list + [win];
    assert forall i :: 0 <= i < |list| ==> list'[i] == list[i];
  }

  lemma OrderedBack(list: seq<Window>, nextZ: int, win: Window)
    requires Ordered(list, nextZ) && list != [] && win.z == list[0].z - 1
    ensures Ordered([win] + list, nextZ)
  {
    var list' := [win] + list;
    assert forall i :: 0 < i < |list'| ==> list'[i] == list[i - 1];
  }

  lemma OrderedWithout(list: seq<Window>, k: nat, nextZ: int)
    requires Ordered(list, nextZ) && k < |list|
    ensures Ordered(Without(list, k), nextZ)
  {
  }

  lemma FocusedMore(list: seq<Window>, active: Window?, win: Window)
    requires Focused(list, active) && !win.active && win !in list
    ensures Focused(list + [win], active)
  {
    var list' := list + [win];
    assert forall i :: 0 <= i < |list| ==> list'[i] == list[i];
  }

  /** Taking a window out leaves the focus where it was, or nowhere if that window had it. */
  lemma FocusedWithout(list: seq<Window>, k: nat, active: Window?)
    requires Focused(list, active) && k < |list| && Distinct(list)
    ensures Focused(Without(list, k), if active == list[k] then null else active)
  {
    WithoutFacts(list, k);
  }

  lemma FocusedSame(list: seq<Window>, list': seq<Window>, active: Window?)
    requires Focused(list, active) && forall w :: w in list <==> w in list'
    ensures Focused(list', active)
  {
    forall i | 0 <= i < |list'|
      ensures list'[i].active <==> list'[i] == active
    {
      assert list'[i] in list';
      var j :| 0 <= j < |list| && list[j] == list'[i];
    }
  }

  lemma ElemsWithout(list: seq<Window>, k: nat)
    requires k < |list|
    ensures Elems(Without(list, k)) <= Elems(list)
    ensures Elems(Without(list, k) + [list[k]]) <= Elems(list)
    ensures Elems([list[k]] + Without(list, k)) <= Elems(list)
  {
  }

  lemma NotInWithout(list: seq<Window>, k: nat)
    requires k < |list| && Distinct(list)
    ensures list[k] !in Without(list, k) && Elems(Without(list, k)) <= Elems(list)
  {
  }

  lemma WithoutFacts(list: seq<Window>, k: nat)
    requires k < |list| && Distinct(list)
    ensures Distinct(Without(list, k)) && list[k] !in Without(list, k)
    ensures forall i :: 0 <= i < |list| - 1 ==> Without(list, k)[i] == list[if i < k then i else i + 1]
    ensures forall w :: w in list && w != list[k] ==> w in Without(list, k)
  {
    forall w | w in list && w != list[k]
      ensures w in Without(list, k)
    {
      var i :| 0 <= i < |list| && list[i] == w;
      assert Without(list, k)[if i < k then i else i - 1] == w;
    }
  }

  /** Taking a window out and putting it back at either end keeps the set of windows. */
  lemma BackInPlace(list: seq<Window>, list': seq<Window>, k: nat)
    requires k < |list| && Distinct(list)
    requires list' == Without(list, k) + [list[k]] || list' == [list[k]] + Without(list, k)
    ensures forall w :: w in list <==> w in list'
  {
    WithoutFacts(list, k);
  }
}
