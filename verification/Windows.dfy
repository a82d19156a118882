/** The window table (fb.c): an array of slots, edited in place. */
module Windows {
  import opened Options
  import opened WindowOrder

  /** What `memset` leaves in a slot. */
  const BLANK: Window :=
    Window(0, 0, Rect(0, 0, 0, 0), Flags(false, false, false, false, false), Rect(0, 0, 0, 0), "", false, 0)

  /** A 32-bit number as the `int32_t` that the calls return. */
  function Signed(id: nat): int { if id < 0x8000_0000 then id else id - U32 }

  lemma FindIs(ws: seq<Window>, id: nat, i: nat)
    requires i <= |ws| && (i < |ws| ==> ws[i].id == id) && forall k | 0 <= k < i :: ws[k].id != id
    ensures Find(ws, id) == i
  {
    var j := Find(ws, id);
  }

  lemma TopOfIs(ws: seq<Window>, owner: nat, i: nat)
    requires i < |ws| && ws[i].owner == owner && forall k | i < k < |ws| :: ws[k].owner != owner
    ensures TopOf(ws, owner) == i
  {
    var j := TopOf(ws, owner);
  }

  lemma NoneOf(ws: seq<Window>, owner: nat)
    requires forall k | 0 <= k < |ws| :: ws[k].owner != owner
    ensures TopOf(ws, owner) == |ws|
  {
  }

  lemma FocusedOwnerTail(ws: seq<Window>, n: nat)
    requires 0 < n <= |ws| && !HasFocus(ws[n - 1])
    ensures FocusedOwner(ws[..n]) == FocusedOwner(ws[..n - 1])
  {
    assert ws[..n][..n - 1] == ws[..n - 1];
  }

  class WindowTable {
    const slots: array<Window>
    var count: nat
    var next: nat

    ghost predicate Valid()
      reads this, slots
    {
      && slots.Length == MAX_WINDOWS && count <= MAX_WINDOWS && next < U32
      && forall k | count <= k < MAX_WINDOWS :: slots[k] == BLANK
    }

    ghost function Current(): State
      requires Valid()
      reads this, slots
    {
      State(slots[..count], next)
    }

    constructor ()
      ensures Valid() && fresh(slots) && Current() == State([], 1)
    {
      slots := new Window[MAX_WINDOWS](_ => BLANK);
      count, next := 0, 1;
    }

    method FindSlot(id: nat) returns (i: nat)
      requires Valid()
      ensures i == Find(Current().ws, id)
    {
      i := 0;
      while i < count && slots[i].id != id
        invariant i <= count && forall k | 0 <= k < i :: slots[k].id != id
      {
        i := i + 1;
      }
      FindIs(Current().ws, id, i);
    }

    /** The slots behind `i` move down by one; the last one stays as it is. */
    method CloseGap(i: nat)
      requires Valid() && i < count
      modifies slots
      ensures slots[..count - 1] == Remove(old(slots[..count]), i) && slots[count - 1] == old(slots[count - 1])
      ensures slots[count..] == old(slots[count..])
    {
      ghost var was := slots[..];
      for j := i to count - 1
        invariant forall k | 0 <= k < MAX_WINDOWS && !(i <= k < j) :: slots[k] == was[k]
        invariant forall k | i <= k < j :: slots[k] == was[k + 1]
      {
        slots[j] := slots[j + 1];
      }
    }

    method ClearFocus()
      requires Valid()
      modifies slots
      ensures Valid() && slots[..count] == Unfocused(old(slots[..count]))
    {
      ghost var was := slots[..];
      for i := 0 to count
        invariant forall k | 0 <= k < i :: slots[k] == SetFocus(was[k], false)
        invariant forall k | i <= k < MAX_WINDOWS :: slots[k] == was[k]
      {
        slots[i] := SetFocus(slots[i], false);
      }
    }

    /** `woos_graphics_create_window_ex`; `memory` is the buffer that the allocation yields. */
    method Create(owner: nat, w: nat, h: nat, title: string, flags: Flags, memory: Option<nat>)
      returns (id: int, freed: Option<nat>)
      requires Valid()
      modifies this, slots
      ensures Valid() && Current() == Step(old(Current()), WindowOrder.Create(owner, w, h, title, flags, memory))
      ensures id == if memory.Some? && old(count) < MAX_WINDOWS then Signed(old(next)) else -1
      ensures freed == if old(count) < MAX_WINDOWS then None else memory
    {
      if memory.None? { return -1, None; }
      if count >= MAX_WINDOWS { return -1, memory; }
      var taken := next;
      next := (next + 1) % U32;
      ClearFocus();
      slots[count] := NewWindow(taken, owner, w, h, title, flags, memory.value);
      count := count + 1;
      return Signed(taken), None;
    }

    /** `woos_graphics_destroy_window`; the buffer handed back to the heap is returned. */
    method Destroy(id: nat) returns (result: int, freed: Option<nat>)
      requires Valid()
      modifies this`count, slots
      ensures Valid() && Current() == Step(old(Current()), WindowOrder.Destroy(id))
      ensures var i := Find(old(Current()).ws, id);
              && result == (if i < old(count) then 0 else -1)
              && count == (if i < old(count) then old(count) - 1 else old(count))
              && freed == (if i < old(count) && old(Current()).ws[i].buffer != 0 then Some(old(Current()).ws[i].buffer)
                           else None)
    {
      hide Find, Destroyed;
      var i := FindSlot(id);
      if i == count { return -1, None; }
      var buffer := slots[i].buffer;
      RemoveSlot(i);
      return 0, if buffer != 0 then Some(buffer) else None;
    }

    /** Slot `i` is taken out, and the window that is then on top gets the focus. */
    method RemoveSlot(i: nat)
      requires Valid() && i < count
      modifies this`count, slots
      ensures Valid() && count == old(count) - 1 && slots[..count] == Destroyed(old(slots[..count]), i)
    {
      CloseGap(i);
      slots[count - 1] := BLANK;
      count := count - 1;
      if count > 0 {
        slots[count - 1] := SetFocus(slots[count - 1], true);
      }
    }

    /** `woos_graphics_destroy_thread_windows` */
    method DestroyThreadWindows(owner: nat) returns (destroyed: nat)
      requires Valid()
      modifies this`count, slots
      ensures Valid() && Current() == Step(old(Current()), DestroyThread(owner))
      ensures destroyed == old(count) - count
    {
      hide Destroyed, Find;
      destroyed := 0;
      while true
        invariant Valid() && next == old(next) && destroyed == old(count) - count
        invariant DestroyedAll(Current().ws, owner) == DestroyedAll(old(Current()).ws, owner)
        decreases count
      {
        var target := FindThread(owner);
        if target == 0 { break; }
        var _, _ := Destroy(target);
        destroyed := destroyed + 1;
      }
    }

    /** The identifier of the topmost window of a thread, or zero. */
    method FindThread(owner: nat) returns (target: nat)
      requires Valid()
      ensures var ws := Current().ws; var k := TopOf(ws, owner);
              && target == (if k < |ws| then ws[k].id else 0)
              && (k < |ws| ==> Find(ws, target) < |ws|)
    {
      target := 0;
      var i := count;
      while i > 0
        invariant 0 <= i <= count && forall k | i <= k < count :: slots[k].owner != owner
      {
        i := i - 1;
        if slots[i].owner == owner {
          TopOfIs(Current().ws, owner, i);
          return slots[i].id;
        }
      }
      NoneOf(Current().ws, owner);
    }

    method MoveToTop(i: nat)
      requires Valid() && i < count
      modifies slots
      ensures Valid() && slots[..count] == ToTop(old(slots[..count]), i)
    {
      hide Remove;
      if i < count - 1 {
        var moved := slots[i];
        CloseGap(i);
        slots[count - 1] := moved;
      } else {
        WithoutLast(slots[..count]);
      }
    }

    /** The window in slot `i` goes to the top and takes the focus. */
    method RaiseSlot(i: nat)
      requires Valid() && i < count
      modifies slots
      ensures Valid() && slots[..count] == Raised(old(slots[..count]), i)
    {
      hide Raised, Unfocused, ToTop;
      RaiseParts(slots[..count], i);
      slots[i] := SetMinimized(slots[i], false);
      assert slots[..count] == old(slots[..count])[i := SetMinimized(old(slots[i]), false)];
      ClearFocus();
      MoveToTop(i);
      slots[count - 1] := SetFocus(slots[count - 1], true);
    }

    /** `woos_graphics_bring_to_front` */
    method BringToFront(id: nat) returns (result: int)
      requires Valid()
      modifies slots
      ensures Valid() && Current() == Step(old(Current()), Raise(id))
      ensures result == if Find(old(Current()).ws, id) < count then 0 else -1
    {
      var i := FindSlot(id);
      if i == count { return -1; }
      RaiseSlot(i);
      return 0;
    }

    /** `woos_graphics_toggle_minimize` */
    method ToggleMinimize(id: nat) returns (result: int)
      requires Valid()
      modifies slots
      ensures Valid() && Current() == Step(old(Current()), Minimize(id))
      ensures result == if Find(old(Current()).ws, id) < count then 0 else -1
    {
      hide Find, Raised, TopVisible;
      var i := FindSlot(id);
      if i == count { return -1; }
      if slots[i].flags.minimized {
        result := BringToFront(id);
        return;
      }
      slots[i] := SetFocus(SetMinimized(slots[i], true), false);
      ghost var ms := slots[..count];
      assert ms == old(slots[..count])[i := SetFocus(SetMinimized(old(slots[i]), true), false)];
      var j := count;
      while j > 0
        invariant 0 <= j <= count && slots[..count] == ms && Valid()
        invariant forall k | j <= k < count :: !Visible(slots[k])
      {
        j := j - 1;
        if Visible(slots[j]) {
          TopVisibleIs(ms, j);
          slots[j] := SetFocus(slots[j], true);
          return 0;
        }
      }
      NoneVisible(ms);
      return 0;
    }

    /** `woos_graphics_toggle_maximize`; `memory` is what the reallocation of the buffer yields. */
    method ToggleMaximize(id: nat, screen: Option<(nat, nat)>, memory: Option<nat>) returns (result: int)
      requires Valid()
      modifies slots
      ensures Valid() && Current() == Step(old(Current()), Maximize(id, screen, memory))
      ensures result == if Find(old(Current()).ws, id) < count then 0 else -1
    {
      hide Find, Raised, Maximized;
      var i := FindSlot(id);
      if i == count { return -1; }
      if slots[i].title == "Calculator" { return 0; }
      SameIds(slots[..count], i, screen, memory, id);
      MaximizeSlot(i, screen, memory);
      var _ := BringToFront(id);
      return 0;
    }

    /** The new place of the window in slot `i`, its saved place, and its buffer. */
    method ReplaceSlot(i: nat, screen: Option<(nat, nat)>)
      requires Valid() && i < count
      modifies slots
      ensures Valid() && slots[..count] == old(slots[..count])[i := Replaced(old(slots[i]), screen)]
    {
      if slots[i].flags.maximized {
        slots[i] := slots[i].(place := slots[i].saved, flags := slots[i].flags.(maximized := false));
        return;
      }
      slots[i] := slots[i].(saved := slots[i].place);
      slots[i] := slots[i].(place := slots[i].place.(x := 0, y := 22));
      if screen.Some? && screen.value.0 > 0 && screen.value.1 > 58 {
        slots[i] := slots[i].(place := slots[i].place.(w := screen.value.0, h := screen.value.1 - 58));
      }
      slots[i] := slots[i].(flags := slots[i].flags.(maximized := true));
    }

    method MaximizeSlot(i: nat, screen: Option<(nat, nat)>, memory: Option<nat>)
      requires Valid() && i < count
      modifies slots
      ensures Valid() && slots[..count] == old(slots[..count])[i := Maximized(old(slots[i]), screen, memory)]
    {
      hide Replaced;
      ReplaceSlot(i, screen);
      assert slots[i] == slots[..count][i];
      if slots[i].place.w > 0 && slots[i].place.h > 0 && memory.Some? {
        slots[i] := slots[i].(buffer := memory.value);
      }
    }

    /** `woos_graphics_get_focused_tid` */
    method GetFocusedTid() returns (tid: int)
      requires Valid()
      ensures tid == FocusedOwner(Current().ws)
    {
      var i := count;
      while i > 0
        invariant 0 <= i <= count && FocusedOwner(slots[..i]) == FocusedOwner(slots[..count])
      {
        i := i - 1;
        if HasFocus(slots[i]) { return slots[i].owner; }
        FocusedOwnerTail(slots[..], i + 1);
      }
      return -1;
    }
  }

  function ToTop(ws: seq<Window>, i: nat): (r: seq<Window>)
    requires i < |ws|
    ensures |r| == |ws|
  {
    Remove(ws, i) + [ws[i]]
  }

  lemma RaiseParts(ws: seq<Window>, i: nat)
    requires i < |ws|
    ensures var u := Unfocused(ws[i := SetMinimized(ws[i], false)]);
            Raised(ws, i) == ToTop(u, i)[|ws| - 1 := SetFocus(ToTop(u, i)[|ws| - 1], true)]
  {
  }

  lemma WithoutLast(ws: seq<Window>)
    requires |ws| > 0
    ensures Remove(ws, |ws| - 1) == ws[..|ws| - 1]
  {
  }

  lemma SameIds(ws: seq<Window>, i: nat, screen: Option<(nat, nat)>, memory: Option<nat>, id: nat)
    requires i < |ws| && i == Find(ws, id)
    ensures Find(ws[i := Maximized(ws[i], screen, memory)], id) == i
  {
    FindIs(ws[i := Maximized(ws[i], screen, memory)], id, i);
  }
}
