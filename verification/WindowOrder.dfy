/** The window list from bottom to top (fb.c) as a value: stacking order, focus and identifiers. */
module WindowOrder {
  import opened Options

  const MAX_WINDOWS: nat := 8
  const U32: nat := 0x1_0000_0000

  datatype Flags = Flags(minimized: bool, maximized: bool, customDecor: bool, focused: bool, resizable: bool)

  datatype Rect = Rect(x: int, y: int, w: nat, h: nat)

  datatype Window = Window(id: nat, owner: nat, place: Rect, flags: Flags, saved: Rect, title: string, active: bool,
                           buffer: nat)

  function SetFocus(w: Window, on: bool): Window { w.(flags := w.flags.(focused := on)) }

  function SetMinimized(w: Window, on: bool): Window { w.(flags := w.flags.(minimized := on)) }

  predicate Visible(w: Window) { !w.flags.minimized }

  predicate HasFocus(w: Window) { w.flags.focused && Visible(w) }

  // ---------- searches ----------

  /** The first window with the identifier, or the length. */
  function Find(ws: seq<Window>, id: nat): (i: nat)
    ensures i <= |ws| && (i < |ws| ==> ws[i].id == id) && forall k | 0 <= k < i :: ws[k].id != id
  {
    if |ws| == 0 || ws[0].id == id then 0 else 1 + Find(ws[1..], id)
  }

  /** The topmost visible window, or the length. */
  function TopVisible(ws: seq<Window>): (i: nat)
    ensures i <= |ws| && (i < |ws| ==> Visible(ws[i]) && forall k | i < k < |ws| :: !Visible(ws[k]))
    ensures i == |ws| ==> forall k | 0 <= k < |ws| :: !Visible(ws[k])
  {
    if |ws| == 0 then 0
    else if Visible(ws[|ws| - 1]) then |ws| - 1
    else var i := TopVisible(ws[..|ws| - 1]); if i == |ws| - 1 then |ws| else i
  }

  /** The topmost window of a thread, or the length. */
  function TopOf(ws: seq<Window>, owner: nat): (i: nat)
    ensures i <= |ws| && (i < |ws| ==> ws[i].owner == owner && forall k | i < k < |ws| :: ws[k].owner != owner)
    ensures i == |ws| ==> forall k | 0 <= k < |ws| :: ws[k].owner != owner
  {
    if |ws| == 0 then 0
    else if ws[|ws| - 1].owner == owner then |ws| - 1
    else var i := TopOf(ws[..|ws| - 1], owner); if i == |ws| - 1 then |ws| else i
  }

  /** The owner that the focus query reports: that of the topmost window that is focused and visible, or -1. */
  function FocusedOwner(ws: seq<Window>): int {
    if |ws| == 0 then -1
    else if HasFocus(ws[|ws| - 1]) then ws[|ws| - 1].owner
    else FocusedOwner(ws[..|ws| - 1])
  }

  // ---------- the operations ----------

  function Remove<T>(s: seq<T>, i: nat): (r: seq<T>)
    requires i < |s|
    ensures |r| == |s| - 1
    ensures forall k | 0 <= k < |r| :: r[k] == s[if k < i then k else k + 1]
  {
    s[..i] + s[i + 1..]
  }

  function Unfocused(ws: seq<Window>): (r: seq<Window>)
    ensures |r| == |ws|
  {
    seq(|ws|, i requires 0 <= i < |ws| => SetFocus(ws[i], false))
  }

  function NewWindow(id: nat, owner: nat, w: nat, h: nat, title: string, flags: Flags, buffer: nat): Window {
    var place := Rect(80 + id * 35 % U32 % 400, 70 + id * 25 % U32 % 250, w, h);
    Window(id, owner, place, flags.(focused := true), place, if title == "" then "Application" else Shorten(title),
           true, buffer)
  }

  /** Titles hold 31 characters. */
  function Shorten(title: string): string { if |title| > 31 then title[..31] else title }

  function FocusTop(ws: seq<Window>): (r: seq<Window>)
    ensures |r| == |ws|
  {
    if |ws| == 0 then ws else ws[|ws| - 1 := SetFocus(ws[|ws| - 1], true)]
  }

  function Destroyed(ws: seq<Window>, i: nat): seq<Window>
    requires i < |ws|
  {
    FocusTop(Remove(ws, i))
  }

  /** Destroy the topmost window of a thread until it has none; an identifier of zero ends the loop. */
  function DestroyedAll(ws: seq<Window>, owner: nat): seq<Window>
    decreases |ws|
  {
    var k := TopOf(ws, owner);
    if k == |ws| || ws[k].id == 0 || Find(ws, ws[k].id) == |ws| then ws
    else DestroyedAll(Destroyed(ws, Find(ws, ws[k].id)), owner)
  }

  function Raised(ws: seq<Window>, i: nat): (r: seq<Window>)
    requires i < |ws|
    ensures |r| == |ws|
  {
    Remove(Unfocused(ws), i) + [SetFocus(SetMinimized(ws[i], false), true)]
  }

  function Minimized(ws: seq<Window>, i: nat): (r: seq<Window>)
    requires i < |ws|
    ensures |r| == |ws|
  {
    var ms := ws[i := SetFocus(SetMinimized(ws[i], true), false)];
    var k := TopVisible(ms);
    if k == |ms| then ms else ms[k := SetFocus(ms[k], true)]
  }

  /** Maximizing saves the place and takes the screen below the menu bar; a second time it restores the saved place. */
  function Replaced(w: Window, screen: Option<(nat, nat)>): Window {
    if w.flags.maximized then w.(place := w.saved, flags := w.flags.(maximized := false))
    else
      var fits := screen.Some? && screen.value.0 > 0 && screen.value.1 > 58;
      var target := if fits then Rect(0, 22, screen.value.0, screen.value.1 - 58) else w.place.(x := 0, y := 22);
      w.(place := target, saved := w.place, flags := w.flags.(maximized := true))
  }

  function Maximized(w: Window, screen: Option<(nat, nat)>, buffer: Option<nat>): Window {
    var moved := Replaced(w, screen);
    if moved.place.w > 0 && moved.place.h > 0 && buffer.Some? then moved.(buffer := buffer.value) else moved
  }

  datatype Op =
    | Create(owner: nat, w: nat, h: nat, title: string, flags: Flags, memory: Option<nat>)
    | Destroy(id: nat)
    | DestroyThread(owner: nat)
    | Raise(id: nat)
    | Minimize(id: nat)
    | Maximize(id: nat, screen: Option<(nat, nat)>, memory: Option<nat>)

  datatype State = State(ws: seq<Window>, next: nat)

  function Step(s: State, op: Op): State {
    match op
    case Create(owner, w, h, title, flags, memory) =>
      if memory.None? || |s.ws| >= MAX_WINDOWS then s
      else State(Unfocused(s.ws) + [NewWindow(s.next, owner, w, h, title, flags, memory.value)], (s.next + 1) % U32)
    case Destroy(id) => var i := Find(s.ws, id); if i == |s.ws| then s else s.(ws := Destroyed(s.ws, i))
    case DestroyThread(owner) => s.(ws := DestroyedAll(s.ws, owner))
    case Raise(id) => var i := Find(s.ws, id); if i == |s.ws| then s else s.(ws := Raised(s.ws, i))
    case Minimize(id) =>
      var i := Find(s.ws, id);
      if i == |s.ws| then s else if s.ws[i].flags.minimized then s.(ws := Raised(s.ws, i))
      else s.(ws := Minimized(s.ws, i))
    case Maximize(id, screen, memory) =>
      var i := Find(s.ws, id);
      if i == |s.ws| || s.ws[i].title == "Calculator" then s
      else s.(ws := Raised(s.ws[i := Maximized(s.ws[i], screen, memory)], i))
  }

  // ---------- the invariant ----------

  /** A window that is focused and visible has no visible window above it. */
  predicate FocusOnTop(ws: seq<Window>) {
    forall i, k | 0 <= i < k < |ws| :: HasFocus(ws[i]) ==> !Visible(ws[k])
  }

  predicate Distinct(ws: seq<Window>) {
    forall i, k | 0 <= i < k < |ws| :: ws[i].id != ws[k].id
  }

  /** What holds whatever the counter shows. */
  predicate Sound(ws: seq<Window>) { |ws| <= MAX_WINDOWS && FocusOnTop(ws) }

  predicate Inv(s: State) { Sound(s.ws) && Distinct(s.ws) }

  /** The counter has not wrapped: no window has the identifier zero or one that is still to come. */
  predicate Early(s: State) { 1 <= s.next < U32 && forall i | 0 <= i < |s.ws| :: 1 <= s.ws[i].id < s.next }

  /** The focus query names the owner of the topmost visible window if that window has the focus, and -1 otherwise. */
  lemma {:induction false} FocusedOwnerIsTop(ws: seq<Window>)
    requires FocusOnTop(ws)
    ensures var t := TopVisible(ws); FocusedOwner(ws) == if t < |ws| && ws[t].flags.focused then ws[t].owner else -1
    decreases |ws|
  {
    if |ws| > 0 && !HasFocus(ws[|ws| - 1]) {
      var rest := ws[..|ws| - 1];
      FocusedOwnerIsTop(rest);
      if Visible(ws[|ws| - 1]) {
        NoFocus(rest);
      }
    }
  }

  lemma {:induction false} NoFocus(ws: seq<Window>)
    requires forall i | 0 <= i < |ws| :: !HasFocus(ws[i])
    ensures FocusedOwner(ws) == -1
    decreases |ws|
  {
    if |ws| > 0 { NoFocus(ws[..|ws| - 1]); }
  }

  /** The operation opens a window. */
  predicate Opens(s: State, op: Op) { op.Create? && op.memory.Some? && |s.ws| < MAX_WINDOWS }

  /** The identifier that the counter shows is a live window's. */
  predicate Clash(s: State) { exists w | w in s.ws :: w.id == s.next }

  lemma DestroyedSound(ws: seq<Window>, i: nat)
    requires Sound(ws) && i < |ws|
    ensures Sound(Destroyed(ws, i))
  {
  }

  lemma RaisedSound(ws: seq<Window>, i: nat)
    requires |ws| <= MAX_WINDOWS && i < |ws|
    ensures Sound(Raised(ws, i))
  {
  }

  lemma MinimizedSound(ws: seq<Window>, i: nat)
    requires Sound(ws) && i < |ws|
    ensures Sound(Minimized(ws, i))
  {
  }

  lemma {:induction false} DestroyedAllSound(ws: seq<Window>, owner: nat)
    requires Sound(ws)
    ensures Sound(DestroyedAll(ws, owner))
    decreases |ws|
  {
    hide Sound, Destroyed;
    var k := TopOf(ws, owner);
    if k < |ws| && ws[k].id != 0 {
      var i := Find(ws, ws[k].id);
      if i < |ws| {
        DestroyedSound(ws, i);
        DestroyedSize(ws, i);
        DestroyedAllSound(Destroyed(ws, i), owner);
      }
    }
  }

  lemma OpenedSound(ws: seq<Window>, w: Window)
    requires |ws| < MAX_WINDOWS
    ensures Sound(Unfocused(ws) + [w])
  {
  }

  /** Every operation keeps a focused visible window topmost among the visible, and at most eight windows. */
  lemma StepSound(s: State, op: Op)
    requires Sound(s.ws)
    ensures Sound(Step(s, op).ws)
  {
    hide FocusOnTop, Destroyed, DestroyedAll, Raised, Minimized, NewWindow, Unfocused, Find, Maximized;
    match op {
      case Create(owner, w, h, title, flags, memory) =>
        if Opens(s, op) { OpenedSound(s.ws, NewWindow(s.next, owner, w, h, title, flags, memory.value)); }
      case DestroyThread(owner) => DestroyedAllSound(s.ws, owner);
      case Destroy(id) => if Find(s.ws, id) < |s.ws| { DestroyedSound(s.ws, Find(s.ws, id)); }
      case Raise(id) => if Find(s.ws, id) < |s.ws| { RaisedSound(s.ws, Find(s.ws, id)); }
      case Minimize(id) =>
        var i := Find(s.ws, id);
        if i < |s.ws| {
          RaisedSound(s.ws, i);
          MinimizedSound(s.ws, i);
        }
      case Maximize(id, screen, memory) =>
        var i := Find(s.ws, id);
        if i < |s.ws| { RaisedSound(s.ws[i := Maximized(s.ws[i], screen, memory)], i); }
    }
  }

  /** Different windows of `ts` come from different windows of `ws`, with their identifiers and owners. */
  ghost predicate FromAll(ts: seq<Window>, ws: seq<Window>, at: seq<nat>) {
    && |at| == |ts|
    && (forall k | 0 <= k < |at| :: at[k] < |ws| && ts[k].id == ws[at[k]].id && ts[k].owner == ws[at[k]].owner)
    && (forall j, k | 0 <= j < k < |at| :: at[j] != at[k])
  }

  ghost predicate Kept(ts: seq<Window>, ws: seq<Window>) { exists at :: FromAll(ts, ws, at) }

  lemma KeptIds(ts: seq<Window>, ws: seq<Window>)
    requires Kept(ts, ws)
    ensures Distinct(ws) ==> Distinct(ts)
    ensures forall t | t in ts :: exists w | w in ws :: w.id == t.id && w.owner == t.owner
  {
    var at :| FromAll(ts, ws, at);
    forall t | t in ts
      ensures exists w | w in ws :: w.id == t.id && w.owner == t.owner
    {
      var k :| 0 <= k < |ts| && ts[k] == t;
      assert ws[at[k]] in ws;
    }
  }

  lemma KeptSelf(ws: seq<Window>)
    ensures Kept(ws, ws)
  {
    assert FromAll(ws, ws, seq(|ws|, k => k));
  }

  lemma KeptTwice(us: seq<Window>, ts: seq<Window>, ws: seq<Window>)
    requires Kept(us, ts) && Kept(ts, ws)
    ensures Kept(us, ws)
  {
    var a :| FromAll(us, ts, a);
    var b :| FromAll(ts, ws, b);
    var c := seq(|us|, k requires 0 <= k < |us| => b[a[k]]);
    forall j, k | 0 <= j < k < |us|
      ensures c[j] != c[k]
    {
      assert a[j] < a[k] || a[k] < a[j];
    }
    assert FromAll(us, ws, c);
  }

  lemma DestroyedKept(ws: seq<Window>, i: nat)
    requires i < |ws|
    ensures Kept(Destroyed(ws, i), ws)
  {
    assert FromAll(Destroyed(ws, i), ws, seq(|ws| - 1, k => if k < i then k else k + 1));
  }

  lemma RaisedKept(ws: seq<Window>, i: nat)
    requires i < |ws|
    ensures Kept(Raised(ws, i), ws)
  {
    assert FromAll(Raised(ws, i), ws, seq(|ws|, k => if k < i then k else if k < |ws| - 1 then k + 1 else i));
  }

  lemma MinimizedKept(ws: seq<Window>, i: nat)
    requires i < |ws|
    ensures Kept(Minimized(ws, i), ws)
  {
    assert FromAll(Minimized(ws, i), ws, seq(|ws|, k => k));
  }

  lemma MaximizedKept(ws: seq<Window>, i: nat, screen: Option<(nat, nat)>, memory: Option<nat>)
    requires i < |ws|
    ensures Kept(ws[i := Maximized(ws[i], screen, memory)], ws)
  {
    assert FromAll(ws[i := Maximized(ws[i], screen, memory)], ws, seq(|ws|, k => k));
  }

  lemma {:induction false} DestroyedAllKept(ws: seq<Window>, owner: nat)
    ensures Kept(DestroyedAll(ws, owner), ws)
    decreases |ws|
  {
    hide Kept, Destroyed;
    KeptSelf(ws);
    var k := TopOf(ws, owner);
    if k < |ws| && ws[k].id != 0 {
      var i := Find(ws, ws[k].id);
      if i < |ws| {
        DestroyedSize(ws, i);
        DestroyedKept(ws, i);
        DestroyedAllKept(Destroyed(ws, i), owner);
        KeptTwice(DestroyedAll(Destroyed(ws, i), owner), Destroyed(ws, i), ws);
      }
    }
  }

  /** An operation that opens no window lets no identifier appear that was not there, and no second copy of one. */
  lemma StepKept(s: State, op: Op)
    requires !Opens(s, op)
    ensures Kept(Step(s, op).ws, s.ws) && Step(s, op).next == s.next
  {
    hide Kept, Destroyed, DestroyedAll, Raised, Minimized, Find, Maximized;
    KeptSelf(s.ws);
    match op {
      case Create(_, _, _, _, _, _) =>
      case DestroyThread(owner) => DestroyedAllKept(s.ws, owner);
      case Destroy(id) => if Find(s.ws, id) < |s.ws| { DestroyedKept(s.ws, Find(s.ws, id)); }
      case Raise(id) => if Find(s.ws, id) < |s.ws| { RaisedKept(s.ws, Find(s.ws, id)); }
      case Minimize(id) =>
        var i := Find(s.ws, id);
        if i < |s.ws| {
          RaisedKept(s.ws, i);
          MinimizedKept(s.ws, i);
        }
      case Maximize(id, screen, memory) =>
        var i := Find(s.ws, id);
        if i < |s.ws| {
          var ms := s.ws[i := Maximized(s.ws[i], screen, memory)];
          MaximizedKept(s.ws, i, screen, memory);
          RaisedKept(ms, i);
          KeptTwice(Raised(ms, i), ms, s.ws);
        }
    }
  }

  /** A new window gets an identifier of its own if and only if no live window has the one that the counter shows. */
  lemma OpenedDistinct(s: State, op: Op)
    requires Distinct(s.ws) && Opens(s, op)
    ensures Distinct(Step(s, op).ws) <==> !Clash(s)
  {
    var ws := Step(s, op).ws;
    assert forall i | 0 <= i < |s.ws| :: ws[i].id == s.ws[i].id;
    assert ws[|s.ws|].id == s.next;
    if Distinct(ws) {
      forall w | w in s.ws
        ensures w.id != s.next
      {
        var i :| 0 <= i < |s.ws| && s.ws[i] == w;
        assert ws[i].id != ws[|s.ws|].id;
      }
    }
    if !Distinct(ws) {
      var i, k :| 0 <= i < k < |ws| && ws[i].id == ws[k].id;
      assert s.ws[i] in s.ws;
    }
  }

  /** Every operation keeps the invariant, if and only if it does not open a window with a live identifier. */
  lemma StepInv(s: State, op: Op)
    requires Inv(s)
    ensures Inv(Step(s, op)) <==> !(Opens(s, op) && Clash(s))
  {
    hide Sound, Distinct, Step, Clash, Opens;
    StepSound(s, op);
    if Opens(s, op) {
      OpenedDistinct(s, op);
    } else {
      StepKept(s, op);
      KeptIds(Step(s, op).ws, s.ws);
    }
  }

  function Run(s: State, ops: seq<Op>): State
    decreases |ops|
  {
    if |ops| == 0 then s else Run(Step(s, ops[0]), ops[1..])
  }

  /** Over every run, whatever becomes of the counter. */
  lemma {:induction false} RunSound(s: State, ops: seq<Op>)
    requires Sound(s.ws)
    ensures Sound(Run(s, ops).ws)
    decreases |ops|
  {
    hide Sound, Step;
    if |ops| > 0 {
      StepSound(s, ops[0]);
      RunSound(Step(s, ops[0]), ops[1..]);
    }
  }

  ghost predicate InvAlong(s: State, ops: seq<Op>)
    decreases |ops|
  {
    Inv(s) && (|ops| > 0 ==> InvAlong(Step(s, ops[0]), ops[1..]))
  }

  /** No window is opened while another one has the identifier that the counter shows. */
  ghost predicate NoClash(s: State, ops: seq<Op>)
    decreases |ops|
  {
    |ops| > 0 ==> !(Opens(s, ops[0]) && Clash(s)) && NoClash(Step(s, ops[0]), ops[1..])
  }

  /** The invariant holds along a run if and only if no window is opened with a live identifier. */
  lemma {:induction false} RunInv(s: State, ops: seq<Op>)
    requires Inv(s)
    ensures InvAlong(s, ops) <==> NoClash(s, ops)
    ensures NoClash(s, ops) ==> Inv(Run(s, ops))
    decreases |ops|
  {
    hide Inv, Step, Opens, Clash;
    if |ops| > 0 {
      StepInv(s, ops[0]);
      if Inv(Step(s, ops[0])) {
        RunInv(Step(s, ops[0]), ops[1..]);
      }
    }
  }

  // ---------- before the counter wraps ----------

  /** How many windows a run opens. */
  function Opened(s: State, ops: seq<Op>): nat
    decreases |ops|
  {
    if |ops| == 0 then 0 else (if Opens(s, ops[0]) then 1 else 0) + Opened(Step(s, ops[0]), ops[1..])
  }

  lemma StepEarly(s: State, op: Op)
    requires Early(s) && (Opens(s, op) ==> s.next + 1 < U32)
    ensures !Clash(s) && Early(Step(s, op)) && Step(s, op).next == s.next + (if Opens(s, op) then 1 else 0)
  {
    hide Step;
    var t := Step(s, op);
    if Opens(s, op) {
      OpenedIds(s, op);
    } else {
      StepKept(s, op);
      KeptIds(t.ws, s.ws);
      forall i | 0 <= i < |t.ws|
        ensures 1 <= t.ws[i].id < t.next
      {
        assert t.ws[i] in t.ws;
      }
    }
  }

  lemma OpenedIds(s: State, op: Op)
    requires Opens(s, op)
    ensures var t := Step(s, op);
            && |t.ws| == |s.ws| + 1 && t.ws[|s.ws|].id == s.next && t.ws[|s.ws|].owner == op.owner
            && t.next == (s.next + 1) % U32
            && forall i | 0 <= i < |s.ws| :: t.ws[i].id == s.ws[i].id && t.ws[i].owner == s.ws[i].owner
  {
  }

  /** A run that opens fewer windows than identifiers are left has no clash, and no window has the identifier zero. */
  lemma {:induction false} RunEarly(s: State, ops: seq<Op>)
    requires Early(s) && s.next + Opened(s, ops) < U32
    ensures NoClash(s, ops) && Early(Run(s, ops)) && Run(s, ops).next == s.next + Opened(s, ops)
    decreases |ops|
  {
    hide Early, Step, Opens, Clash;
    if |ops| > 0 {
      StepEarly(s, ops[0]);
      RunEarly(Step(s, ops[0]), ops[1..]);
    }
  }

  // ---------- the windows of a thread ----------

  predicate Owns(ws: seq<Window>, owner: nat) { exists i :: 0 <= i < |ws| && ws[i].owner == owner }

  /** A thread's windows can all be destroyed if and only if none of them has the identifier zero. */
  lemma {:induction false} AllDestroyed(ws: seq<Window>, owner: nat)
    requires Distinct(ws)
    ensures !Owns(DestroyedAll(ws, owner), owner) <==> forall w | w in ws && w.owner == owner :: w.id != 0
    decreases |ws|
  {
    hide Destroyed;
    var k := TopOf(ws, owner);
    if k < |ws| {
      assert ws[k] in ws;
      FindById(ws, k);
      if ws[k].id != 0 {
        DestroyedParts(ws, k, owner);
        AllDestroyed(Destroyed(ws, k), owner);
      } else {
        assert Owns(ws, owner);
      }
    } else {
      assert forall w | w in ws :: w.owner != owner;
    }
  }

  /** The same after any run in which no window is opened with a live identifier. */
  lemma RunAllDestroyed(s: State, ops: seq<Op>, owner: nat)
    requires Inv(s) && NoClash(s, ops)
    ensures var ws := Run(s, ops).ws;
            !Owns(DestroyedAll(ws, owner), owner) <==> forall w | w in ws && w.owner == owner :: w.id != 0
    ensures Early(s) && s.next + Opened(s, ops) < U32 ==> !Owns(DestroyedAll(Run(s, ops).ws, owner), owner)
  {
    hide Run, Owns, DestroyedAll, Distinct, NoClash, Opened;
    RunInv(s, ops);
    AllDestroyed(Run(s, ops).ws, owner);
    if Early(s) && s.next + Opened(s, ops) < U32 {
      RunEarly(s, ops);
      forall w | w in Run(s, ops).ws
        ensures w.id != 0
      {
        var i :| 0 <= i < |Run(s, ops).ws| && Run(s, ops).ws[i] == w;
      }
    }
  }

  lemma DestroyedAt(ws: seq<Window>, k: nat, i: nat)
    requires k < |ws| && i < |ws| - 1
    ensures |Destroyed(ws, k)| == |ws| - 1
    ensures var w, was := Destroyed(ws, k)[i], ws[if i < k then i else i + 1]; w.id == was.id && w.owner == was.owner
  {
  }

  lemma DestroyedParts(ws: seq<Window>, k: nat, owner: nat)
    requires Distinct(ws) && k < |ws| && ws[k].owner == owner && ws[k].id != 0
    ensures Distinct(Destroyed(ws, k)) && |Destroyed(ws, k)| == |ws| - 1
    ensures (forall w | w in Destroyed(ws, k) && w.owner == owner :: w.id != 0) <==>
            (forall w | w in ws && w.owner == owner :: w.id != 0)
  {
    hide Destroyed;
    var rest := Destroyed(ws, k);
    assert |rest| == |ws| - 1 by { if |ws| > 1 { DestroyedAt(ws, k, 0); } else { NothingLeft(ws); } }
    forall i, j | 0 <= i < j < |rest|
      ensures rest[i].id != rest[j].id
    {
      DestroyedAt(ws, k, i);
      DestroyedAt(ws, k, j);
    }
    if w :| w in rest && w.owner == owner && w.id == 0 {
      var i :| 0 <= i < |rest| && rest[i] == w;
      DestroyedAt(ws, k, i);
      assert ws[if i < k then i else i + 1] in ws;
    }
    if w :| w in ws && w.owner == owner && w.id == 0 {
      var j :| 0 <= j < |ws| && ws[j] == w;
      DestroyedAt(ws, k, if j < k then j else j - 1);
      assert rest[if j < k then j else j - 1] in rest;
    }
  }

  lemma NothingLeft(ws: seq<Window>)
    requires |ws| == 1
    ensures |Destroyed(ws, 0)| == 0
  {
  }

  // ---------- what each operation keeps ----------

  lemma FindById(ws: seq<Window>, k: nat)
    requires k < |ws| && Distinct(ws)
    ensures Find(ws, ws[k].id) == k
  {
    var i := Find(ws, ws[k].id);
  }

  /** Apart from the focus, raising a window keeps all others as they are and in their order. */
  lemma RaisedOrder(ws: seq<Window>, i: nat)
    requires i < |ws|
    ensures Unfocused(Raised(ws, i)) == Remove(Unfocused(ws), i) + [SetFocus(SetMinimized(ws[i], false), false)]
    ensures HasFocus(Raised(ws, i)[|ws| - 1]) && FocusedOwner(Raised(ws, i)) == ws[i].owner
  {
  }

  /** Apart from the focus, destroying a window keeps all others as they are and in their order. */
  lemma DestroyedOrder(ws: seq<Window>, i: nat)
    requires i < |ws|
    ensures Unfocused(Destroyed(ws, i)) == Remove(Unfocused(ws), i)
  {
  }

  lemma MinimizedOrder(ws: seq<Window>, i: nat)
    requires i < |ws|
    ensures Unfocused(Minimized(ws, i)) == Unfocused(ws)[i := SetFocus(SetMinimized(ws[i], true), false)]
  {
  }

  /** The windows of all other threads. */
  function Without(ws: seq<Window>, owner: nat): seq<Window> {
    if |ws| == 0 then []
    else
      var rest := Without(ws[..|ws| - 1], owner);
      if ws[|ws| - 1].owner == owner then rest else rest + [ws[|ws| - 1]]
  }

  lemma {:induction false} WithoutNone(ws: seq<Window>, owner: nat)
    requires forall k | 0 <= k < |ws| :: ws[k].owner != owner
    ensures Without(ws, owner) == ws
    decreases |ws|
  {
    if |ws| > 0 {
      WithoutNone(ws[..|ws| - 1], owner);
    }
  }

  lemma {:induction false} WithoutRemove(ws: seq<Window>, owner: nat, k: nat)
    requires k < |ws| && ws[k].owner == owner
    ensures Without(Remove(ws, k), owner) == Without(ws, owner)
    decreases |ws|
  {
    var init := ws[..|ws| - 1];
    if k == |ws| - 1 {
      assert Remove(ws, k) == init;
    } else {
      WithoutRemove(init, owner, k);
      assert Remove(ws, k)[..|ws| - 2] == Remove(init, k);
    }
  }

  lemma {:induction false} WithoutOwner(ws: seq<Window>, owner: nat)
    ensures forall w | w in Without(ws, owner) :: w.owner != owner
    decreases |ws|
  {
    if |ws| > 0 {
      WithoutOwner(ws[..|ws| - 1], owner);
    }
  }

  /** Destroying the windows of a thread leaves exactly those of the others, in their order, if and only if none of the
      thread's has the identifier zero. */
  lemma DestroyedAllOrder(ws: seq<Window>, owner: nat)
    requires Distinct(ws)
    ensures Unfocused(DestroyedAll(ws, owner)) == Without(Unfocused(ws), owner) <==>
            forall w | w in ws && w.owner == owner :: w.id != 0
  {
    hide Distinct, DestroyedAll, Without;
    AllDestroyed(ws, owner);
    if forall w | w in ws && w.owner == owner :: w.id != 0 {
      OthersLeft(ws, owner);
    } else {
      var ds := DestroyedAll(ws, owner);
      var i :| 0 <= i < |ds| && ds[i].owner == owner;
      WithoutOwner(Unfocused(ws), owner);
      assert Unfocused(ds)[i].owner == owner && Unfocused(ds)[i] in Unfocused(ds);
    }
  }

  lemma {:induction false} OthersLeft(ws: seq<Window>, owner: nat)
    requires Distinct(ws) && forall w | w in ws && w.owner == owner :: w.id != 0
    ensures Unfocused(DestroyedAll(ws, owner)) == Without(Unfocused(ws), owner)
    decreases |ws|
  {
    hide Destroyed, Without;
    var k := TopOf(ws, owner);
    if k == |ws| {
      WithoutNone(Unfocused(ws), owner);
    } else {
      assert ws[k] in ws;
      FindById(ws, k);
      DestroyedOrder(ws, k);
      DestroyedParts(ws, k, owner);
      OthersLeft(Destroyed(ws, k), owner);
      WithoutRemove(Unfocused(ws), owner, k);
    }
  }

  lemma DestroyedSize(ws: seq<Window>, k: nat)
    requires k < |ws|
    ensures |Destroyed(ws, k)| == |ws| - 1
  {
  }

  /** Whenever a window is visible, the topmost visible one has the focus. */
  predicate Attended(ws: seq<Window>) {
    var t := TopVisible(ws);
    t < |ws| ==> ws[t].flags.focused
  }

  lemma TopVisibleIs(ws: seq<Window>, t: nat)
    requires t < |ws| && Visible(ws[t]) && forall k | t < k < |ws| :: !Visible(ws[k])
    ensures TopVisible(ws) == t
  {
    var i := TopVisible(ws);
  }

  lemma RaisedAttended(ws: seq<Window>, i: nat)
    requires i < |ws|
    ensures Attended(Raised(ws, i))
  {
    TopVisibleIs(Raised(ws, i), |ws| - 1);
  }

  lemma MinimizedAttended(ws: seq<Window>, i: nat)
    requires i < |ws|
    ensures Attended(Minimized(ws, i))
  {
    var ms := ws[i := SetFocus(SetMinimized(ws[i], true), false)];
    var k := TopVisible(ms);
    if k < |ms| {
      TopVisibleIs(Minimized(ws, i), k);
    }
  }

  /**
    * Destroying a window leaves a visible window without focus exactly when it was the focused one and a minimized
    * window is now on top, because only the top window is given the focus.
    */
  lemma DestroyedAttended(ws: seq<Window>, i: nat)
    requires i < |ws| && FocusOnTop(ws) && Attended(ws)
    ensures var rest := Remove(ws, i);
            Attended(Destroyed(ws, i)) <==>
            !(i == TopVisible(ws) && TopVisible(rest) < |rest| && !Visible(rest[|rest| - 1]))
  {
    hide TopVisible;
    var rest, t := Remove(ws, i), TopVisible(ws);
    var u := TopVisible(rest);
    if u < |rest| {
      TopVisibleIs(Destroyed(ws, i), u);
      if i != t {
        var v := if t < i then t else t - 1;
        TopVisibleIs(rest, v);
      } else if u < |rest| - 1 {
        assert !HasFocus(ws[if u < i then u else u + 1]);
      }
    } else {
      NoneVisible(Destroyed(ws, i));
    }
  }

  lemma NoneVisible(ws: seq<Window>)
    requires forall k | 0 <= k < |ws| :: !Visible(ws[k])
    ensures TopVisible(ws) == |ws|
  {
  }

  // ---------- what the calls do to the window that they name ----------

  /** All windows but the one at `i` stay as they are and in their order, apart from the focus. */
  predicate OthersStay(ws: seq<Window>, i: nat, ts: seq<Window>, k: nat) {
    && i < |ws| == |ts| && k < |ts|
    && var rest, rest' := Remove(ws, i), Remove(ts, k);
       forall j | 0 <= j < |rest'| :: rest'[j] == SetFocus(rest[j], rest'[j].flags.focused)
  }

  lemma Named(ws: seq<Window>, i: nat)
    requires Distinct(ws) && i < |ws|
    ensures Find(ws, ws[i].id) == i
  {
  }

  /** Bringing a window to the front makes it the topmost one, visible, with the focus, and leaves no other focused. */
  lemma RaiseEffect(s: State, i: nat)
    requires Distinct(s.ws) && i < |s.ws|
    ensures var ts := Step(s, Raise(s.ws[i].id)).ws;
            && OthersStay(s.ws, i, ts, |ts| - 1) && ts[|ts| - 1] == SetFocus(SetMinimized(s.ws[i], false), true)
            && forall k | 0 <= k < |ts| - 1 :: !ts[k].flags.focused
  {
    Named(s.ws, i);
  }

  /** The minimize call hides a visible window where it is and gives the focus to the topmost window still visible; a
      hidden one it brings back to the front. */
  lemma MinimizeEffect(s: State, i: nat)
    requires Distinct(s.ws) && i < |s.ws|
    ensures var ts := Step(s, Minimize(s.ws[i].id)).ws;
            if Visible(s.ws[i]) then
              && OthersStay(s.ws, i, ts, i) && ts[i] == SetFocus(SetMinimized(s.ws[i], true), false)
              && forall k | 0 <= k < |ts| && Visible(ts[k]) && (forall j | k < j < |ts| :: !Visible(ts[j])) ::
                   ts[k].flags.focused
            else
              && OthersStay(s.ws, i, ts, |ts| - 1) && ts[|ts| - 1] == SetFocus(SetMinimized(s.ws[i], false), true)
              && forall k | 0 <= k < |ts| - 1 :: !ts[k].flags.focused
  {
    hide Raised;
    Named(s.ws, i);
    if Visible(s.ws[i]) {
      TopMinimized(s.ws, i);
    } else {
      RaiseEffect(s, i);
    }
  }

  lemma TopMinimized(ws: seq<Window>, i: nat)
    requires i < |ws|
    ensures var ts := Minimized(ws, i);
            && OthersStay(ws, i, ts, i) && ts[i] == SetFocus(SetMinimized(ws[i], true), false)
            && forall k | 0 <= k < |ts| && Visible(ts[k]) && (forall j | k < j < |ts| :: !Visible(ts[j])) ::
                 ts[k].flags.focused
  {
    var ms := ws[i := SetFocus(SetMinimized(ws[i], true), false)];
    var t := TopVisible(ms);
    var ts := Minimized(ws, i);
    assert forall j | 0 <= j < |ws| :: Visible(ts[j]) <==> Visible(ms[j]);
    forall k | 0 <= k < |ts| && Visible(ts[k]) && (forall j | k < j < |ts| :: !Visible(ts[j]))
      ensures ts[k].flags.focused
    {
      assert Visible(ms[k]);
      assert k == t;
    }
  }

  /** The maximize call brings the window to the front. A window that is not maximized gets the width of the screen and
      its height less 58 rows, from row 22 on, if the screen is known and higher than that, and keeps its size
      otherwise; its place is saved. A maximized one gets the saved place. The buffer is the new one if there is one. */
  lemma MaximizeEffect(s: State, i: nat, screen: Option<(nat, nat)>, memory: Option<nat>)
    requires Distinct(s.ws) && i < |s.ws| && s.ws[i].title != "Calculator"
    ensures var w, ts := s.ws[i], Step(s, Maximize(s.ws[i].id, screen, memory)).ws;
            var t := if |ts| > 0 then ts[|ts| - 1] else w;
            && OthersStay(s.ws, i, ts, |ts| - 1)
            && t == w.(place := t.place, saved := t.saved, flags := t.flags, buffer := t.buffer)
            && t.flags == w.flags.(minimized := false, focused := true, maximized := !w.flags.maximized)
            && (w.flags.maximized ==> t.place == w.saved && t.saved == w.saved)
            && (!w.flags.maximized ==>
                  && t.saved == w.place && t.place.x == 0 && t.place.y == 22
                  && match screen
                     case None => t.place.w == w.place.w && t.place.h == w.place.h
                     case Some((width, height)) =>
                       if width > 0 && height > 58 then t.place.w == width && t.place.h + 58 == height
                       else t.place.w == w.place.w && t.place.h == w.place.h)
            && t.buffer == if memory.Some? && t.place.w > 0 && t.place.h > 0 then memory.value else w.buffer
  {
    hide Find;
    Named(s.ws, i);
  }

  /** A window is opened if there is memory for it and there are fewer than eight; otherwise nothing changes. */
  lemma OpensExact(s: State, op: Op)
    requires op.Create?
    ensures Opens(s, op) <==> op.memory.Some? && |s.ws| < 8
    ensures !Opens(s, op) ==> Step(s, op) == s
  {
  }

  /** A window titled Calculator is left alone, and a name that no window has changes nothing. */
  lemma NoEffect(s: State, id: nat, screen: Option<(nat, nat)>, memory: Option<nat>)
    ensures (forall w | w in s.ws :: w.id != id) ==>
              Step(s, Raise(id)) == Step(s, Minimize(id)) == Step(s, Maximize(id, screen, memory)) ==
              Step(s, Destroy(id)) == s
    ensures (forall w | w in s.ws && w.id == id :: w.title == "Calculator") ==>
              Step(s, Maximize(id, screen, memory)) == s
  {
    hide Raised, Minimized, Destroyed, Maximized;
    var i := Find(s.ws, id);
    if i < |s.ws| {
      assert s.ws[i] in s.ws;
    }
  }

  /** A new window is on top with the focus, under the counter's identifier, with the size, the owner and the buffer
      that were asked for and at most 31 characters of the title. */
  lemma CreateEffect(s: State, op: Op)
    requires Opens(s, op)
    ensures var s' := Step(s, op);
            var ts, n := s'.ws, |s.ws|;
            && |ts| == n + 1
            && (s.next + 1 < U32 ==> s'.next == s.next + 1) && (s.next + 1 == U32 ==> s'.next == 0)
            && (forall k | 0 <= k < n :: ts[k] == SetFocus(s.ws[k], false))
            && ts[n].id == s.next && ts[n].owner == op.owner && Some(ts[n].buffer) == op.memory && ts[n].active
            && ts[n].place.w == op.w && ts[n].place.h == op.h && ts[n].saved == ts[n].place
            && ts[n].flags == op.flags.(focused := true)
            && (op.title == "" ==> ts[n].title == "Application")
            && (op.title != "" ==> ts[n].title <= op.title && (|ts[n].title| == 31 || ts[n].title == op.title))
            && |ts[n].title| <= 31
  {
  }

  /** New windows cascade: 35 columns and 25 rows further each, inside 400 columns and 250 rows. */
  lemma Cascade(id: nat, owner: nat, w: nat, h: nat, title: string, flags: Flags, buffer: nat)
    requires id * 35 < U32
    ensures var place := NewWindow(id, owner, w, h, title, flags, buffer).place;
            && 80 <= place.x < 480 && place.x - 80 == id * 35 - id * 35 / 400 * 400
            && 70 <= place.y < 320 && place.y - 70 == id * 25 - id * 25 / 250 * 250
  {
    hide Shorten;
    Cyclic(id * 35, 400);
    Cyclic(id * 25, 250);
  }

  lemma Cyclic(m: nat, k: nat)
    requires m < U32 && k > 0
    ensures m % U32 % k == m - m / k * k < k
  {
  }

  /** Maximizing twice gives a window its place back. */
  lemma MaximizeRestores(w: Window, screen: Option<(nat, nat)>, later: Option<(nat, nat)>, b1: Option<nat>,
                         b2: Option<nat>)
    requires !w.flags.maximized
    ensures var back := Maximized(Maximized(w, screen, b1), later, b2);
            back == w.(saved := w.place, buffer := back.buffer)
            && (w.place.w > 0 && w.place.h > 0 && b2.Some? ==> back.buffer == b2.value)
  {
  }

  /** Three windows; the last is minimized, and the second, which then has the focus, is destroyed. */
  function LostFocus(f: Flags): seq<Op> {
    [Create(1, 100, 100, "A", f, Some(1)), Create(2, 100, 100, "B", f, Some(2)), Create(3, 100, 100, "C", f, Some(3)),
     Minimize(3), Destroy(2)]
  }

  /** The first window is visible, and no window has the focus. */
  lemma FocusIsLost(f: Flags)
    requires !f.minimized
    ensures var s := Run(State([], 1), LostFocus(f));
            |s.ws| == 2 && s.ws[0].owner == 1 && Visible(s.ws[0]) && !Attended(s.ws) && FocusedOwner(s.ws) == -1
  {
    hide Attended, FocusedOwner;
    var ops := LostFocus(f);
    var a, b := NewWindow(1, 1, 100, 100, "A", f, 1), NewWindow(2, 2, 100, 100, "B", f, 2);
    var c := NewWindow(3, 3, 100, 100, "C", f, 3);
    var s0 := State([], 1);
    var s1, s2 := State([a], 2), State([SetFocus(a, false), b], 3);
    var s3 := State([SetFocus(a, false), SetFocus(b, false), c], 4);
    var s4 := State([SetFocus(a, false), b, SetFocus(SetMinimized(c, true), false)], 4);
    var s5 := State([SetFocus(a, false), SetMinimized(c, true)], 4);
    assert Step(s0, ops[0]) == s1 && Step(s1, ops[1]) == s2 && Step(s2, ops[2]) == s3 by { ThreeOpened(f); }
    assert Step(s3, ops[3]) == s4 by { LastMinimized(SetFocus(a, false), SetFocus(b, false), c); }
    assert Step(s4, ops[4]) == s5 by {
      SecondDestroyed(SetFocus(a, false), b, SetFocus(SetMinimized(c, true), false));
    }
    RunFive(s0, ops);
    NobodyFocused(SetFocus(a, false), SetMinimized(c, true));
  }

  lemma ThreeOpened(f: Flags)
    ensures var a, b := NewWindow(1, 1, 100, 100, "A", f, 1), NewWindow(2, 2, 100, 100, "B", f, 2);
            var c, ops := NewWindow(3, 3, 100, 100, "C", f, 3), LostFocus(f);
            var s1, s2 := State([a], 2), State([SetFocus(a, false), b], 3);
            && Step(State([], 1), ops[0]) == s1 && Step(s1, ops[1]) == s2
            && Step(s2, ops[2]) == State([SetFocus(a, false), SetFocus(b, false), c], 4)
  {
    hide NewWindow;
  }

  lemma LastMinimized(a: Window, b: Window, c: Window)
    requires a.id == 1 && b.id == 2 && c.id == 3 && Visible(a) && Visible(b) && Visible(c)
    ensures Step(State([a, b, c], 4), Minimize(3)) ==
            State([a, SetFocus(b, true), SetFocus(SetMinimized(c, true), false)], 4)
  {
    var ws := [a, b, c];
    FindById(ws, 2);
    var ms := ws[2 := SetFocus(SetMinimized(c, true), false)];
    TopVisibleIs(ms, 1);
  }

  lemma SecondDestroyed(a: Window, b: Window, c: Window)
    requires a.id == 1 && b.id == 2 && c.id == 3
    ensures Step(State([a, b, c], 4), Destroy(2)) == State([a, SetFocus(c, true)], 4)
  {
    FindById([a, b, c], 1);
  }

  lemma RunFive(s: State, ops: seq<Op>)
    requires |ops| == 5
    ensures Run(s, ops) == Step(Step(Step(Step(Step(s, ops[0]), ops[1]), ops[2]), ops[3]), ops[4])
  {
    hide Step;
    var o1 := ops[1..];
    var o2 := o1[1..];
    var o3 := o2[1..];
    var o4 := o3[1..];
    var s2 := Step(Step(s, ops[0]), ops[1]);
    var s4 := Step(Step(s2, ops[2]), ops[3]);
    assert Run(s, ops) == Run(Step(s, ops[0]), o1) == Run(s2, o2);
    assert Run(s2, o2) == Run(Step(s2, ops[2]), o3) == Run(s4, o4);
    assert o4 == [ops[4]] && o4[1..] == [];
    assert Run(s4, o4) == Step(s4, ops[4]);
  }

  lemma NobodyFocused(a: Window, c: Window)
    requires Visible(a) && !a.flags.focused && !Visible(c)
    ensures !Attended([a, c]) && FocusedOwner([a, c]) == -1
  {
    TopVisibleIs([a, c], 0);
    NoFocus([a, c]);
  }
}
