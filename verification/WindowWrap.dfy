/** Runs in which the counter of window identifiers (fb.c) comes back to a live identifier or to zero. */
module WindowWrap {
  import opened Options
  import opened WindowOrder

  function First(f: Flags): Op { Create(1, 100, 100, "A", f, Some(1)) }

  function Next(f: Flags): Op { Create(2, 100, 100, "B", f, Some(2)) }

  /** Open a window and destroy it, `n` times; the counter shows `id` at first. */
  function Churn(f: Flags, id: nat, n: nat): seq<Op>
    decreases n
  {
    if n == 0 then [] else [Next(f), Destroy(id)] + Churn(f, (id + 1) % U32, n - 1)
  }

  /** The counter does not show `id` while it advances `n` times from `next`. */
  ghost predicate Misses(next: nat, n: nat, id: nat)
    decreases n
  {
    n > 0 ==> next != id && Misses((next + 1) % U32, n - 1, id)
  }

  /** The same windows, apart from their focus. */
  ghost predicate Same(ts: seq<Window>, ws: seq<Window>) {
    |ts| == |ws| && forall i | 0 <= i < |ws| :: ts[i].id == ws[i].id && ts[i].owner == ws[i].owner
  }

  lemma {:induction false} MissesBelow(next: nat, n: nat, id: nat)
    requires next + n <= id < U32
    ensures Misses(next, n, id)
    decreases n
  {
    if n > 0 { MissesBelow(next + 1, n - 1, id); }
  }

  /** Starting above an identifier the counter misses it until it has gone all the way round. */
  lemma {:induction false} MissesAround(next: nat, n: nat, id: nat)
    requires id < next < U32 && next + n <= U32 + id
    ensures Misses(next, n, id)
    decreases n
  {
    if n > 0 {
      if next + 1 < U32 {
        MissesAround(next + 1, n - 1, id);
      } else {
        MissesBelow(0, n - 1, id);
      }
    }
  }

  lemma {:induction false} RunConcat(s: State, a: seq<Op>, b: seq<Op>)
    ensures Run(s, a + b) == Run(Run(s, a), b)
    decreases |a|
  {
    hide Step;
    if |a| == 0 {
      assert a + b == b;
    } else {
      assert (a + b)[1..] == a[1..] + b;
      RunConcat(Step(s, a[0]), a[1..], b);
    }
  }

  lemma RunOne(s: State, op: Op)
    ensures Run(s, [op]) == Step(s, op)
  {
    hide Step;
    assert [op][1..] == [];
  }

  lemma RunTwo(s: State, a: Op, b: Op)
    ensures Run(s, [a, b]) == Step(Step(s, a), b)
  {
    hide Step;
    assert [a, b] == [a] + [b];
    RunConcat(s, [a], [b]);
    RunOne(s, a);
    RunOne(Step(s, a), b);
  }

  lemma OneChurn(s: State, f: Flags)
    requires |s.ws| < MAX_WINDOWS && !Clash(s)
    ensures var t := Step(Step(s, Next(f)), Destroy(s.next)); Same(t.ws, s.ws) && t.next == (s.next + 1) % U32
  {
    hide Step, Destroyed;
    OpenedIds(s, Next(f));
    var t := Step(s, Next(f));
    var k := |s.ws|;
    FoundLast(t.ws, s);
    Removed(t, k);
    forall i | 0 <= i < k
      ensures Destroyed(t.ws, k)[i].id == s.ws[i].id && Destroyed(t.ws, k)[i].owner == s.ws[i].owner
    {
      DestroyedAt(t.ws, k, i);
    }
  }

  lemma FoundLast(ts: seq<Window>, s: State)
    requires !Clash(s) && |ts| == |s.ws| + 1 && ts[|s.ws|].id == s.next
    requires forall i | 0 <= i < |s.ws| :: ts[i].id == s.ws[i].id
    ensures Find(ts, s.next) == |s.ws|
  {
    forall i | 0 <= i < |s.ws|
      ensures ts[i].id != s.next
    {
      assert s.ws[i] in s.ws;
    }
    assert Find(ts, s.next) >= |s.ws|;
  }

  lemma Removed(t: State, k: nat)
    requires k < |t.ws| && Find(t.ws, t.ws[k].id) == k
    ensures Step(t, Destroy(t.ws[k].id)) == t.(ws := Destroyed(t.ws, k)) && |Destroyed(t.ws, k)| == |t.ws| - 1
  {
    hide Find;
  }

  /** As long as the counter misses all live identifiers nothing but the counter has changed in the end. */
  lemma {:induction false} Churned(s: State, f: Flags, n: nat)
    requires |s.ws| < MAX_WINDOWS && s.next < U32 && forall i | 0 <= i < |s.ws| :: Misses(s.next, n, s.ws[i].id)
    ensures var t := Run(s, Churn(f, s.next, n)); Same(t.ws, s.ws) && t.next == (s.next + n) % U32
    decreases n
  {
    hide Step, Run, Next, Clash, Churn, Misses;
    if n == 0 {
      NoChurn(s, f);
    } else {
      NotLive(s, n);
      OneChurn(s, f);
      var t := Step(Step(s, Next(f)), Destroy(s.next));
      StillMissed(s, t, n);
      Churned(t, f, n - 1);
      ChurnIs(s, f, n);
      Advanced(s.next, n);
    }
  }

  lemma NoChurn(s: State, f: Flags)
    ensures Run(s, Churn(f, s.next, 0)) == s
  {
  }

  lemma ChurnIs(s: State, f: Flags, n: nat)
    requires n > 0
    ensures Run(s, Churn(f, s.next, n)) ==
            Run(Step(Step(s, Next(f)), Destroy(s.next)), Churn(f, (s.next + 1) % U32, n - 1))
  {
    hide Step, Run, Next;
    RunTwo(s, Next(f), Destroy(s.next));
    RunConcat(s, [Next(f), Destroy(s.next)], Churn(f, (s.next + 1) % U32, n - 1));
  }

  lemma Advanced(next: nat, n: nat)
    requires n > 0 && next < U32
    ensures ((next + 1) % U32 + (n - 1)) % U32 == (next + n) % U32
  {
  }

  lemma StillMissed(s: State, t: State, n: nat)
    requires n > 0 && Same(t.ws, s.ws) && t.next == (s.next + 1) % U32
    requires forall i | 0 <= i < |s.ws| :: Misses(s.next, n, s.ws[i].id)
    ensures forall i | 0 <= i < |t.ws| :: Misses(t.next, n - 1, t.ws[i].id)
  {
    forall i | 0 <= i < |t.ws|
      ensures Misses(t.next, n - 1, t.ws[i].id)
    {
      assert Misses(s.next, n, s.ws[i].id);
    }
  }

  lemma NotLive(s: State, n: nat)
    requires n > 0 && forall i | 0 <= i < |s.ws| :: Misses(s.next, n, s.ws[i].id)
    ensures !Clash(s)
  {
    forall w | w in s.ws
      ensures w.id != s.next
    {
      var i :| 0 <= i < |s.ws| && s.ws[i] == w;
      assert Misses(s.next, n, s.ws[i].id);
    }
  }

  /** One window stays open while 2^32 - 1 others come and go: then the next one gets its identifier. */
  lemma ClashRun(f: Flags, n: nat)
    requires n == U32 - 1
    ensures var s := Run(State([], 1), [First(f)] + Churn(f, 2, n));
            && Inv(s) && Clash(s) && Opens(s, Next(f))
            && var t := Step(s, Next(f)); |t.ws| == 2 && t.ws[0].id == t.ws[1].id == 1 && t.ws[0].owner != t.ws[1].owner
  {
    hide Step, Run, Churn, NewWindow;
    var s0 := State([], 1);
    OpenedIds(s0, First(f));
    var s1 := Step(s0, First(f));
    MissesAround(2, n, 1);
    Churned(s1, f, n);
    RunOne(s0, First(f));
    RunConcat(s0, [First(f)], Churn(f, 2, n));
    var s := Run(s1, Churn(f, 2, n));
    assert s.ws[0] in s.ws;
    OpenedIds(s, Next(f));
  }

  /** After 2^32 - 1 windows have come and gone the next one gets the identifier zero, and outlives its thread. */
  lemma ZeroRun(f: Flags, n: nat)
    requires n == U32 - 1
    ensures var s := Step(Run(State([], 1), Churn(f, 1, n)), First(f));
            && Inv(s) && |s.ws| == 1 && s.ws[0].id == 0 && s.ws[0].owner == 1
            && Step(s, DestroyThread(1)) == s
  {
    hide Step, Run, Churn, NewWindow;
    var s0 := State([], 1);
    Churned(s0, f, n);
    var t := Run(s0, Churn(f, 1, n));
    OpenedIds(t, First(f));
    ZeroKept(Step(t, First(f)));
  }

  lemma ZeroKept(s: State)
    requires |s.ws| == 1 && s.ws[0].id == 0 && s.ws[0].owner == 1
    ensures Step(s, DestroyThread(1)) == s
  {
    var k := TopOf(s.ws, 1);
  }
}
