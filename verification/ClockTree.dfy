/** The clock tree as a value: reference counts, current parents, and what enabling and disabling a
    clock does to the counts and, gate by gate, to the hardware. */
module ClockTree {

  // One entry of a root clock's frequency table.
  datatype Freq = Freq(hz: nat, src: Clock?)

  /** A clock. Parents are always of lower rank, which is what makes the tree acyclic: a plain clock has
      a fixed parent, a root clock the source of its current frequency. */
  class Clock {
    const rank: nat
    const fixedParent: Clock?
    const freqTbl: seq<Freq>
    var current: int  // the frequency in force; -1 before one is set
    var count: nat
    var enabled: bool  // a local root clock that has been enabled once

    constructor (rank: nat, fixedParent: Clock?, freqTbl: seq<Freq>)
      ensures this.rank == rank && this.fixedParent == fixedParent && this.freqTbl == freqTbl
      ensures current == -1 && count == 0 && !enabled
    {
      this.rank, this.fixedParent, this.freqTbl := rank, fixedParent, freqTbl;
      current, count, enabled := -1, 0, false;
    }

    function GetParent(): Clock?
      reads this
    {
      if freqTbl == [] then fixedParent
      else if 0 <= current < |freqTbl| then freqTbl[current].src
      else null
    }
  }

  type Counts = map<Clock, nat>

  datatype Tree = Tree(count: Counts, parent: map<Clock, Clock?>)

  ghost predicate Wf(t: Tree) {
    t.count.Keys == t.parent.Keys && forall c | c in t.parent :: Below(t, t.parent[c], c.rank)
  }

  /** c is no clock, or a clock of the tree of rank less than r. */
  ghost predicate Below(t: Tree, c: Clock?, r: int) {
    c != null ==> c in t.count && c.rank < r
  }

  function Height(c: Clock?): nat { if c == null then 0 else c.rank + 1 }

  // A gate switched on or off in hardware.
  datatype Event = On(c: Clock) | Off(c: Clock)

  datatype Outcome = Outcome(ok: bool, count: Counts, events: seq<Event>)

  /** Release c: at the last release its gate goes off, then its parent is released. */
  ghost function Disable(t: Tree, c: Clock?): (r: Outcome)
    requires Wf(t) && (c == null || c in t.count)
    ensures r.ok && r.count.Keys == t.count.Keys
    ensures forall k | k in t.count && k.rank >= Height(c) :: r.count[k] == t.count[k]
    decreases Height(c)
  {
    if c == null || t.count[c] == 0 then Outcome(true, t.count, [])
    else if t.count[c] == 1 then
      assert Below(t, t.parent[c], c.rank);
      var p := Disable(t, t.parent[c]);
      Outcome(true, p.count[c := 0], [Off(c)] + p.events)
    else Outcome(true, t.count[c := t.count[c] - 1], [])
  }

  /** Acquire c: at the first acquisition its parent is acquired, then its gate goes on; a gate in bad
      refuses, and the parent is released again. */
  ghost function Enable(t: Tree, c: Clock?, bad: set<Clock>): (r: Outcome)
    requires Wf(t) && (c == null || c in t.count)
    ensures r.count.Keys == t.count.Keys
    ensures forall k | k in t.count && k.rank >= Height(c) :: r.count[k] == t.count[k]
    decreases Height(c)
  {
    if c == null then Outcome(true, t.count, [])
    else if t.count[c] > 0 then Outcome(true, t.count[c := t.count[c] + 1], [])
    else
      assert Below(t, t.parent[c], c.rank);
      var p := Enable(t, t.parent[c], bad);
      if !p.ok then p
      else if c in bad then
        assert Wf(t.(count := p.count)) by { WfCounts(t, p.count); }
        var d := Disable(t.(count := p.count), t.parent[c]);
        Outcome(false, d.count, p.events + d.events)
      else Outcome(true, p.count[c := 1], p.events + [On(c)])
  }

  lemma WfCounts(t: Tree, count: Counts)
    requires Wf(t) && count.Keys == t.count.Keys
    ensures Wf(t.(count := count))
  {
    forall c | c in t.parent
      ensures Below(t.(count := count), t.parent[c], c.rank)
    {
      assert Below(t, t.parent[c], c.rank);
    }
  }

  lemma BelowParent(t: Tree, c: Clock)
    requires Wf(t) && c in t.count
    ensures c in t.parent && Below(t, t.parent[c], c.rank)
  {
  }

  lemma EnableFirst(t: Tree, c: Clock, bad: set<Clock>)
    requires Wf(t) && c in t.count && t.count[c] == 0 && Below(t, t.parent[c], c.rank)
    ensures var p := Enable(t, t.parent[c], bad);
      && Wf(t.(count := p.count))
      && Enable(t, c, bad) ==
           if !p.ok then p
           else if c in bad then
             var d := Disable(t.(count := p.count), t.parent[c]);
             Outcome(false, d.count, p.events + d.events)
           else Outcome(true, p.count[c := 1], p.events + [On(c)])
  {
    WfCounts(t, Enable(t, t.parent[c], bad).count);
  }

  lemma DisableLast(t: Tree, c: Clock)
    requires Wf(t) && c in t.count && t.count[c] == 1 && Below(t, t.parent[c], c.rank)
    ensures var p := Disable(t, t.parent[c]);
      Disable(t, c) == Outcome(true, p.count[c := 0], [Off(c)] + p.events)
  {
  }

  // ----- a failing enable changes nothing -----

  /** Releasing what was just acquired restores every count. */
  lemma {:induction false} EnableDisable(t: Tree, c: Clock?, bad: set<Clock>)
    requires Wf(t) && (c == null || c in t.count) && Enable(t, c, bad).ok
    ensures Wf(t.(count := Enable(t, c, bad).count))
    ensures Disable(t.(count := Enable(t, c, bad).count), c).count == t.count
    decreases Height(c)
  {
    hide Wf;
    WfCounts(t, Enable(t, c, bad).count);
    if c != null && t.count[c] == 0 {
      BelowParent(t, c);
      var parent := t.parent[c];
      var p := Enable(t, parent, bad);
      EnableDisable(t, parent, bad);
      DisableApart(t.(count := p.count), parent, c, 1);
      assert p.count[c := 1] == Enable(t, c, bad).count;
    }
  }

  /** Releasing a clock neither reads nor writes the count of a higher one. */
  lemma {:induction false} DisableApart(t: Tree, c: Clock?, k: Clock, v: nat)
    requires Wf(t) && (c == null || c in t.count) && k in t.count && k.rank >= Height(c)
    ensures Wf(t.(count := t.count[k := v]))
    ensures Disable(t.(count := t.count[k := v]), c).count == Disable(t, c).count[k := v]
    ensures Disable(t.(count := t.count[k := v]), c).events == Disable(t, c).events
    decreases Height(c)
  {
    hide Wf;
    WfCounts(t, t.count[k := v]);
    if c != null && t.count[c] == 1 {
      BelowParent(t, c);
      DisableApart(t, t.parent[c], k, v);
    }
  }

  /** A failing enable leaves every count as it was. */
  lemma {:induction false} EnableFails(t: Tree, c: Clock?, bad: set<Clock>)
    requires Wf(t) && (c == null || c in t.count) && !Enable(t, c, bad).ok
    ensures Enable(t, c, bad).count == t.count
    ensures c != null && t.count[c] == 0
    decreases Height(c)
  {
    var parent := t.parent[c];
    assert Below(t, parent, c.rank);
    if Enable(t, parent, bad).ok {
      EnableDisable(t, parent, bad);
    } else {
      EnableFails(t, parent, bad);
    }
  }

  // ----- counts are holds plus running children -----

  type Holds = map<Clock, nat>

  ghost predicate Runs(t: Tree, c: Clock) { c in t.count && t.count[c] > 0 }

  ghost function Children(t: Tree, c: Clock): set<Clock>
    requires Wf(t)
  {
    set k | k in t.count && t.count[k] > 0 && t.parent[k] == c
  }

  /** Every count covers the direct holds on the clock and its running children; exact says there is no more to it. */
  ghost predicate Balanced(t: Tree, holds: Holds, exact: bool) {
    && Wf(t) && holds.Keys == t.count.Keys
    && forall c | c in t.count :: Covers(t, holds, c, exact)
  }

  ghost predicate Covers(t: Tree, holds: Holds, c: Clock, exact: bool)
    requires Wf(t) && c in holds && c in t.count
  {
    var load := holds[c] + |Children(t, c)|;
    t.count[c] >= load && (exact ==> t.count[c] == load)
  }

  ghost function Plus(holds: Holds, c: Clock?): (h: Holds)
    requires c == null || c in holds
    ensures h.Keys == holds.Keys
  {
    if c == null then holds else holds[c := holds[c] + 1]
  }

  ghost function Minus(holds: Holds, c: Clock): (h: Holds)
    requires c in holds && holds[c] > 0
    ensures h.Keys == holds.Keys
  {
    holds[c := holds[c] - 1]
  }

  /** A running clock's parent runs. */
  lemma ParentRuns(t: Tree, holds: Holds, c: Clock, exact: bool)
    requires Balanced(t, holds, exact) && Runs(t, c)
    ensures t.parent[c] != null ==> Runs(t, t.parent[c])
  {
    var p := t.parent[c];
    if p != null {
      assert Below(t, p, c.rank);
      assert Covers(t, holds, p, exact) && c in Children(t, p);
    }
  }

  lemma ChildrenAfter(t: Tree, c: Clock, v: nat, k: Clock)
    requires Wf(t) && Wf(t.(count := t.count[c := v])) && c in t.count
    ensures Children(t.(count := t.count[c := v]), k) ==
      if v > 0 && t.parent[c] == k then Children(t, k) + {c} else Children(t, k) - {c}
    ensures c in Children(t, k) <==> t.count[c] > 0 && t.parent[c] == k
    ensures c !in Children(t, k) ==> Children(t, k) - {c} == Children(t, k)
    ensures c in Children(t, k) ==> Children(t, k) + {c} == Children(t, k)
  {
    hide Wf;
  }

  /** A hold on the parent becomes a running child of it, with one hold on the child. */
  lemma StartChild(t: Tree, holds: Holds, c: Clock, exact: bool)
    requires Wf(t) && c in t.count && holds.Keys == t.count.Keys && t.count[c] == 0
    requires (t.parent[c] != null ==> t.parent[c] in holds) && Balanced(t, Plus(holds, t.parent[c]), exact)
    ensures Balanced(t.(count := t.count[c := 1]), Plus(holds, c), exact)
  {
    var p := t.parent[c];
    var t' := t.(count := t.count[c := 1]);
    WfCounts(t, t'.count);
    assert Below(t, p, c.rank);
    hide Wf;
    forall k | k in t.count
      ensures Covers(t', Plus(holds, c), k, exact)
    {
      assert Covers(t, Plus(holds, p), k, exact);
      StartCovers(t, holds, c, exact, k);
    }
  }

  lemma StartCovers(t: Tree, holds: Holds, c: Clock, exact: bool, k: Clock)
    requires Wf(t) && Wf(t.(count := t.count[c := 1])) && c in t.count && holds.Keys == t.count.Keys && t.count[c] == 0
    requires t.parent[c] != null ==> t.parent[c] in holds && t.parent[c] != c
    requires k in t.count && Covers(t, Plus(holds, t.parent[c]), k, exact)
    ensures Covers(t.(count := t.count[c := 1]), Plus(holds, c), k, exact)
  {
    hide Wf;
    ChildrenAfter(t, c, 1, k);
  }

  /** The last release of a clock turns it from a running child into a hold on its parent. */
  lemma StopChild(t: Tree, holds: Holds, c: Clock, exact: bool)
    requires Balanced(t, holds, exact) && c in t.count && t.count[c] == 1 && holds[c] > 0
    requires t.parent[c] != null ==> t.parent[c] in holds
    ensures Balanced(t.(count := t.count[c := 0]), Plus(Minus(holds, c), t.parent[c]), exact)
  {
    var p := t.parent[c];
    var t' := t.(count := t.count[c := 0]);
    WfCounts(t, t'.count);
    assert Below(t, p, c.rank);
    hide Wf;
    forall k | k in t.count
      ensures Covers(t', Plus(Minus(holds, c), p), k, exact)
    {
      assert Covers(t, holds, k, exact);
      ChildrenAfter(t, c, 0, k);
    }
  }

  /** A successful enable adds one hold and nothing else to the balance. */
  lemma {:induction false} EnableKeeps(t: Tree, holds: Holds, c: Clock?, bad: set<Clock>, exact: bool)
    requires Balanced(t, holds, exact) && (c == null || c in t.count) && Enable(t, c, bad).ok
    ensures Balanced(t.(count := Enable(t, c, bad).count), Plus(holds, c), exact)
    decreases Height(c)
  {
    hide Balanced;
    if c != null { BalancedFacts(t, holds, c, exact); }
    if c == null {
    } else if t.count[c] > 0 {
      Recount(t, holds, c, t.count[c] + 1, exact);
    } else {
      var parent := t.parent[c];
      assert Below(t, parent, c.rank);
      EnableKeeps(t, holds, parent, bad, exact);
      StartChild(t.(count := Enable(t, parent, bad).count), holds, c, exact);
    }
  }

  /** Changing a positive count to another moves the hold along with it. */
  lemma Recount(t: Tree, holds: Holds, c: Clock, v: nat, exact: bool)
    requires Balanced(t, holds, exact) && c in t.count && t.count[c] > 0 && v > 0
    requires holds[c] + v >= t.count[c]
    ensures Balanced(t.(count := t.count[c := v]), holds[c := holds[c] + v - t.count[c]], exact)
  {
    var t' := t.(count := t.count[c := v]);
    WfCounts(t, t'.count);
    hide Wf;
    forall k | k in t.count
      ensures Covers(t', holds[c := holds[c] + v - t.count[c]], k, exact)
    {
      assert Covers(t, holds, k, exact);
      ChildrenAfter(t, c, v, k);
    }
  }

  /** A disable that gives back a hold keeps the balance. */
  lemma {:induction false} DisableKeeps(t: Tree, holds: Holds, c: Clock?, exact: bool)
    requires Balanced(t, holds, exact) && (c == null || (c in t.count && holds[c] > 0))
    ensures c == null ==> Disable(t, c).count == t.count
    ensures c != null ==> Balanced(t.(count := Disable(t, c).count), Minus(holds, c), exact)
    decreases Height(c)
  {
    hide Balanced;
    if c != null {
      BalancedFacts(t, holds, c, exact);
      if t.count[c] == 1 {
        var parent := t.parent[c];
        var stopped := t.(count := t.count[c := 0]);
        StopChild(t, holds, c, exact);
        DisableKeeps(stopped, Plus(Minus(holds, c), parent), parent, exact);
        DisableApart(t, parent, c, 0);
        if parent != null {
          assert Minus(Plus(Minus(holds, c), parent), parent) == Minus(holds, c);
        }
      } else {
        Recount(t, holds, c, t.count[c] - 1, exact);
      }
    }
  }

  // ----- gates -----

  ghost function Running(t: Tree): set<Clock> { set c | c in t.count && t.count[c] > 0 }

  function Flip(on: set<Clock>, e: Event): set<Clock> {
    match e case On(c) => on + {c} case Off(c) => on - {c}
  }

  function Replay(on: set<Clock>, events: seq<Event>): set<Clock>
    decreases |events|
  {
    if events == [] then on else Replay(Flip(on, events[0]), events[1..])
  }

  /** Every gate that is on has its parent's gate on. */
  ghost predicate Fed(on: set<Clock>, parent: map<Clock, Clock?>) {
    forall c | c in on && c in parent :: parent[c] == null || parent[c] in on
  }

  /** So it is now and after every one of the events. */
  ghost predicate FedThroughout(on: set<Clock>, events: seq<Event>, parent: map<Clock, Clock?>)
    decreases |events|
  {
    Fed(on, parent) && (events == [] || FedThroughout(Flip(on, events[0]), events[1..], parent))
  }

  lemma {:induction false} FedConcat(on: set<Clock>, a: seq<Event>, b: seq<Event>, parent: map<Clock, Clock?>)
    ensures Replay(on, a + b) == Replay(Replay(on, a), b)
    ensures FedThroughout(on, a + b, parent)
      <==> FedThroughout(on, a, parent) && FedThroughout(Replay(on, a), b, parent)
    decreases |a|
  {
    if a == [] {
      assert a + b == b;
      if b != [] { }
    } else {
      assert (a + b)[1..] == a[1..] + b;
      FedConcat(Flip(on, a[0]), a[1..], b, parent);
    }
  }

  lemma FedCons(on: set<Clock>, e: Event, rest: seq<Event>, parent: map<Clock, Clock?>)
    ensures Replay(on, [e] + rest) == Replay(Flip(on, e), rest)
    ensures FedThroughout(on, [e] + rest, parent) <==> Fed(on, parent) && FedThroughout(Flip(on, e), rest, parent)
  {
    assert ([e] + rest)[1..] == rest;
  }

  lemma RunningSet(t: Tree, c: Clock, v: nat)
    requires c in t.count
    ensures Running(t.(count := t.count[c := v])) == if v > 0 then Running(t) + {c} else Running(t) - {c}
    ensures c in Running(t) <==> t.count[c] > 0
  {
  }

  lemma BalancedFacts(t: Tree, holds: Holds, c: Clock, exact: bool)
    requires Balanced(t, holds, exact) && c in t.count
    ensures Wf(t) && holds.Keys == t.count.Keys && holds[c] <= t.count[c] && Below(t, t.parent[c], c.rank)
  {
    assert Covers(t, holds, c, exact);
  }

  lemma RunningFed(t: Tree, holds: Holds, exact: bool)
    requires Balanced(t, holds, exact)
    ensures Fed(Running(t), t.parent)
  {
    forall c | c in Running(t) && c in t.parent
      ensures t.parent[c] == null || t.parent[c] in Running(t)
    {
      ParentRuns(t, holds, c, exact);
    }
  }

  /** At every step of a disable, each gate that is on has its parent on; afterwards the gates on are those of
      the running clocks. */
  lemma {:induction false} DisableFed(t: Tree, holds: Holds, c: Clock?, exact: bool)
    requires Balanced(t, holds, exact) && (c == null || (c in t.count && holds[c] > 0))
    ensures var r := Disable(t, c);
      FedThroughout(Running(t), r.events, t.parent) && Replay(Running(t), r.events) == Running(t.(count := r.count))
    decreases Height(c)
  {
    hide Balanced, Running, Fed, FedThroughout, Replay;
    RunningFed(t, holds, exact);
    StillFed(Running(t), t.parent);
    if c != null {
      BalancedFacts(t, holds, c, exact);
      if t.count[c] == 1 {
        var parent := t.parent[c];
        var stopped := t.(count := t.count[c := 0]);
        StopChild(t, holds, c, exact);
        DisableApart(t, parent, c, 0);
        DisableFed(stopped, Plus(Minus(holds, c), parent), parent, exact);
        RunningSet(t, c, 0);
        FedCons(Running(t), Off(c), Disable(t, parent).events, t.parent);
      } else {
        RunningSet(t, c, t.count[c] - 1);
        assert Running(t) + {c} == Running(t);
      }
    }
  }

  lemma StillFed(on: set<Clock>, parent: map<Clock, Clock?>)
    ensures Replay(on, []) == on && (FedThroughout(on, [], parent) <==> Fed(on, parent))
  {
  }

  /** The same for an enable, whether it succeeds or fails. */
  lemma {:induction false} EnableFed(t: Tree, holds: Holds, c: Clock?, bad: set<Clock>, exact: bool)
    requires Balanced(t, holds, exact) && (c == null || c in t.count)
    ensures var r := Enable(t, c, bad);
      FedThroughout(Running(t), r.events, t.parent) && Replay(Running(t), r.events) == Running(t.(count := r.count))
    decreases Height(c)
  {
    hide Balanced, Running, Fed, FedThroughout, Replay;
    RunningFed(t, holds, exact);
    StillFed(Running(t), t.parent);
    if c != null {
      BalancedFacts(t, holds, c, exact);
      if t.count[c] == 0 {
        var parent := t.parent[c];
        EnableFed(t, holds, parent, bad, exact);
        var p := Enable(t, parent, bad);
        if p.ok {
          var t1 := t.(count := p.count);
          EnableKeeps(t, holds, parent, bad, exact);
          if c in bad {
            PlusHolds(t1, Plus(holds, parent), parent, exact);
            DisableFed(t1, Plus(holds, parent), parent, exact);
            FedConcat(Running(t), p.events, Disable(t1, parent).events, t.parent);
          } else {
            StartChild(t1, holds, c, exact);
            var t2 := t1.(count := p.count[c := 1]);
            RunningFed(t2, Plus(holds, c), exact);
            RunningSet(t1, c, 1);
            RunningFed(t1, Plus(holds, parent), exact);
            StillFed(Running(t2), t.parent);
            FedCons(Running(t1), On(c), [], t.parent);
            assert [On(c)] + [] == [On(c)];
            FedConcat(Running(t), p.events, [On(c)], t.parent);
          }
        }
      } else {
        RunningSet(t, c, t.count[c] + 1);
        assert Running(t) + {c} == Running(t);
      }
    }
  }

  lemma PlusHolds(t: Tree, holds: Holds, c: Clock?, exact: bool)
    requires Balanced(t, holds, exact)
    ensures c != null && c in holds ==> c in t.count
  {
  }

  // ----- moving a root clock to another source -----

  ghost function Moved(t: Tree, c: Clock, src: Clock?): (r: Tree)
    ensures r.count == t.count
  {
    t.(parent := t.parent[c := src])
  }

  lemma WfMoved(t: Tree, c: Clock, src: Clock?)
    requires Wf(t) && c in t.count && Below(t, src, c.rank)
    ensures Wf(Moved(t, c, src))
  {
    forall k | k in t.parent
      ensures Below(t, t.parent[k], k.rank)
    {
    }
  }

  lemma {:induction false} SubsetSize(a: set<Clock>, b: set<Clock>)
    requires a <= b
    ensures |a| <= |b|
  {
    if a != {} {
      var x :| x in a;
      SubsetSize(a - {x}, b - {x});
    }
  }

  lemma ChildrenMoved(t: Tree, c: Clock, src: Clock?, k: Clock)
    requires Wf(t) && Wf(Moved(t, c, src)) && c in t.count
    ensures Children(Moved(t, c, src), k) ==
      if Runs(t, c) && k == src then Children(t, k) + {c} else Children(t, k) - {c}
    ensures c in Children(t, k) <==> Runs(t, c) && t.parent[c] == k
  {
    hide Wf;
  }

  /** A rate change whose source was acquired keeps every count at least at its load; the old source keeps
      the hold it had. */
  lemma RateKeeps(t: Tree, holds: Holds, c: Clock, src: Clock?, bad: set<Clock>)
    requires Balanced(t, holds, false) && c in t.count && Below(t, src, c.rank) && Enable(t, src, bad).ok
    ensures Balanced(Moved(t.(count := Enable(t, src, bad).count), c, src), holds, false)
  {
    EnableKeeps(t, holds, src, bad, false);
    var t1 := t.(count := Enable(t, src, bad).count);
    var t2 := Moved(t1, c, src);
    WfMoved(t1, c, src);
    hide Wf;
    forall k | k in t2.count
      ensures Covers(t2, holds, k, false)
    {
      assert Covers(t1, Plus(holds, src), k, false);
      ChildrenMoved(t1, c, src, k);
      SubsetSize(Children(t1, k) - {c}, Children(t1, k));
    }
  }

  /** Moving a clock that does not run needs no acquisition. */
  lemma IdleRateKeeps(t: Tree, holds: Holds, c: Clock, src: Clock?, exact: bool)
    requires Balanced(t, holds, exact) && c in t.count && Below(t, src, c.rank) && !Runs(t, c)
    ensures Balanced(Moved(t, c, src), holds, exact)
  {
    var t2 := Moved(t, c, src);
    WfMoved(t, c, src);
    hide Wf;
    forall k | k in t2.count
      ensures Covers(t2, holds, k, exact)
    {
      assert Covers(t, holds, k, exact);
      ChildrenMoved(t, c, src, k);
      assert Children(t, k) - {c} == Children(t, k);
    }
  }

  /** Why the balance is only an inequality once rates change: a running clock that leaves its source
      leaves one acquisition behind. */
  lemma OldSourceKept(t: Tree, holds: Holds, c: Clock, src: Clock?, bad: set<Clock>)
    requires Balanced(t, holds, true) && c in t.count && Below(t, src, c.rank) && Enable(t, src, bad).ok
    requires Runs(t, c) && t.parent[c] != null && t.parent[c] != src
    ensures var t' := Moved(t.(count := Enable(t, src, bad).count), c, src); var p := t.parent[c];
      Wf(t') && p in t'.count && t'.count[p] == holds[p] + |Children(t', p)| + 1
  {
    EnableKeeps(t, holds, src, bad, true);
    var t1 := t.(count := Enable(t, src, bad).count);
    var p := t.parent[c];
    assert Below(t, p, c.rank);
    WfMoved(t1, c, src);
    EnableStillRuns(t, src, bad, c);
    hide Wf;
    ChildrenMoved(t1, c, src, p);
    assert Covers(t1, Plus(holds, src), p, true);
  }

  lemma {:induction false} EnableStillRuns(t: Tree, c: Clock?, bad: set<Clock>, k: Clock)
    requires Wf(t) && (c == null || c in t.count) && Enable(t, c, bad).ok && Runs(t, k)
    ensures Runs(t.(count := Enable(t, c, bad).count), k)
    decreases Height(c)
  {
    if c != null && t.count[c] == 0 {
      assert Below(t, t.parent[c], c.rank);
      EnableStillRuns(t, t.parent[c], bad, k);
    }
  }

  /** A rate change that goes on although its source could not be acquired leaves every running clock on a
      running parent exactly when the clock it moved does not run. */
  lemma RateOnRefusedSource(t: Tree, holds: Holds, c: Clock, src: Clock?, bad: set<Clock>)
    requires Balanced(t, holds, false) && c in t.count && Below(t, src, c.rank) && !Enable(t, src, bad).ok
    ensures Fed(Running(t), Moved(t, c, src).parent) <==> !Runs(t, c)
  {
    EnableFails(t, src, bad);
    RunningFed(t, holds, false);
    if !Runs(t, c) {
      assert c !in Running(t);
    } else {
      assert c in Running(t) && Moved(t, c, src).parent[c] == src && src !in Running(t);
    }
  }

  // ----- runs -----

  datatype Op = Acquire(c: Clock, bad: set<Clock>) | Release(c: Clock)
              | Retune(c: Clock, src: Clock?, bad: set<Clock>) | IdleRetune(c: Clock, src: Clock?)
              | RefusedRetune(c: Clock, src: Clock?, bad: set<Clock>)

  // The tree and the direct holds callers have.
  datatype System = System(tree: Tree, holds: Holds)

  /** Callers release only what they hold; a rate change stays within the ranks, and its source is acquired unless the
      clock does not run; a local clock whose source refuses stays where it is. */
  ghost predicate Allowed(s: System, op: Op) {
    Wf(s.tree) && s.holds.Keys == s.tree.count.Keys && op.c in s.tree.count &&
    match op
    case Acquire(_, _) => true
    case Release(c) => s.holds[c] > 0
    case Retune(c, src, bad) => Below(s.tree, src, c.rank) && Enable(s.tree, src, bad).ok
    case IdleRetune(c, src) => Below(s.tree, src, c.rank) && !Runs(s.tree, c)
    case RefusedRetune(c, src, bad) => Below(s.tree, src, c.rank) && !Enable(s.tree, src, bad).ok
  }

  ghost function Perform(s: System, op: Op): System
    requires Allowed(s, op)
  {
    match op
    case Acquire(c, bad) =>
      var r := Enable(s.tree, c, bad);
      System(s.tree.(count := r.count), if r.ok then Plus(s.holds, c) else s.holds)
    case Release(c) => System(s.tree.(count := Disable(s.tree, c).count), Minus(s.holds, c))
    case Retune(c, src, bad) => System(Moved(s.tree.(count := Enable(s.tree, src, bad).count), c, src), s.holds)
    case IdleRetune(c, src) => System(Moved(s.tree, c, src), s.holds)
    case RefusedRetune(_, _, _) => s
  }

  /** What an operation does to the gates. */
  ghost function Gating(s: System, op: Op): seq<Event>
    requires Allowed(s, op)
  {
    match op
    case Acquire(c, bad) => Enable(s.tree, c, bad).events
    case Release(c) => Disable(s.tree, c).events
    case Retune(_, src, bad) => Enable(s.tree, src, bad).events
    case IdleRetune(_, _) => []
    case RefusedRetune(_, src, bad) => Enable(s.tree, src, bad).events
  }

  ghost predicate AllAllowed(s: System, ops: seq<Op>)
    decreases |ops|
  {
    ops == [] || (Allowed(s, ops[0]) && AllAllowed(Perform(s, ops[0]), ops[1..]))
  }

  ghost function PerformAll(s: System, ops: seq<Op>): System
    requires AllAllowed(s, ops)
    decreases |ops|
  {
    if ops == [] then s else PerformAll(Perform(s, ops[0]), ops[1..])
  }

  lemma PerformKeeps(s: System, op: Op, exact: bool)
    requires Balanced(s.tree, s.holds, exact) && Allowed(s, op) && (exact ==> !op.Retune?)
    ensures Balanced(Perform(s, op).tree, Perform(s, op).holds, exact)
  {
    match op {
      case Acquire(c, bad) =>
        if Enable(s.tree, c, bad).ok {
          EnableKeeps(s.tree, s.holds, c, bad, exact);
        } else {
          EnableFails(s.tree, c, bad);
        }
      case Release(c) => DisableKeeps(s.tree, s.holds, c, exact);
      case Retune(c, src, bad) => RateKeeps(s.tree, s.holds, c, src, bad);
      case IdleRetune(c, src) => IdleRateKeeps(s.tree, s.holds, c, src, exact);
      case RefusedRetune(_, _, _) =>
    }
  }

  /** In every run, every count is at least its direct holds plus its running children, and with no rate
      change among the calls it is exactly that; so no running clock ever sits on a stopped parent. */
  lemma {:induction false} RunKeeps(s: System, ops: seq<Op>, exact: bool)
    requires Balanced(s.tree, s.holds, exact) && AllAllowed(s, ops)
    requires exact ==> forall k :: 0 <= k < |ops| ==> !ops[k].Retune?
    ensures var s' := PerformAll(s, ops); Balanced(s'.tree, s'.holds, exact) && Fed(Running(s'.tree), s'.tree.parent)
    decreases |ops|
  {
    if ops == [] {
      RunningFed(s.tree, s.holds, exact);
    } else {
      PerformKeeps(s, ops[0], exact);
      RunKeeps(Perform(s, ops[0]), ops[1..], exact);
    }
  }

  ghost function AllGating(s: System, ops: seq<Op>): seq<Event>
    requires AllAllowed(s, ops)
    decreases |ops|
  {
    if ops == [] then [] else Gating(s, ops[0]) + AllGating(Perform(s, ops[0]), ops[1..])
  }

  /** Through every gate write of every operation of a run, each gate that is on has its parent's gate on. */
  ghost predicate FedRun(s: System, ops: seq<Op>)
    requires AllAllowed(s, ops)
    decreases |ops|
  {
    ops == [] ||
    (FedThroughout(Running(s.tree), Gating(s, ops[0]), s.tree.parent) && FedRun(Perform(s, ops[0]), ops[1..]))
  }

  lemma OpFed(s: System, op: Op)
    requires Balanced(s.tree, s.holds, false) && Allowed(s, op)
    ensures FedThroughout(Running(s.tree), Gating(s, op), s.tree.parent)
    ensures Replay(Running(s.tree), Gating(s, op)) == Running(Perform(s, op).tree)
  {
    hide FedThroughout, Replay, Running, Balanced, Wf;
    match op {
      case Acquire(c, bad) => EnableFed(s.tree, s.holds, c, bad, false);
      case Release(c) => DisableFed(s.tree, s.holds, c, false);
      case Retune(c, src, bad) =>
        EnableFed(s.tree, s.holds, src, bad, false);
        MovedRunning(s.tree.(count := Enable(s.tree, src, bad).count), c, src);
      case IdleRetune(c, src) =>
        RunningFed(s.tree, s.holds, false);
        StillFed(Running(s.tree), s.tree.parent);
        MovedRunning(s.tree, c, src);
      case RefusedRetune(c, src, bad) =>
        EnableFed(s.tree, s.holds, src, bad, false);
        EnableFails(s.tree, src, bad);
    }
  }

  lemma MovedRunning(t: Tree, c: Clock, src: Clock?)
    ensures Running(Moved(t, c, src)) == Running(t)
  {
  }

  /** In every run the hardware is fed at every single gate write, and at the end exactly the running clocks are on. */
  lemma {:induction false} RunFed(s: System, ops: seq<Op>)
    requires Balanced(s.tree, s.holds, false) && AllAllowed(s, ops)
    ensures FedRun(s, ops) && Replay(Running(s.tree), AllGating(s, ops)) == Running(PerformAll(s, ops).tree)
    decreases |ops|
  {
    hide Balanced, Running, Replay, FedThroughout, Gating, Perform;
    if ops == [] {
      StillFed(Running(s.tree), s.tree.parent);
    } else {
      OpFed(s, ops[0]);
      PerformKeeps(s, ops[0], false);
      RunFed(Perform(s, ops[0]), ops[1..]);
      FedConcat(Running(s.tree), Gating(s, ops[0]), AllGating(Perform(s, ops[0]), ops[1..]), s.tree.parent);
    }
  }

  lemma {:induction false} RunConcat(s: System, a: seq<Op>, b: seq<Op>)
    requires AllAllowed(s, a) && AllAllowed(PerformAll(s, a), b)
    ensures AllAllowed(s, a + b) && PerformAll(s, a + b) == PerformAll(PerformAll(s, a), b)
    ensures AllGating(s, a + b) == AllGating(s, a) + AllGating(PerformAll(s, a), b)
    decreases |a|
  {
    hide Allowed, Perform, Gating;
    if a == [] {
      assert a + b == b;
    } else {
      assert (a + b)[1..] == a[1..] + b && (a + b)[0] == a[0];
      RunConcat(Perform(s, a[0]), a[1..], b);
    }
  }

  /** An acquisition that no gate refuses succeeds. */
  lemma {:induction false} EnableGood(t: Tree, c: Clock?)
    requires Wf(t) && (c == null || c in t.count)
    ensures Enable(t, c, {}).ok
    decreases Height(c)
  {
    if c != null && t.count[c] == 0 {
      assert Below(t, t.parent[c], c.rank);
      EnableGood(t, t.parent[c]);
    }
  }
}
