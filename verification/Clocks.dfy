/** The clock driver's calls on clock objects, refining the clock tree: clk_enable and clk_disable, and the
    rate changes of the two root clock families. */
module Clocks {
  import opened ClockTree

  datatype Status = NoError | InvalidArgs | Refused

  // The gate registers; every write is kept.
  class Gates {
    var log: seq<Event>

    constructor ()
      ensures log == []
    {
      log := [];
    }

    method Write(e: Event)
      modifies this
      ensures log == old(log) + [e]
    {
      log := log + [e];
    }
  }

  ghost predicate Source(all: set<Clock>, p: Clock?, c: Clock) { p != null ==> p in all && p.rank < c.rank }

  /** Every clock that can become a parent is in the set, with a lower rank. */
  ghost predicate Closed(all: set<Clock>) {
    forall c | c in all :: Source(all, c.fixedParent, c) && forall f | f in c.freqTbl :: Source(all, f.src, c)
  }

  ghost function TreeOf(all: set<Clock>): Tree
    reads all
  {
    Tree(map c | c in all :: c.count, map c | c in all :: c.GetParent())
  }

  lemma ClosedWf(all: set<Clock>)
    requires Closed(all)
    ensures Wf(TreeOf(all)) && TreeOf(all).count.Keys == all
  {
    var t := TreeOf(all);
    forall c | c in t.parent
      ensures Below(t, t.parent[c], c.rank)
    {
      if c.freqTbl != [] && 0 <= c.current < |c.freqTbl| {
        assert c.freqTbl[c.current] in c.freqTbl;
      }
      assert Source(all, t.parent[c], c);
    }
  }

  /** A running root clock has been enabled. */
  ghost predicate EnabledWhenRunning(all: set<Clock>)
    reads all
  {
    forall c | c in all && c.freqTbl != [] && c.count > 0 :: c.enabled
  }

  // The clocks that have been enabled, and the table entries in force.
  ghost function EnabledOf(all: set<Clock>): set<Clock>
    reads all`enabled
  {
    set c | c in all && c.enabled
  }

  ghost function CurrentOf(all: set<Clock>): map<Clock, int>
    reads all`current
  {
    map c | c in all :: c.current
  }

  /** The root clocks whose gates some writes switch on. */
  ghost function RootsOn(events: seq<Event>): set<Clock> {
    set e | e in events && e.On? && e.c.freqTbl != [] :: e.c
  }

  lemma RootsOnSum(a: seq<Event>, b: seq<Event>)
    ensures RootsOn(a + b) == RootsOn(a) + RootsOn(b)
    ensures RootsOn([]) == {}
  {
  }

  lemma {:induction false} DisableTurnsOff(t: Tree, c: Clock?)
    requires Wf(t) && (c == null || c in t.count)
    ensures RootsOn(Disable(t, c).events) == {}
    decreases Height(c)
  {
    if c != null && t.count[c] == 1 {
      assert Below(t, t.parent[c], c.rank);
      DisableTurnsOff(t, t.parent[c]);
      RootsOnSum([Off(c)], Disable(t, t.parent[c]).events);
      assert RootsOn([Off(c)]) == {};
    }
  }

  lemma TreeAt(all: set<Clock>, clk: Clock)
    requires Closed(all) && clk in all
    ensures Wf(TreeOf(all)) && clk in TreeOf(all).count && TreeOf(all).count[clk] == clk.count
    ensures TreeOf(all).parent[clk] == clk.GetParent() && Below(TreeOf(all), clk.GetParent(), clk.rank)
    ensures clk.GetParent() != null ==> clk.GetParent() in all
  {
    ClosedWf(all);
    assert Below(TreeOf(all), TreeOf(all).parent[clk], clk.rank);
  }

  lemma EnableShort(t: Tree, c: Clock?, bad: set<Clock>)
    requires Wf(t) && (c == null || c in t.count)
    ensures c == null ==> Enable(t, c, bad) == Outcome(true, t.count, [])
    ensures c != null && t.count[c] > 0 ==> Enable(t, c, bad) == Outcome(true, t.count[c := t.count[c] + 1], [])
  {
  }

  lemma DisableShort(t: Tree, c: Clock?)
    requires Wf(t) && (c == null || c in t.count)
    ensures c == null || t.count[c] == 0 ==> Disable(t, c) == Outcome(true, t.count, [])
    ensures c != null && t.count[c] > 1 ==> Disable(t, c) == Outcome(true, t.count[c := t.count[c] - 1], [])
  {
  }

  // clk->count = v
  method SetCount(clk: Clock, v: nat, ghost all: set<Clock>)
    requires clk in all
    modifies clk`count
    ensures clk.count == v
    ensures TreeOf(all) == old(TreeOf(all)).(count := old(TreeOf(all)).count[clk := v])
    ensures old(EnabledWhenRunning(all)) && (v > 0 && clk.freqTbl != [] ==> clk.enabled) ==> EnabledWhenRunning(all)
  {
    clk.count := v;
    assert TreeOf(all).count == old(TreeOf(all)).count[clk := v];
    assert TreeOf(all).parent == old(TreeOf(all)).parent;
  }

  /** The last release: the gate goes off, then the parent is released. The count is left to the caller. */
  method SwitchOff(clk: Clock, ghost all: set<Clock>, gates: Gates)
    requires Closed(all) && clk in all && EnabledWhenRunning(all) && clk.count == 1
    modifies all`count, gates
    ensures Wf(old(TreeOf(all))) && EnabledWhenRunning(all) && clk.count == 1
    ensures var r := Disable(old(TreeOf(all)), clk);
      && TreeOf(all).parent == old(TreeOf(all)).parent && r.count == TreeOf(all).count[clk := 0]
      && gates.log == old(gates.log) + r.events
    decreases Height(clk), 0
  {
    hide TreeOf, EnabledWhenRunning, Closed, Wf, Disable, Below;
    TreeAt(all, clk);
    DisableLast(TreeOf(all), clk);
    gates.Write(Off(clk));
    ClkDisable(clk.GetParent(), all, gates);
    TreeAt(all, clk);
  }

  /** Release a clock, and its parent with the last release. */
  method ClkDisable(clk: Clock?, ghost all: set<Clock>, gates: Gates)
    requires Closed(all) && (clk == null || clk in all) && EnabledWhenRunning(all)
    modifies all`count, gates
    ensures Wf(old(TreeOf(all))) && EnabledWhenRunning(all)
    ensures var r := Disable(old(TreeOf(all)), clk);
      TreeOf(all) == old(TreeOf(all)).(count := r.count) && gates.log == old(gates.log) + r.events
    decreases Height(clk), 1
  {
    hide TreeOf, EnabledWhenRunning, Closed, Wf, Disable, Below;
    ClosedWf(all);
    DisableShort(TreeOf(all), clk);
    if clk == null {
      return;
    }
    TreeAt(all, clk);
    if clk.count == 0 {
      return;
    }
    if clk.count == 1 {
      SwitchOff(clk, all, gates);
    }
    RootEnabled(clk, all);
    SetCount(clk, clk.count - 1, all);
  }

  /** The first acquisition: acquire the parent, then switch the clock's own gate on; on an error the
      parent is released again. The count is left to the caller. */
  method SwitchOn(clk: Clock, ghost all: set<Clock>, bad: set<Clock>, gates: Gates) returns (ok: bool)
    requires Closed(all) && clk in all && EnabledWhenRunning(all) && clk.count == 0
    modifies all`count, all`enabled, gates
    ensures Wf(old(TreeOf(all))) && EnabledWhenRunning(all) && clk.count == 0
    ensures ok ==> clk.freqTbl == [] || clk.enabled
    ensures var r := Enable(old(TreeOf(all)), clk, bad);
      && ok == r.ok && TreeOf(all).parent == old(TreeOf(all)).parent
      && r.count == (if ok then TreeOf(all).count[clk := 1] else TreeOf(all).count)
      && gates.log == old(gates.log) + r.events && EnabledOf(all) == old(EnabledOf(all)) + RootsOn(r.events)
    decreases Height(clk), 0
  {
    hide TreeOf, EnabledWhenRunning, Closed, Wf, Disable, Below, Enable, EnabledOf, RootsOn;
    TreeAt(all, clk);
    EnableFirst(TreeOf(all), clk, bad);
    var parent := clk.GetParent();
    ok := ClkEnable(parent, all, bad, gates);
    TreeAt(all, clk);
    if !ok {
      return;
    }
    ghost var t, up := TreeOf(all), gates.log[|old(gates.log)|..];
    if clk in bad {
      DisableTurnsOff(t, parent);
      RootsOnSum(up, Disable(t, parent).events);
      ClkDisable(parent, all, gates);
      TreeAt(all, clk);
      return false;
    }
    RootsOnSum(up, [On(clk)]);
    RootsOnOne(clk);
    gates.Write(On(clk));
    MarkEnabled(clk, all);
  }

  /** Acquire a clock, and its parent with the first acquisition. Bad holds the clocks whose enable
      operation reports an error. */
  method ClkEnable(clk: Clock?, ghost all: set<Clock>, bad: set<Clock>, gates: Gates) returns (ok: bool)
    requires Closed(all) && (clk == null || clk in all) && EnabledWhenRunning(all)
    modifies all`count, all`enabled, gates
    ensures Wf(old(TreeOf(all))) && EnabledWhenRunning(all)
    ensures var r := Enable(old(TreeOf(all)), clk, bad);
      && ok == r.ok && TreeOf(all) == old(TreeOf(all)).(count := r.count)
      && gates.log == old(gates.log) + r.events && EnabledOf(all) == old(EnabledOf(all)) + RootsOn(r.events)
    decreases Height(clk), 1
  {
    hide TreeOf, EnabledWhenRunning, Closed, Wf, Below, Enable, EnabledOf, RootsOn;
    ClosedWf(all);
    EnableShort(TreeOf(all), clk, bad);
    RootsOnSum([], []);
    if clk == null {
      return true;
    }
    TreeAt(all, clk);
    RootEnabled(clk, all);
    if clk.count == 0 {
      ok := SwitchOn(clk, all, bad, gates);
      if !ok {
        return;
      }
    }
    SetCount(clk, clk.count + 1, all);
    ok := true;
  }

  // The enable operation of a local root clock also notes that it has been enabled.
  method MarkEnabled(clk: Clock, ghost all: set<Clock>)
    requires clk in all
    modifies clk`enabled
    ensures TreeOf(all) == old(TreeOf(all)) && (old(EnabledWhenRunning(all)) ==> EnabledWhenRunning(all))
    ensures clk.freqTbl != [] ==> clk.enabled
    ensures EnabledOf(all) == old(EnabledOf(all)) + if clk.freqTbl != [] then {clk} else {}
  {
    if clk.freqTbl != [] {
      clk.enabled := true;
    }
    assert TreeOf(all).count == old(TreeOf(all)).count && TreeOf(all).parent == old(TreeOf(all)).parent;
  }

  lemma RootsOnOne(clk: Clock)
    ensures RootsOn([On(clk)]) == if clk.freqTbl != [] then {clk} else {}
  {
    assert On(clk) in [On(clk)];
  }

  lemma RootEnabled(clk: Clock, all: set<Clock>)
    requires clk in all && EnabledWhenRunning(all)
    ensures clk.freqTbl != [] && clk.count > 0 ==> clk.enabled
  {
  }

  // ----- rate changes -----

  /** The first entry of a frequency table with the wanted rate, or the length of the table. */
  function Entry(tbl: seq<Freq>, rate: nat): (k: nat)
    ensures k <= |tbl| && (k < |tbl| ==> tbl[k].hz == rate)
    ensures forall j :: 0 <= j < k ==> tbl[j].hz != rate
  {
    if tbl == [] || tbl[0].hz == rate then 0 else 1 + Entry(tbl[1..], rate)
  }

  method FindEntry(tbl: seq<Freq>, rate: nat) returns (nf: nat)
    ensures nf == Entry(tbl, rate)
  {
    nf := 0;
    while nf < |tbl| && tbl[nf].hz != rate
      invariant nf <= |tbl| && Entry(tbl, rate) == nf + Entry(tbl[nf..], rate)
    {
      assert tbl[nf..][1..] == tbl[nf + 1..];
      nf := nf + 1;
    }
  }

  // rclk->current_freq = nf
  method SetCurrent(clk: Clock, nf: nat, ghost all: set<Clock>)
    requires Closed(all) && clk in all && nf < |clk.freqTbl|
    modifies clk`current
    ensures clk.current == nf && TreeOf(all) == Moved(old(TreeOf(all)), clk, clk.freqTbl[nf].src)
    ensures old(EnabledWhenRunning(all)) ==> EnabledWhenRunning(all)
    ensures Below(TreeOf(all), clk.freqTbl[nf].src, clk.rank) && CurrentOf(all) == old(CurrentOf(all))[clk := nf]
  {
    assert Source(all, clk.freqTbl[nf].src, clk);
    clk.current := nf;
    assert TreeOf(all).count == old(TreeOf(all)).count;
    assert TreeOf(all).parent == old(TreeOf(all)).parent[clk := clk.freqTbl[nf].src];
  }

  /** A root clock that a gate write has switched on counts as enabled from then on, and only clk's table entry may
      change. */
  ghost predicate Noted(all: set<Clock>, clk: Clock, enabled: set<Clock>, current: map<Clock, int>,
                        was: seq<Event>, log: seq<Event>)
    reads all`enabled, all`current, clk`current
  {
    && was <= log && EnabledOf(all) == enabled + RootsOn(log[|was|..])
    && CurrentOf(all) == current[clk := clk.current]
  }

  lemma NotedNone(all: set<Clock>, clk: Clock, log: seq<Event>)
    requires clk in all
    ensures Noted(all, clk, EnabledOf(all), CurrentOf(all), log, log)
  {
    assert log[|log|..] == [];
    assert CurrentOf(all)[clk := clk.current] == CurrentOf(all);
  }

  /** Rate change of a root clock of the second library: the new source is acquired, whatever that
      reports, and the old one is not released. */
  method RcgSetRate(clk: Clock, rate: nat, ghost all: set<Clock>, bad: set<Clock>, gates: Gates) returns (rc: Status)
    requires Closed(all) && clk in all && EnabledWhenRunning(all)
    modifies all`count, all`enabled, clk`current, gates
    ensures EnabledWhenRunning(all) && Wf(old(TreeOf(all)))
    ensures var nf := Entry(clk.freqTbl, rate);
      && (rc == InvalidArgs <==> nf == |clk.freqTbl|) && rc != Refused
      && (nf == |clk.freqTbl| || nf == old(clk.current) ==>
            TreeOf(all) == old(TreeOf(all)) && gates.log == old(gates.log) && clk.current == old(clk.current))
      && (nf < |clk.freqTbl| && nf != old(clk.current) ==>
            && clk.current == nf && Switched(old(TreeOf(all)), TreeOf(all), clk, nf, bad)
            && gates.log == old(gates.log) + SwitchEvents(old(TreeOf(all)), clk, nf, bad))
    ensures Noted(all, clk, old(EnabledOf(all)), old(CurrentOf(all)), old(gates.log), gates.log)
  {
    hide TreeOf, EnabledWhenRunning, Closed, Wf, EnabledOf, RootsOn, CurrentOf;
    NotedNone(all, clk, gates.log);
    ClosedWf(all);
    TreeAt(all, clk);
    var nf := FindEntry(clk.freqTbl, rate);
    if nf == |clk.freqTbl| {
      return InvalidArgs;
    }
    if nf == clk.current {
      return NoError;
    }
    SourceIn(all, clk, nf);
    var _ := ClkEnable(clk.freqTbl[nf].src, all, bad, gates);
    SetCurrent(clk, nf, all);
    rc := NoError;
  }

  /** Rate change of a local root clock: a clock that has been enabled acquires the new source first, and
      when that fails nothing has changed. */
  method LocalSetRate(clk: Clock, rate: nat, ghost all: set<Clock>, bad: set<Clock>, gates: Gates) returns (rc: Status)
    requires Closed(all) && clk in all && EnabledWhenRunning(all)
    modifies all`count, all`enabled, clk`current, gates
    ensures EnabledWhenRunning(all) && Wf(old(TreeOf(all)))
    ensures var nf := Entry(clk.freqTbl, rate);
      && (rc == InvalidArgs <==> nf == |clk.freqTbl|)
      && (rc != NoError || nf == old(clk.current) ==>
            TreeOf(all) == old(TreeOf(all)) && clk.current == old(clk.current))
      && (rc == InvalidArgs || nf == old(clk.current) || !old(clk.enabled) ==> gates.log == old(gates.log))
      && (rc != InvalidArgs && nf != old(clk.current) && old(clk.enabled) ==>
            gates.log == old(gates.log) + SwitchEvents(old(TreeOf(all)), clk, nf, bad))
      && (rc == NoError && nf != old(clk.current) ==> clk.current == nf)
      && (rc == NoError && nf != old(clk.current) && old(clk.enabled) ==>
            SwitchedOk(old(TreeOf(all)), TreeOf(all), clk, nf, bad))
      && (rc == NoError && nf != old(clk.current) && !old(clk.enabled) ==>
            !Runs(old(TreeOf(all)), clk) && TreeOf(all) == Moved(old(TreeOf(all)), clk, clk.freqTbl[nf].src))
      && (rc == Refused ==> nf != old(clk.current) && old(clk.enabled) && !SwitchOk(old(TreeOf(all)), clk, nf, bad))
    ensures Noted(all, clk, old(EnabledOf(all)), old(CurrentOf(all)), old(gates.log), gates.log)
  {
    hide TreeOf, EnabledWhenRunning, Closed, Wf, EnabledOf, RootsOn, CurrentOf;
    NotedNone(all, clk, gates.log);
    ClosedWf(all);
    TreeAt(all, clk);
    RootEnabled(clk, all);
    var nf := FindEntry(clk.freqTbl, rate);
    if nf == |clk.freqTbl| {
      return InvalidArgs;
    }
    if nf == clk.current {
      return NoError;
    }
    SourceIn(all, clk, nf);
    if clk.enabled {
      var ok := ClkEnable(clk.freqTbl[nf].src, all, bad, gates);
      if !ok {
        EnableFails(old(TreeOf(all)), clk.freqTbl[nf].src, bad);
        return Refused;
      }
    }
    SetCurrent(clk, nf, all);
    rc := NoError;
  }

  /** The gate writes of acquiring the source of entry nf, or of trying to. */
  ghost function SwitchEvents(t: Tree, clk: Clock, nf: int, bad: set<Clock>): seq<Event> {
    if 0 <= nf < |clk.freqTbl| && Wf(t) && (clk.freqTbl[nf].src == null || clk.freqTbl[nf].src in t.count) then
      Enable(t, clk.freqTbl[nf].src, bad).events
    else []
  }

  ghost predicate SwitchOk(t: Tree, clk: Clock, nf: int, bad: set<Clock>) {
    && 0 <= nf < |clk.freqTbl| && Wf(t) && (clk.freqTbl[nf].src == null || clk.freqTbl[nf].src in t.count)
    && Enable(t, clk.freqTbl[nf].src, bad).ok
  }

  /** The tree after acquiring the source of entry nf and moving the clock there. */
  ghost predicate Switched(t: Tree, t': Tree, clk: Clock, nf: int, bad: set<Clock>) {
    && 0 <= nf < |clk.freqTbl| && Wf(t) && clk in t.count && Below(t, clk.freqTbl[nf].src, clk.rank)
    && t' == Moved(t.(count := Enable(t, clk.freqTbl[nf].src, bad).count), clk, clk.freqTbl[nf].src)
  }

  ghost predicate SwitchedOk(t: Tree, t': Tree, clk: Clock, nf: int, bad: set<Clock>) {
    Switched(t, t', clk, nf, bad) && SwitchOk(t, clk, nf, bad)
  }

  lemma SourceIn(all: set<Clock>, clk: Clock, nf: nat)
    requires Closed(all) && clk in all && nf < |clk.freqTbl|
    ensures clk.freqTbl[nf].src != null ==> clk.freqTbl[nf].src in all
    ensures Below(TreeOf(all), clk.freqTbl[nf].src, clk.rank)
  {
    assert Source(all, clk.freqTbl[nf].src, clk);
  }

  // ----- runs of calls on clock objects -----

  // What a caller asks of a clock. bad are the gates that refuse; a source of the second library never does here.
  datatype Request = EnableClock(c: Clock, bad: set<Clock>) | DisableClock(c: Clock)
                   | SetRcg(c: Clock, rate: nat) | SetLocal(c: Clock, rate: nat, bad: set<Clock>)

  ghost function SystemOf(all: set<Clock>, holds: Holds): System
    reads all
  {
    System(TreeOf(all), holds)
  }

  /** From one system to another by operations of the tree, with their gate writes. */
  ghost predicate Refines(s: System, s': System, ops: seq<Op>, events: seq<Event>) {
    AllAllowed(s, ops) && PerformAll(s, ops) == s' && AllGating(s, ops) == events
  }

  lemma RefinesNone(s: System)
    ensures Refines(s, s, [], [])
  {
  }

  lemma RefinesOne(s: System, s': System, op: Op)
    requires Allowed(s, op) && Perform(s, op) == s'
    ensures Refines(s, s', [op], Gating(s, op))
  {
    hide Allowed, Perform, Gating;
    assert [op][1..] == [];
    assert AllAllowed(s', []) && PerformAll(s', []) == s' && AllGating(s', []) == [];
    assert AllAllowed(s, [op]) && PerformAll(s, [op]) == s';
    assert AllGating(s, [op]) == Gating(s, op) + AllGating(s', []);
  }

  lemma RefinesThen(s: System, s1: System, s2: System, a: seq<Op>, x: seq<Event>, b: seq<Op>, y: seq<Event>)
    requires Refines(s, s1, a, x) && Refines(s1, s2, b, y)
    ensures Refines(s, s2, a + b, x + y)
  {
    RunConcat(s, a, b);
  }

  ghost predicate Lawful(all: set<Clock>, holds: Holds)
    reads all
  {
    Closed(all) && EnabledWhenRunning(all) && holds.Keys == all
  }

  // ----- what each request contributes -----

  // The tree with the callers' holds, the table entries in force and the clocks that count as enabled.
  datatype Moment = Moment(sys: System, current: map<Clock, int>, enabled: set<Clock>)

  ghost function MomentOf(all: set<Clock>, holds: Holds): Moment
    reads all
  {
    Moment(SystemOf(all, holds), CurrentOf(all), EnabledOf(all))
  }

  /** Whether a rate is in a clock's table and not the one in force. */
  ghost predicate Moves(m: Moment, c: Clock, rate: nat) {
    var nf := Entry(c.freqTbl, rate);
    nf < |c.freqTbl| && c in m.current && nf != m.current[c]
  }

  ghost predicate Taken(m: Moment, src: Clock?, bad: set<Clock>) {
    Wf(m.sys.tree) && (src == null || src in m.sys.tree.count) && Enable(m.sys.tree, src, bad).ok
  }

  /** The operations of the tree that a request contributes: an acquisition, a release exactly when the caller holds the
      clock, or a move to the source of the first table entry of the rate unless there is none or it is in force. */
  ghost function OpsOf(m: Moment, req: Request): seq<Op> {
    match req
    case EnableClock(c, bad) => [Acquire(c, bad)]
    case DisableClock(c) => if c in m.sys.holds && m.sys.holds[c] > 0 then [Release(c)] else []
    case SetRcg(c, rate) => if Moves(m, c, rate) then [Retune(c, c.freqTbl[Entry(c.freqTbl, rate)].src, {})] else []
    case SetLocal(c, rate, bad) =>
      if !Moves(m, c, rate) then []
      else
        var src := c.freqTbl[Entry(c.freqTbl, rate)].src;
        if c !in m.enabled then [IdleRetune(c, src)]
        else if Taken(m, src, bad) then [Retune(c, src, bad)]
        else [RefusedRetune(c, src, bad)]
  }

  ghost predicate Refuses(m: Moment, req: Request) {
    var ops := OpsOf(m, req);
    ops != [] && ops[0].RefusedRetune?
  }

  ghost function CurrentAfter(m: Moment, req: Request): map<Clock, int> {
    if (req.SetRcg? || req.SetLocal?) && Moves(m, req.c, req.rate) && !Refuses(m, req) then
      m.current[req.c := Entry(req.c.freqTbl, req.rate)]
    else m.current
  }

  /** One request: its operations are performed, a move puts the entry in force, and the root clocks whose gates were
      switched on count as enabled. */
  ghost predicate Step(m: Moment, req: Request, m': Moment) {
    var ops := OpsOf(m, req);
    && AllAllowed(m.sys, ops) && m'.sys == PerformAll(m.sys, ops)
    && m'.current == CurrentAfter(m, req)
    && m'.enabled == m.enabled + RootsOn(AllGating(m.sys, ops))
  }

  lemma StepIs(m: Moment, req: Request, m': Moment, events: seq<Event>, v: int)
    requires Refines(m.sys, m'.sys, OpsOf(m, req), events) && req.c in m.current
    requires m'.current == m.current[req.c := v] && m'.enabled == m.enabled + RootsOn(events)
    requires v == if (req.SetRcg? || req.SetLocal?) && Moves(m, req.c, req.rate) && !Refuses(m, req) then
                    Entry(req.c.freqTbl, req.rate)
                  else m.current[req.c]
    ensures Step(m, req, m')
  {
  }

  // One operation of a request, or none.
  lemma StepOne(m: Moment, req: Request, m': Moment)
    requires Step(m, req, m') && |OpsOf(m, req)| <= 1
    ensures OpsOf(m, req) == [] ==> m'.sys == m.sys
    ensures OpsOf(m, req) != [] ==>
      var op := OpsOf(m, req)[0]; Allowed(m.sys, op) && m'.sys == Perform(m.sys, op)
  {
    var ops := OpsOf(m, req);
    if ops != [] {
      assert ops[1..] == [] && AllAllowed(m.sys, ops);
      assert PerformAll(m.sys, ops) == PerformAll(Perform(m.sys, ops[0]), []);
    }
  }

  /** A rate in the table is in force after the request, with its source acquired first unless the clock was never
      enabled; a source that refuses a local clock, or a rate not in the table, leaves tree and entry as they were. */
  lemma RateTaken(m: Moment, req: Request, m': Moment)
    requires Step(m, req, m') && (req.SetRcg? || req.SetLocal?) && req.c in m.current
    ensures (exists f :: f in req.c.freqTbl && f.hz == req.rate) && !Refuses(m, req) ==>
      && req.c in m'.current && 0 <= m'.current[req.c] < |req.c.freqTbl|
      && var f := req.c.freqTbl[m'.current[req.c]];
      && f.hz == req.rate
      && (m'.current != m.current ==> req.c in m'.sys.tree.parent && m'.sys.tree.parent[req.c] == f.src)
      && (m'.current != m.current && f.src != null && (req.SetRcg? || req.c in m.enabled) ==> Runs(m'.sys.tree, f.src))
    ensures (forall f | f in req.c.freqTbl :: f.hz != req.rate) || Refuses(m, req) ==>
      m'.sys.tree == m.sys.tree && m'.current == m.current
  {
    hide Wf, Enable;
    var c := req.c;
    StepOne(m, req, m');
    if Moves(m, c, req.rate) {
      var src := c.freqTbl[Entry(c.freqTbl, req.rate)].src;
      if OpsOf(m, req)[0].Retune? && src != null {
        EnableRuns(m.sys.tree, src, OpsOf(m, req)[0].bad);
      }
    }
  }

  lemma EnableRuns(t: Tree, c: Clock, bad: set<Clock>)
    requires Wf(t) && c in t.count && Enable(t, c, bad).ok
    ensures Enable(t, c, bad).count[c] > 0
  {
  }

  // ----- whole runs -----

  /** The moments of a run, from before the first request to after the last. */
  ghost predicate RunOf(at: seq<Moment>, reqs: seq<Request>) {
    |at| == |reqs| + 1 && forall k :: 0 <= k < |reqs| ==> Step(at[k], reqs[k], at[k + 1])
  }

  ghost function OpsTo(at: seq<Moment>, reqs: seq<Request>, n: nat): seq<Op>
    requires n <= |reqs| && n <= |at|
  {
    if n == 0 then [] else OpsTo(at, reqs, n - 1) + OpsOf(at[n - 1], reqs[n - 1])
  }

  lemma {:induction false} OpsToMore(at: seq<Moment>, m: Moment, reqs: seq<Request>, n: nat)
    requires n <= |reqs| && n <= |at|
    ensures OpsTo(at + [m], reqs, n) == OpsTo(at, reqs, n)
  {
    if n > 0 {
      OpsToMore(at, m, reqs, n - 1);
    }
  }

  /** How many of the first n requests acquired a clock, and how many gave it back. */
  ghost function Acquired(at: seq<Moment>, reqs: seq<Request>, n: nat, c: Clock): nat
    requires n <= |reqs| && n <= |at|
  {
    if n == 0 then 0
    else
      Acquired(at, reqs, n - 1, c)
      + if reqs[n - 1].EnableClock? && reqs[n - 1].c == c && Taken(at[n - 1], c, reqs[n - 1].bad) then 1 else 0
  }

  ghost function Released(at: seq<Moment>, reqs: seq<Request>, n: nat, c: Clock): nat
    requires n <= |reqs| && n <= |at|
  {
    if n == 0 then 0
    else
      Released(at, reqs, n - 1, c)
      + if reqs[n - 1] == DisableClock(c) && c in at[n - 1].sys.holds && at[n - 1].sys.holds[c] > 0 then 1 else 0
  }

  /** What the caller holds of a clock is what it held, and the acquisitions that succeeded, less the releases. */
  lemma {:induction false} HoldsCount(at: seq<Moment>, reqs: seq<Request>, n: nat, c: Clock)
    requires RunOf(at, reqs) && n <= |reqs| && c in at[0].sys.holds
    ensures c in at[n].sys.holds
    ensures at[n].sys.holds[c] == at[0].sys.holds[c] + Acquired(at, reqs, n, c) - Released(at, reqs, n, c)
  {
    hide Taken, Step;
    if n > 0 {
      HoldsCount(at, reqs, n - 1, c);
      HoldsStep(at[n - 1], reqs[n - 1], at[n], c);
    }
  }

  lemma HoldsStep(m: Moment, req: Request, m': Moment, c: Clock)
    requires Step(m, req, m') && c in m.sys.holds
    ensures c in m'.sys.holds
    ensures m'.sys.holds[c] == m.sys.holds[c]
            + (if req.EnableClock? && req.c == c && Taken(m, c, req.bad) then 1 else 0)
            - (if req == DisableClock(c) && m.sys.holds[c] > 0 then 1 else 0)
  {
    hide Wf, Enable, Disable, Below, Moved, Step;
    StepOne(m, req, m');
  }

  method AskEnable(c: Clock, ghost all: set<Clock>, bad: set<Clock>, gates: Gates, holds: Holds)
    returns (now: Holds, ghost ops: seq<Op>)
    requires Lawful(all, holds) && c in all
    modifies all`count, all`enabled, gates
    ensures Lawful(all, now) && ops == [Acquire(c, bad)]
    ensures Noted(all, c, old(EnabledOf(all)), old(CurrentOf(all)), old(gates.log), gates.log)
    ensures c.current == old(c.current)
    ensures Refines(old(SystemOf(all, holds)), SystemOf(all, now), ops, gates.log[|old(gates.log)|..])
  {
    hide TreeOf, EnabledWhenRunning, Closed, Wf, Refines, Enable, EnabledOf, RootsOn, CurrentOf;
    TreeAt(all, c);
    ClosedWf(all);
    NotedNone(all, c, gates.log);
    ghost var s := SystemOf(all, holds);
    ops := [Acquire(c, bad)];
    var ok := ClkEnable(c, all, bad, gates);
    now := if ok then holds[c := holds[c] + 1] else holds;
    assert Perform(s, ops[0]) == SystemOf(all, now);
    RefinesOne(s, SystemOf(all, now), ops[0]);
  }

  /** A caller gives back only what it holds. */
  method AskDisable(c: Clock, ghost all: set<Clock>, gates: Gates, holds: Holds)
    returns (now: Holds, ghost ops: seq<Op>)
    requires Lawful(all, holds) && c in all
    modifies all`count, gates
    ensures Lawful(all, now) && ops == if holds[c] > 0 then [Release(c)] else []
    ensures Noted(all, c, old(EnabledOf(all)), old(CurrentOf(all)), old(gates.log), gates.log)
    ensures Refines(old(SystemOf(all, holds)), SystemOf(all, now), ops, gates.log[|old(gates.log)|..])
  {
    hide TreeOf, EnabledWhenRunning, Closed, Wf, Refines, Disable, EnabledOf, RootsOn, CurrentOf;
    TreeAt(all, c);
    ClosedWf(all);
    NotedNone(all, c, gates.log);
    DisableTurnsOff(TreeOf(all), c);
    RootsOnSum([], []);
    ghost var s := SystemOf(all, holds);
    now, ops := holds, [];
    if holds[c] == 0 {
      RefinesNone(s);
      assert gates.log[|old(gates.log)|..] == [];
    } else {
      ops := [Release(c)];
      ClkDisable(c, all, gates);
      now := holds[c := holds[c] - 1];
      assert Perform(s, ops[0]) == SystemOf(all, now);
      RefinesOne(s, SystemOf(all, now), ops[0]);
    }
  }

  method AskRcg(c: Clock, rate: nat, ghost all: set<Clock>, gates: Gates, ghost holds: Holds)
    returns (ghost ops: seq<Op>)
    requires Lawful(all, holds) && c in all
    modifies all`count, all`enabled, c`current, gates
    ensures Lawful(all, holds) && ops == old(OpsOf(MomentOf(all, holds), SetRcg(c, rate)))
    ensures Noted(all, c, old(EnabledOf(all)), old(CurrentOf(all)), old(gates.log), gates.log)
    ensures c.current == if ops == [] then old(c.current) else Entry(c.freqTbl, rate)
    ensures Refines(old(SystemOf(all, holds)), SystemOf(all, holds), ops, gates.log[|old(gates.log)|..])
  {
    hide TreeOf, EnabledWhenRunning, Closed, Wf, Refines, Enable, EnabledOf, RootsOn;
    TreeAt(all, c);
    ClosedWf(all);
    ghost var s, nf := SystemOf(all, holds), Entry(c.freqTbl, rate);
    ghost var move := nf < |c.freqTbl| && nf != c.current;
    if nf < |c.freqTbl| {
      SourceIn(all, c, nf);
      EnableGood(s.tree, c.freqTbl[nf].src);
    }
    var _ := RcgSetRate(c, rate, all, {}, gates);
    ops := [];
    if move {
      ops := [Retune(c, c.freqTbl[nf].src, {})];
      assert Perform(s, ops[0]) == SystemOf(all, holds);
      RefinesOne(s, SystemOf(all, holds), ops[0]);
    } else {
      RefinesNone(s);
      assert gates.log[|old(gates.log)|..] == [];
    }
  }

  method AskLocal(c: Clock, rate: nat, ghost all: set<Clock>, bad: set<Clock>, gates: Gates, ghost holds: Holds)
    returns (ghost ops: seq<Op>)
    requires Lawful(all, holds) && c in all
    modifies all`count, all`enabled, c`current, gates
    ensures Lawful(all, holds) && ops == old(OpsOf(MomentOf(all, holds), SetLocal(c, rate, bad)))
    ensures Noted(all, c, old(EnabledOf(all)), old(CurrentOf(all)), old(gates.log), gates.log)
    ensures c.current == if ops == [] || ops[0].RefusedRetune? then old(c.current) else Entry(c.freqTbl, rate)
    ensures Refines(old(SystemOf(all, holds)), SystemOf(all, holds), ops, gates.log[|old(gates.log)|..])
  {
    hide TreeOf, EnabledWhenRunning, Closed, Wf, Refines, Enable, RootsOn;
    TreeAt(all, c);
    ClosedWf(all);
    ghost var s, nf := SystemOf(all, holds), Entry(c.freqTbl, rate);
    ghost var enabled, current := c.enabled, c.current;
    if nf < |c.freqTbl| {
      SourceIn(all, c, nf);
    }
    var rc := LocalSetRate(c, rate, all, bad, gates);
    ops := [];
    if rc == Refused {
      ops := [RefusedRetune(c, c.freqTbl[nf].src, bad)];
      assert gates.log[|old(gates.log)|..] == Gating(s, ops[0]);
      RefinesOne(s, SystemOf(all, holds), ops[0]);
    } else if rc == NoError && nf != current {
      ops := [if enabled then Retune(c, c.freqTbl[nf].src, bad) else IdleRetune(c, c.freqTbl[nf].src)];
      assert Perform(s, ops[0]) == SystemOf(all, holds);
      assert gates.log[|old(gates.log)|..] == Gating(s, ops[0]);
      RefinesOne(s, SystemOf(all, holds), ops[0]);
    } else {
      RefinesNone(s);
      assert gates.log[|old(gates.log)|..] == [];
    }
  }

  /** Any run of calls on clock objects, by a caller that gives back only what it holds. It is a run of the tree, gate
      write by gate write, to which every request contributes exactly its own operations, and a caller ends up holding
      what it held and acquired less what it released. Starting balanced, every count is in the end at least the holds
      on the clock and its running children, the hardware was fed at every gate write, and exactly the running clocks
      are on. */
  method RunRequests(reqs: seq<Request>, ghost all: set<Clock>, gates: Gates, holds: Holds)
    returns (now: Holds, ghost ops: seq<Op>, ghost at: seq<Moment>)
    requires Lawful(all, holds) && (forall k :: 0 <= k < |reqs| ==> reqs[k].c in all)
    requires Balanced(TreeOf(all), holds, false)
    modifies all`count, all`enabled, all`current, gates
    ensures Lawful(all, now) && old(gates.log) <= gates.log
    ensures RunOf(at, reqs) && at[0] == old(MomentOf(all, holds)) && at[|reqs|] == MomentOf(all, now)
    ensures ops == OpsTo(at, reqs, |reqs|)
    ensures forall c | c in all :: now[c] == holds[c] + Acquired(at, reqs, |reqs|, c) - Released(at, reqs, |reqs|, c)
    ensures var s, events := old(SystemOf(all, holds)), gates.log[|old(gates.log)|..];
      && Refines(s, SystemOf(all, now), ops, events)
      && FedRun(s, ops) && Replay(Running(s.tree), events) == Running(TreeOf(all))
    ensures Balanced(TreeOf(all), now, false)
    ensures old(Balanced(TreeOf(all), holds, true)) && NoRates(reqs) ==> Balanced(TreeOf(all), now, true)
  {
    hide TreeOf, Closed, EnabledWhenRunning, Refines, Balanced, Running, Replay, Step, OpsOf, EnabledOf, CurrentOf;
    hide Acquired, Released;
    ghost var s, log := SystemOf(all, holds), gates.log;
    RefinesNone(s);
    now, ops, at := holds, [], [MomentOf(all, holds)];
    assert gates.log[|log|..] == [];
    var i := 0;
    while i < |reqs|
      invariant i <= |reqs| && Lawful(all, now) && log <= gates.log
      invariant |at| == i + 1 && at[0] == old(MomentOf(all, holds)) && at[i] == MomentOf(all, now)
      invariant forall k :: 0 <= k < i ==> Step(at[k], reqs[k], at[k + 1])
      invariant ops == OpsTo(at, reqs, i)
      invariant Refines(s, SystemOf(all, now), ops, gates.log[|log|..])
      invariant NoRates(reqs[..i]) ==> forall k :: 0 <= k < |ops| ==> !ops[k].Retune?
    {
      ghost var s1, log1 := SystemOf(all, now), gates.log;
      ghost var more;
      now, more := Ask(reqs[i], all, gates, now);
      RefinesThen(s, s1, SystemOf(all, now), ops, log1[|log|..], more, gates.log[|log1|..]);
      assert log1[|log|..] + gates.log[|log1|..] == gates.log[|log|..];
      assert reqs[..i + 1][i] == reqs[i] && forall k :: 0 <= k < i ==> reqs[..i + 1][k] == reqs[..i][k];
      OpsToMore(at, MomentOf(all, now), reqs, i);
      at := at + [MomentOf(all, now)];
      ops := ops + more;
      i := i + 1;
    }
    assert reqs[..i] == reqs;
    RunOutcome(s, SystemOf(all, now), ops, gates.log[|log|..], NoRates(reqs));
    forall c | c in all
      ensures now[c] == holds[c] + Acquired(at, reqs, |reqs|, c) - Released(at, reqs, |reqs|, c)
    {
      HoldsCount(at, reqs, |reqs|, c);
    }
  }

  ghost predicate NoRates(reqs: seq<Request>) {
    forall k :: 0 <= k < |reqs| ==> reqs[k].EnableClock? || reqs[k].DisableClock?
  }

  lemma RunOutcome(s: System, s': System, ops: seq<Op>, events: seq<Event>, noRates: bool)
    requires Refines(s, s', ops, events) && Balanced(s.tree, s.holds, false)
    requires noRates ==> forall k :: 0 <= k < |ops| ==> !ops[k].Retune?
    ensures AllAllowed(s, ops) && FedRun(s, ops) && Replay(Running(s.tree), events) == Running(s'.tree)
    ensures Balanced(s'.tree, s'.holds, false)
    ensures Balanced(s.tree, s.holds, true) && noRates ==> Balanced(s'.tree, s'.holds, true)
  {
    hide Balanced, Running, Replay;
    RunKeeps(s, ops, false);
    RunFed(s, ops);
    if Balanced(s.tree, s.holds, true) && noRates {
      RunKeeps(s, ops, true);
    }
  }

  /** One request on clock objects is one step, and contributes the operations it asks for. */
  method Ask(req: Request, ghost all: set<Clock>, gates: Gates, holds: Holds)
    returns (now: Holds, ghost ops: seq<Op>)
    requires Lawful(all, holds) && req.c in all
    modifies all`count, all`enabled, all`current, gates
    ensures Lawful(all, now) && old(gates.log) <= gates.log
    ensures ops == OpsOf(old(MomentOf(all, holds)), req) && Step(old(MomentOf(all, holds)), req, MomentOf(all, now))
    ensures Refines(old(SystemOf(all, holds)), SystemOf(all, now), ops, gates.log[|old(gates.log)|..])
    ensures req.EnableClock? || req.DisableClock? ==> forall k :: 0 <= k < |ops| ==> !ops[k].Retune?
  {
    hide TreeOf, Closed, EnabledWhenRunning, Refines, EnabledOf, CurrentOf, RootsOn, Step, Taken, Wf, Enable;
    now := holds;
    ghost var m := MomentOf(all, holds);
    CurrentAt(all, req.c);
    match req {
      case EnableClock(c, bad) => now, ops := AskEnable(c, all, bad, gates, holds);
      case DisableClock(c) => now, ops := AskDisable(c, all, gates, holds);
      case SetRcg(c, rate) => ops := AskRcg(c, rate, all, gates, holds);
      case SetLocal(c, rate, bad) => ops := AskLocal(c, rate, all, bad, gates, holds);
    }
    StepIs(m, req, MomentOf(all, now), gates.log[|old(gates.log)|..], req.c.current);
  }

  lemma CurrentAt(all: set<Clock>, c: Clock)
    requires c in all
    ensures c in CurrentOf(all) && CurrentOf(all)[c] == c.current
  {
  }
}
