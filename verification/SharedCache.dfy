/** Several evaluations that share a cache, in any interleaving: what each of their questions is answered. */
module SharedCache {
  import opened Constants
  import opened WarehouseTree
  import opened Warehouse
  import opened CacheWorkshop

  /** A marker stands only at these addresses; anything else is what the evaluator says for its address. */
  ghost function ExactBesides(e: Evaluator, addrs: set<Addr>): Rule {
    (a: Addr, c: Constant) => if c.Calc? then a in addrs else c == e(Context(a), a.Keys)
  }

  /** Every owner has its own marker, and every other entry is exact. */
  ghost predicate Shared(e: Evaluator, m: Machine) {
    Orderly(m) && StoreInv(m.store, ExactBesides(e, Addrs(m)))
  }

  /** A reply stores what the evaluator says for the dimensions on the way to its entry. */
  ghost predicate HonestEvent(e: Evaluator, m: Machine, ev: Event) {
    && Legal(m, ev)
    && (ev.Reply? ==> MarkerOf(m, ev.who).Spot? && ev.value == e(m.owners[ev.who].k, MarkerOf(m, ev.who).addr.Keys))
  }

  ghost predicate HonestRun(e: Evaluator, m: Machine, evs: seq<Event>)
    decreases |evs|
  {
    evs == [] ||
    (HonestEvent(e, m, evs[0]) && (Step(m, evs[0]).Machines? ==> HonestRun(e, Step(m, evs[0]).machine, evs[1..])))
  }

  lemma AskKeepsShared(e: Evaluator, m: Machine, k: Context, delta: Delta)
    requires Shared(e, m)
    ensures Step(m, Ask(k, delta)).Machines? && Shared(e, Step(m, Ask(k, delta)).machine)
  {
    AskKeepsOrder(m, k, delta);
    var m' := Step(m, Ask(k, delta)).machine;
    if m.store.tree.Some? {
      var n, r := m.store.tree.value.node, m.store.retirement;
      AskAddrs(m, k, delta);
      GetSound(n, [], map[], ExactBesides(e, Addrs(m)), ExactBesides(e, Addrs(m')), k, delta, r);
    }
  }

  /**
   The evaluation loop supplies exactly the dimensions on the way to its entry; then its own answer
   is an honest reply.
   */
  lemma LoopRepliesHonestly(e: Evaluator, m: Machine, who: nat)
    requires Honest(e) && Shared(e, m) && who < |m.owners|
    requires MarkerOf(m, who).Spot? && m.owners[who].delta == Delta(MarkerOf(m, who).addr.Keys, false)
    ensures HonestEvent(e, m, Reply(who, e(m.owners[who].k, m.owners[who].delta.dims)))
  {
    var owner := m.owners[who];
    var value := e(owner.k, owner.delta.dims);
    assert value.Demand? ==> forall d :: d in value.dims ==> d !in owner.delta.dims;
  }

  /** Asking removes no marker, and adds one exactly where it is answered calc. */
  lemma AskAddrs(m: Machine, k: Context, delta: Delta)
    requires Orderly(m) && m.store.tree.Some?
    ensures Step(m, Ask(k, delta)).Machines?
    ensures var m' := Step(m, Ask(k, delta)).machine;
            && (forall x :: x in Addrs(m) ==> x in Addrs(m'))
            && (|m'.owners| > |m.owners| ==>
                  MarkerOf(m', |m.owners|).Spot? && MarkerOf(m', |m.owners|).addr in Addrs(m'))
  {
    AskKeepsOrder(m, k, delta);
    var n, r, rule := m.store.tree.value.node, m.store.retirement, MarkersAt(Addrs(m));
    var m' := Step(m, Ask(k, delta)).machine;
    GetSound(n, [], map[], rule, rule, k, delta, r);
    forall i: nat | i < |m.owners| ensures m'.owners[i] == m.owners[i] && MarkerOf(m', i) == MarkerOf(m, i) {
      OwnerHasTree(m, i);
      GetLocate(n, [], map[], rule, k, delta, r, m.owners[i].k);
    }
    forall x | x in Addrs(m) ensures x in Addrs(m') {
      var i :| 0 <= i < |m.owners| && MarkerOf(m, i).Spot? && MarkerOf(m, i).addr == x;
      assert MarkerOf(m', i).addr == x;
    }
    if |m'.owners| > |m.owners| { OwnerHasTree(m', |m.owners|); }
  }

  lemma ReplyKeepsShared(e: Evaluator, m: Machine, who: nat, value: Constant)
    requires Honest(e) && Shared(e, m) && HonestEvent(e, m, Reply(who, value))
    ensures Step(m, Reply(who, value)).Machines? && Shared(e, Step(m, Reply(who, value)).machine)
  {
    ReplyKeepsOrder(m, who, value);
    ReplyAddrs(m, who, value);
    OwnerHasTree(m, who);
    var m' := Step(m, Reply(who, value)).machine;
    var n, k, addr := m.store.tree.value.node, m.owners[who].k, MarkerOf(m, who).addr;
    LocateSound(n, [], map[], MarkersAt(Addrs(m)), k);
    ExactAt(e, addr, k);
    SetSound(n, [], map[], ExactBesides(e, Addrs(m)), ExactBesides(e, Addrs(m')), k, value);
  }

  lemma SweepKeepsShared(e: Evaluator, m: Machine)
    requires Shared(e, m) && AllSpared(m)
    ensures Step(m, Sweep).Machines? && Shared(e, Step(m, Sweep).machine)
  {
    SweepKeepsOrderExactly(m);
    var m' := Step(m, Sweep).machine;
    forall i: nat | i < |m.owners| ensures m'.owners[i] == m.owners[i] && MarkerOf(m', i) == MarkerOf(m, i) {
      assert Spared(m, i);
      SweptMarker(m, i);
    }
    assert Addrs(m') == Addrs(m);
    if m.store.tree.Some? {
      CollectSound(m.store.tree.value.node, [], map[], ExactBesides(e, Addrs(m)), m.store.retirement);
    }
  }

  lemma {:induction false} SharedThroughout(e: Evaluator, m: Machine, evs: seq<Event>)
    requires Honest(e) && Shared(e, m) && HonestRun(e, m, evs)
    ensures Run(m, evs).Machines? && Shared(e, Run(m, evs).machine)
    decreases |evs|
  {
    if evs != [] {
      match evs[0] {
        case Ask(k, delta) => AskKeepsShared(e, m, k, delta);
        case Reply(who, value) => ReplyKeepsShared(e, m, who, value);
        case Sweep => SweepKeepsShared(e, m);
      }
      SharedThroughout(e, Step(m, evs[0]).machine, evs[1..]);
    }
  }

  // ---------------------------------------------------------------------------------------------
  // What is answered

  /**
   Below an address, a get that is not told to calculate and meets no marker answers what restarting
   the evaluator there gives.
   */
  lemma {:induction false} GetRestarts(n: Node, dims: seq<Dim>, a: Addr, e: Evaluator, addrs: set<Addr>,
                                       k: Context, delta: Delta, retirement: int)
    requires Honest(e) && Inv(n, dims, a, ExactBesides(e, addrs)) && Matches(k, a) && !delta.all
    requires a.Keys + DimSet(dims) <= delta.dims
    ensures var g := GetNode(n, dims, k, delta, retirement);
            && g.Got?
            && (g.answer.Calc?
                || (g.answer == Special(SpLoop) && Locate(n, dims, a, k).Spot? && Locate(n, dims, a, k).value.Calc?)
                || g.answer == Restart(e, k, delta, a.Keys + DimSet(dims)))
    decreases n
  {
    match n
    case Leaf(entry) =>
      assert DimSet(dims) == {} && a.Keys + {} == a.Keys;
      ExactAt(e, a, k);
      if entry.content.Sub? {
        var l := entry.content.level;
        assert Demand(DimSet(l.dims)) == e(k, a.Keys);
        if Missing(l.dims, delta) == {} {
          assert forall d :: d in l.dims ==> d !in Missing(l.dims, delta);
          GetRestarts(l.node, l.dims, a, e, addrs, k, delta, MaxAge(retirement, entry.age));
        } else {
          assert Missing(l.dims, delta) == DimSet(l.dims) - delta.dims;
        }
      }
    case Branch(ch) =>
      var c := k.Lookup(dims[0]);
      var b := a[dims[0] := c];
      assert DimSet(dims) == {dims[0]} + DimSet(dims[1..]);
      if c in ch {
        assert b.Keys + DimSet(dims[1..]) == a.Keys + DimSet(dims);
        GetRestarts(ch[c], dims[1..], b, e, addrs, k, delta, retirement);
      }
  }

  /**
   Whatever evaluations have shared the cache, and however their steps interleaved: a question is
   answered calc, or it loops because its entry is pending, or the answer is the one that
   evaluation without a cache gives.
   */
  lemma EveryAnswerIsRight(e: Evaluator, evs: seq<Event>, k: Context, delta: Delta)
    requires Honest(e) && HonestRun(e, START, evs) && !delta.all
    ensures Run(START, evs).Machines?
    ensures var m := Run(START, evs).machine;
            var g := GetStore(m.store, k, delta);
            && g.Answered?
            && (g.answer.Calc?
                || (g.answer == Special(SpLoop) &&
                    exists i :: 0 <= i < |m.owners| && MarkerOf(m, i) == Find(m.store, k))
                || g.answer == Restart(e, k, delta, {}))
  {
    SharedThroughout(e, START, evs);
    var m := Run(START, evs).machine;
    if m.store.tree.Some? {
      var n, r, addrs := m.store.tree.value.node, m.store.retirement, Addrs(m);
      var top: Addr := map[];
      assert Missing([], delta) == {} && top.Keys + DimSet([]) == {};
      GetRestarts(n, [], map[], e, addrs, k, delta, r);
      var spot := Locate(n, [], map[], k);
      if spot.Spot? && spot.value.Calc? {
        LocateSound(n, [], map[], MarkersAt(addrs), k);
        assert spot.addr in addrs;
        var i :| 0 <= i < |m.owners| && MarkerOf(m, i).Spot? && MarkerOf(m, i).addr == spot.addr;
        OwnerHasTree(m, i);
        assert MarkerOf(m, i) == spot;
      }
    }
  }
}
