/** Entries in use survive: what was got since the last sweep is still there after the next one. */
module CacheSurvival {
  import opened Constants
  import opened WarehouseTree
  import opened CacheAges
  import opened Warehouse

  ghost predicate NoNegativeAges(w: Store) {
    forall at :: AgeIn(w, at).Some? ==> AgeIn(w, at).value >= 0
  }

  /** No step of the protocol makes an age negative. */
  lemma StepKeepsAges(m: Machine, ev: Event)
    requires Orderly(m) && Legal(m, ev) && NoNegativeAges(m.store)
    ensures Step(m, ev).Machines? && NoNegativeAges(Step(m, ev).machine.store)
  {
    StepKeepsOrder(m, ev);
    var w, rule := m.store, MarkersAt(Addrs(m));
    var w' := Step(m, ev).machine.store;
    match ev
    case Ask(k, delta) =>
      GetAgesStore(w, rule, k, delta);
      forall at | AgeIn(w', at).Some? ensures AgeIn(w', at).value >= 0 {
        assert AgedByGet(AgeIn(w, at), AgeIn(w', at), OnEntry(k, delta, at),
                         MarkedAt(w', k, GetStore(w, k, delta).answer, at));
      }
    case Reply(who, value) =>
      forall at ensures AgeIn(w', at) == AgeIn(w, at) {
        ReplyAges(m, who, value, at);
      }
    case Sweep =>
      if w.tree.Some? {
        forall at | AgeIn(w', at).Some? ensures AgeIn(w', at).value >= 0 {
          CollectAges(w.tree.value.node, w.tree.value.dims, map[], w.retirement, at);
          assert AgeIn(w, at).Some?;
        }
      }
  }

  lemma ReplyAges(m: Machine, who: nat, value: Constant, at: Addr)
    requires Orderly(m) && Legal(m, Reply(who, value))
    ensures Step(m, Reply(who, value)).Machines?
    ensures var w' := Step(m, Reply(who, value)).machine.store;
            AgeIn(w', at) == AgeIn(m.store, at) && w'.retirement == m.store.retirement
  {
    OwnerHasTree(m, who);
    SetAges(m.store.tree.value.node, [], map[], MarkersAt(Addrs(m)), m.owners[who].k, value, at);
  }

  lemma {:induction false} RunKeepsAges(m: Machine, evs: seq<Event>)
    requires Orderly(m) && LegalRun(m, evs) && NoNegativeAges(m.store)
    ensures Run(m, evs).Machines? && Orderly(Run(m, evs).machine) && NoNegativeAges(Run(m, evs).machine.store)
    decreases |evs|
  {
    if evs != [] {
      StepKeepsOrder(m, evs[0]);
      StepKeepsAges(m, evs[0]);
      RunKeepsAges(Step(m, evs[0]).machine, evs[1..]);
    }
  }

  // ---------------------------------------------------------------------------------------------
  // An entry that was got

  /** A finished entry that has just been got, in a cache that retires nothing so young. */
  ghost predicate Young(m: Machine, k: Context, spot: Spot) {
    && Orderly(m)
    && spot.Spot? && !spot.value.Calc? && Find(m.store, k) == spot
    && AgeIn(m.store, spot.addr) == Some(0) && m.store.retirement >= 0
  }

  lemma GotIsYoung(m: Machine, k: Context, delta: Delta)
    requires Orderly(m) && NoNegativeAges(m.store)
    requires Find(m.store, k).Spot? && !Find(m.store, k).value.Calc? && OnEntry(k, delta, Find(m.store, k).addr)
    ensures var g := GetStore(m.store, k, delta);
            && g.Answered? && g.answer == Find(m.store, k).value
            && Step(m, Ask(k, delta)) == Machines(Machine(g.store, m.owners))
            && Young(Machine(g.store, m.owners), k, Find(m.store, k))
  {
    var w, spot, rule := m.store, Find(m.store, k), MarkersAt(Addrs(m));
    var n := w.tree.value.node;
    AskKeepsOrder(m, k, delta);
    GetAnswersEntry(n, [], map[], rule, k, delta, w.retirement);
    GetLocate(n, [], map[], rule, k, delta, w.retirement, k);
    AgeAtAddress(n, [], map[], rule, k);
    GetAgesStore(w, rule, k, delta);
    var g := GetStore(w, k, delta);
    assert AgedByGet(AgeIn(w, spot.addr), AgeIn(g.store, spot.addr), OnEntry(k, delta, spot.addr),
                     MarkedAt(g.store, k, g.answer, spot.addr));
  }

  /** Until the next sweep it stays so, whatever others ask and set. */
  lemma StaysYoung(m: Machine, ev: Event, k: Context, spot: Spot)
    requires Young(m, k, spot) && Legal(m, ev) && !ev.Sweep?
    ensures Step(m, ev).Machines? && Young(Step(m, ev).machine, k, spot)
  {
    StepKeepsOrder(m, ev);
    var w, rule := m.store, MarkersAt(Addrs(m));
    var n, w' := w.tree.value.node, Step(m, ev).machine.store;
    match ev
    case Ask(other, delta) =>
      GetAgesStore(w, rule, other, delta);
      GetLocate(n, [], map[], rule, other, delta, w.retirement, k);
      assert AgedByGet(AgeIn(w, spot.addr), AgeIn(w', spot.addr), OnEntry(other, delta, spot.addr),
                       MarkedAt(w', other, GetStore(w, other, delta).answer, spot.addr));
    case Reply(who, value) =>
      ReplyAges(m, who, value, spot.addr);
      OwnerHasTree(m, who);
      var owner := m.owners[who].k;
      if Matches(k, MarkerOf(m, who).addr) {
        LocateByAddress(n, [], map[], rule, owner, k);
        assert false;
      }
      SetLocate(n, [], map[], rule, owner, value, k);
  }

  lemma {:induction false} RunStaysYoung(m: Machine, evs: seq<Event>, k: Context, spot: Spot)
    requires Young(m, k, spot) && LegalRun(m, evs) && Sweep !in evs
    ensures Run(m, evs).Machines? && Young(Run(m, evs).machine, k, spot)
    decreases |evs|
  {
    if evs != [] {
      StaysYoung(m, evs[0], k, spot);
      RunStaysYoung(Step(m, evs[0]).machine, evs[1..], k, spot);
    }
  }

  /** The next sweep spares a young entry, and it answers as before. */
  lemma YoungIsSpared(m: Machine, k: Context, delta: Delta, spot: Spot)
    requires Young(m, k, spot) && OnEntry(k, delta, spot.addr)
    ensures Step(m, Sweep).Machines?
    ensures var g := GetStore(Step(m, Sweep).machine.store, k, delta);
            g.Answered? && g.answer == spot.value
  {
    var n, rule, r := m.store.tree.value.node, MarkersAt(Addrs(m)), m.store.retirement;
    AgeAtAddress(n, [], map[], rule, k);
    CollectSpares(n, [], map[], rule, k, r);
    CollectSound(n, [], map[], rule, r);
    GetAnswersEntry(Collect(n, r).1, [], map[], rule, k, delta, r - 1);
  }

  /**
   A finished entry that was got since the last sweep is found after the next one: however the cache
   was used before, and whatever others asked and set in between, the same get answers the same.
   */
  lemma GotEntrySurvives(evs: seq<Event>, k: Context, delta: Delta, more: seq<Event>)
    requires LegalRun(START, evs) && Run(START, evs).Machines?
    requires var spot := Find(Run(START, evs).machine.store, k);
             spot.Spot? && !spot.value.Calc? && OnEntry(k, delta, spot.addr)
    ensures var m := Run(START, evs).machine;
            var got := Step(m, Ask(k, delta));
            && got.Machines?
            && (LegalRun(got.machine, more) && Sweep !in more ==>
                  var then' := Run(got.machine, more);
                  && then'.Machines? && Step(then'.machine, Sweep).Machines?
                  && var before := GetStore(m.store, k, delta);
                     var after := GetStore(Step(then'.machine, Sweep).machine.store, k, delta);
                     before.Answered? && after.Answered? && after.answer == before.answer == Find(m.store, k).value)
  {
    RunKeepsAges(START, evs);
    var m := Run(START, evs).machine;
    var spot := Find(m.store, k);
    GotIsYoung(m, k, delta);
    var got := Step(m, Ask(k, delta)).machine;
    if LegalRun(got, more) && Sweep !in more {
      RunStaysYoung(got, more, k, spot);
      YoungIsSpared(Run(got, more).machine, k, delta, spot);
    }
  }
}
