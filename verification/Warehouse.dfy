/**
 The cache object and the protocol its callers follow: a caller that is answered `calc` owns the
 entry and must set it; nobody else may be told to calculate it in the meantime.
 */
module Warehouse {
  import opened Constants
  import opened WarehouseTree
  import opened CacheAges

  /** The fields of a cache. The hit and miss counters are left out. */
  datatype Store = Store(tree: Option<Level>, retirement: int)

  datatype GetResult = Answered(answer: Constant, store: Store) | GetThrows
  datatype SetResult = Updated(store: Store) | SetThrows

  function GetStore(w: Store, k: Context, delta: Delta): GetResult {
    match w.tree
    case None => Answered(Calc, w.(tree := Some(FIRST_LEVEL)))
    case Some(l) =>
      if Missing(l.dims, delta) != {} then Answered(Demand(Missing(l.dims, delta)), w) else
      match GetNode(l.node, l.dims, k, delta, w.retirement)
      case GetError => GetThrows
      case Got(answer, node, r) => Answered(answer, Store(Some(Level(l.dims, node)), r))
  }

  function SetStore(w: Store, k: Context, value: Constant): SetResult {
    match w.tree
    case None => SetThrows
    case Some(l) =>
      match SetNode(l.node, l.dims, k, value)
      case SetError => SetThrows
      case Stored(node) => Updated(w.(tree := Some(Level(l.dims, node))))
  }

  function CollectStore(w: Store): Store {
    match w.tree
    case None => w
    case Some(l) => Store(Some(Level(l.dims, Collect(l.node, w.retirement).1)), w.retirement - 1)
  }

  const EMPTY_STORE: Store := Store(None, 2)

  // ---------------------------------------------------------------------------------------------
  // The store's invariant: the first level has no dimensions

  ghost predicate StoreInv(w: Store, rule: Rule) {
    w.tree.Some? ==> w.tree.value.dims == [] && Inv(w.tree.value.node, [], map[], rule)
  }

  ghost function Find(w: Store, k: Context): Spot {
    if w.tree.None? then Nowhere else Locate(w.tree.value.node, w.tree.value.dims, map[], k)
  }

  /** The age of the entry at an address. */
  ghost function AgeIn(w: Store, at: Addr): Option<int> {
    if w.tree.None? then None else AgeOf(w.tree.value.node, w.tree.value.dims, map[], at)
  }

  /** The address of the marker that a get added. */
  ghost predicate MarkedAt(w: Store, k: Context, answer: Constant, at: Addr) {
    answer.Calc? && Find(w, k).Spot? && at == Find(w, k).addr
  }

  /**
   What a get does to the ages: the entries it passes become young, a marker it adds is young, and no
   other entry changes. The retirement age rises to the greatest age of an entry that it passed.
   */
  ghost predicate AgesAfterGet(w: Store, k: Context, delta: Delta, answer: Constant, after: Store) {
    && (answer.Calc? ==> Find(after, k).Spot?)
    && (forall at :: AgedByGet(AgeIn(w, at), AgeIn(after, at), OnEntry(k, delta, at), MarkedAt(after, k, answer, at)))
    && w.retirement <= after.retirement
    && (forall at :: OnEntry(k, delta, at) && AgeIn(w, at).Some? ==> AgeIn(w, at).value <= after.retirement)
    && (after.retirement == w.retirement ||
        exists at :: OnEntry(k, delta, at) && AgeIn(w, at) == Some(after.retirement))
  }

  lemma GetAgesStore(w: Store, rule: Rule, k: Context, delta: Delta)
    requires StoreInv(w, rule)
    ensures var g := GetStore(w, k, delta);
            g.Answered? && AgesAfterGet(w, k, delta, g.answer, g.store)
  {
    if w.tree.Some? {
      var n, r := w.tree.value.node, w.retirement;
      assert Missing([], delta) == {};
      GetRetirement(n, [], map[], rule, k, delta, r);
      GetAges(n, [], map[], rule, k, delta, r, map[]);
      var g := GetStore(w, k, delta);
      forall at
        ensures AgedByGet(AgeIn(w, at), AgeIn(g.store, at), OnEntry(k, delta, at), MarkedAt(g.store, k, g.answer, at))
      {
        GetAges(n, [], map[], rule, k, delta, r, at);
      }
    }
  }

  /** The cache object: a tree that gets, sets and sweeps change in place. */
  class Cache {
    var tree: Option<Level>
    var retirement: int

    ghost function Contents(): Store
      reads this
    {
      Store(tree, retirement)
    }

    constructor ()
      ensures Contents() == EMPTY_STORE
    {
      tree, retirement := None, 2;
    }

    /** Collects the dimensions of a level that are not supplied, one by one. */
    method Demands(dims: seq<Dim>, delta: Delta) returns (demands: set<Dim>)
      ensures demands == Missing(dims, delta)
    {
      demands := {};
      for i := 0 to |dims|
        invariant demands == Missing(dims[..i], delta)
      {
        assert dims[..i + 1] == dims[..i] + [dims[i]];
        if !delta.Contains(dims[i]) {
          demands := demands + {dims[i]};
        }
      }
      assert dims[..|dims|] == dims;
    }

    method Get(k: Context, delta: Delta) returns (answer: Constant, thrown: bool)
      modifies this
      ensures thrown <==> old(GetStore(Contents(), k, delta)).GetThrows?
      ensures !thrown ==> old(GetStore(Contents(), k, delta)) == Answered(answer, Contents())
      ensures forall rule :: old(StoreInv(Contents(), rule)) ==>
                !thrown && AgesAfterGet(old(Contents()), k, delta, answer, Contents())
      ensures thrown ==> Contents() == old(Contents())
    {
      forall rule | StoreInv(Contents(), rule)
        ensures var g := GetStore(Contents(), k, delta);
                g.Answered? && AgesAfterGet(Contents(), k, delta, g.answer, g.store)
      {
        GetAgesStore(Contents(), rule, k, delta);
      }
      thrown := false;
      match tree {
        case None =>
          tree := Some(FIRST_LEVEL);
          answer := Calc;
        case Some(l) =>
          var demands := Demands(l.dims, delta);
          if demands != {} {
            answer := Demand(demands);
          } else {
            match GetNode(l.node, l.dims, k, delta, retirement) {
              case GetError => answer, thrown := Calc, true;
              case Got(found, node, r) =>
                answer := found;
                tree, retirement := Some(Level(l.dims, node)), r;
            }
          }
      }
    }

    method Set(k: Context, value: Constant) returns (thrown: bool)
      modifies this`tree
      ensures thrown <==> old(SetStore(Contents(), k, value)).SetThrows?
      ensures !thrown ==> old(SetStore(Contents(), k, value)) == Updated(Contents())
      ensures thrown ==> Contents() == old(Contents())
    {
      thrown := true;
      if tree.Some? {
        var l := tree.value;
        match SetNode(l.node, l.dims, k, value) {
          case SetError =>
          case Stored(node) =>
            tree := Some(Level(l.dims, node));
            thrown := false;
        }
      }
    }

    /** Visits every child of a map and erases those whose subtree can be collected. */
    method CollectNode(n: Node) returns (collect: bool, left: Node)
      ensures (collect, left) == Collect(n, retirement)
      decreases n
    {
      match n {
        case Leaf(e) =>
          var below, content := true, e.content;
          if e.content.Sub? {
            var node;
            below, node := CollectNode(e.content.level.node);
            content := Sub(Level(e.content.level.dims, node));
          }
          if below && e.age > retirement {
            collect, left := true, Leaf(Entry(content, e.age));
          } else {
            collect, left := false, Leaf(Entry(content, e.age + 1));
          }
        case Branch(ch) =>
          var kept: map<Constant, Node> := map[];
          var todo := ch.Keys;
          while todo != {}
            invariant todo <= ch.Keys
            invariant kept == map c | c in ch && c !in todo && !Collect(ch[c], retirement).0 ::
                                Collect(ch[c], retirement).1
            decreases todo
          {
            var c :| c in todo;
            var gone, node := CollectNode(ch[c]);
            if !gone {
              kept := kept[c := node];
            }
            todo := todo - {c};
          }
          assert kept == Collect(n, retirement).1.children;
          collect, left := kept == map[], Branch(kept);
      }
    }

    method GarbageCollect()
      modifies this
      ensures Contents() == CollectStore(old(Contents()))
    {
      if tree.Some? {
        var _, node := CollectNode(tree.value.node);
        tree := Some(Level(tree.value.dims, node));
        retirement := retirement - 1;
      }
    }
  }


  /**
   Below the first entry a sweep deletes exactly what has retired and ages the rest by one. The
   first entry is never deleted, since nobody looks at the verdict on it; but it is then not aged
   either, if it and everything beneath it has retired.
   */
  lemma GarbageCollectSweeps(w: Store, rule: Rule)
    requires StoreInv(w, rule) && w.tree.Some?
    ensures var before, after := w.tree.value.node, CollectStore(w).tree.value.node;
            && CollectStore(w).retirement == w.retirement - 1
            && CollectStore(w).tree.value.dims == []
            && before.Leaf? && after.Leaf?
            && (if Retired(before, w.retirement) then
                  && after.entry.age == before.entry.age
                  && (before.entry.content.Value? ==> after == before)
                  && (before.entry.content.Sub? ==>
                        after.entry.content == Sub(Level(before.entry.content.level.dims, Branch(map[]))))
                else Swept(before, after, w.retirement))
  {
    var n := w.tree.value.node;
    CollectSweeps(n, [], map[], rule, w.retirement);
    if n.entry.content.Sub? {
      var l := n.entry.content.level;
      CollectSweeps(l.node, l.dims, map[], rule, w.retirement);
    }
  }

  // ---------------------------------------------------------------------------------------------
  // The protocol

  /** Somebody who was answered calc, for this context and these supplied dimensions. */
  datatype Owner = Owner(k: Context, delta: Delta)

  datatype Machine = Machine(store: Store, owners: seq<Owner>)

  datatype Event = Ask(k: Context, delta: Delta) | Reply(who: nat, value: Constant) | Sweep

  datatype Next = Machines(machine: Machine) | CacheError

  /**
   A sweep leaves the marker of a pending owner in place: the marker is the first entry, or it is not
   older than the retirement age.
   */
  ghost predicate Spared(m: Machine, i: nat)
    requires i < |m.owners|
  {
    && MarkerOf(m, i).Spot?
    && var l := m.store.tree.value;
       (l.node.Leaf? && l.node.entry.content.Value?) ||
           AgeAt(l.node, l.dims, map[], m.owners[i].k) <= m.store.retirement
  }

  ghost predicate AllSpared(m: Machine) {
    forall i :: 0 <= i < |m.owners| ==> Spared(m, i)
  }

  /**
   Callers answer their own calc, with a value or with a demand for something they did not have; a
   sweep meanwhile spares every pending marker.
   */
  ghost predicate Legal(m: Machine, ev: Event) {
    match ev
    case Ask(_, _) => true
    case Reply(who, value) =>
      && who < |m.owners|
      && !value.Calc?
      && (value.Demand? ==> value.dims != {} && forall d :: d in value.dims ==> !m.owners[who].delta.Contains(d))
    case Sweep => AllSpared(m)
  }

  function Step(m: Machine, ev: Event): Next {
    match ev
    case Ask(k, delta) =>
      (match GetStore(m.store, k, delta)
       case GetThrows => CacheError
       case Answered(answer, w) =>
         Machines(Machine(w, if answer.Calc? then m.owners + [Owner(k, delta)] else m.owners)))
    case Reply(who, value) =>
      if who >= |m.owners| then CacheError else
      (match SetStore(m.store, m.owners[who].k, value)
       case SetThrows => CacheError
       case Updated(w) => Machines(Machine(w, m.owners[..who] + m.owners[who + 1..])))
    case Sweep => Machines(m.(store := CollectStore(m.store)))
  }

  const START: Machine := Machine(EMPTY_STORE, [])

  function Run(m: Machine, evs: seq<Event>): Next
    decreases |evs|
  {
    if evs == [] then Machines(m) else
    match Step(m, evs[0])
    case CacheError => CacheError
    case Machines(m') => Run(m', evs[1..])
  }

  ghost predicate LegalRun(m: Machine, evs: seq<Event>)
    decreases |evs|
  {
    evs == [] || (Legal(m, evs[0]) && (Step(m, evs[0]).Machines? ==> LegalRun(Step(m, evs[0]).machine, evs[1..])))
  }

  /** Markers stand only at these addresses. */
  ghost function MarkersAt(addrs: set<Addr>): Rule {
    (x: Addr, c: Constant) => c.Calc? ==> x in addrs
  }

  ghost function MarkerOf(m: Machine, i: nat): Spot
    requires i < |m.owners|
  {
    Find(m.store, m.owners[i].k)
  }

  ghost function Addrs(m: Machine): set<Addr> {
    set i | 0 <= i < |m.owners| && MarkerOf(m, i).Spot? :: MarkerOf(m, i).addr
  }

  /** Each owner has its own marker, and there are no other markers. */
  ghost predicate Orderly(m: Machine) {
    && StoreInv(m.store, MarkersAt(Addrs(m)))
    && (forall i :: 0 <= i < |m.owners| ==>
          MarkerOf(m, i).Spot? && MarkerOf(m, i).value == Calc
          && forall d :: d in MarkerOf(m, i).addr ==> m.owners[i].delta.Contains(d))
    && (forall i, j :: 0 <= i < j < |m.owners| ==> MarkerOf(m, i).addr != MarkerOf(m, j).addr)
  }

  /** Where somebody is pending there is a tree. */
  lemma OwnerHasTree(m: Machine, i: nat)
    requires Orderly(m) && i < |m.owners|
    ensures m.store.tree.Some? && MarkerOf(m, i).Spot?
  {
    assert MarkerOf(m, i).Spot?;
  }

  lemma AskKeepsOrder(m: Machine, k: Context, delta: Delta)
    requires Orderly(m)
    ensures Step(m, Ask(k, delta)).Machines? && Orderly(Step(m, Ask(k, delta)).machine)
  {
    if m.store.tree.None? {
      var m' := Step(m, Ask(k, delta)).machine;
      assert |m.owners| > 0 ==> MarkerOf(m, 0).Spot?;
      assert MarkerOf(m', 0) == Spot(map[], Calc);
      assert map[] in Addrs(m');
    } else {
      var n, r := m.store.tree.value.node, m.store.retirement;
      var rule := MarkersAt(Addrs(m));
      GetSound(n, [], map[], rule, rule, k, delta, r);
      var g := GetNode(n, [], k, delta, r);
      var m' := Step(m, Ask(k, delta)).machine;
      forall i | 0 <= i < |m.owners| ensures MarkerOf(m', i) == MarkerOf(m, i) {
        GetLocate(n, [], map[], rule, k, delta, r, m.owners[i].k);
      }
      if g.answer.Calc? {
        var added := MarkerOf(m', |m.owners|).addr;
        forall i | 0 <= i < |m.owners| ensures MarkerOf(m, i).addr != added {
          if MarkerOf(m, i).addr == added {
            LocateByAddress(n, [], map[], rule, m.owners[i].k, k);
            assert false;
          }
        }
        forall x | x in Addrs(m) ensures x in Addrs(m') {
          var i :| 0 <= i < |m.owners| && MarkerOf(m, i).Spot? && MarkerOf(m, i).addr == x;
          assert MarkerOf(m', i).addr == x;
        }
        GetSound(n, [], map[], rule, MarkersAt(Addrs(m')), k, delta, r);
      } else {
        assert Addrs(m') == Addrs(m);
      }
    }
  }

  /** A reply changes nobody else's marker. */
  lemma OtherMarker(m: Machine, who: nat, value: Constant, j: nat)
    requires Orderly(m) && Legal(m, Reply(who, value)) && j < |m.owners| && j != who
    ensures Step(m, Reply(who, value)).Machines?
    ensures Find(Step(m, Reply(who, value)).machine.store, m.owners[j].k) == MarkerOf(m, j)
  {
    OwnerHasTree(m, who);
    OwnerHasTree(m, j);
    var n := m.store.tree.value.node;
    var rule := MarkersAt(Addrs(m));
    var k, other := m.owners[who].k, m.owners[j].k;
    assert MarkerOf(m, j).addr != MarkerOf(m, who).addr;
    SetLocate(n, [], map[], rule, k, value, other);
    if Matches(other, MarkerOf(m, who).addr) {
      LocateByAddress(n, [], map[], rule, k, other);
      assert false;
    }
  }

  /** A reply changes no marker but the replier's own. */
  lemma ReplyMarkers(m: Machine, who: nat, value: Constant)
    requires Orderly(m) && Legal(m, Reply(who, value))
    ensures Step(m, Reply(who, value)).Machines?
    ensures var m' := Step(m, Reply(who, value)).machine;
            && (forall j {:trigger m.owners[j]} :: 0 <= j < who ==>
                  m'.owners[j] == m.owners[j] && MarkerOf(m', j) == MarkerOf(m, j))
            && (forall j {:trigger m'.owners[j]} :: who <= j < |m'.owners| ==>
                  m'.owners[j] == m.owners[j + 1] && MarkerOf(m', j) == MarkerOf(m, j + 1))
  {
    OwnerHasTree(m, who);
    SetLocate(m.store.tree.value.node, [], map[], MarkersAt(Addrs(m)), m.owners[who].k, value, m.owners[who].k);
    var m' := Step(m, Reply(who, value)).machine;
    forall j: nat | j < who ensures m'.owners[j] == m.owners[j] && MarkerOf(m', j) == MarkerOf(m, j) {
      OtherMarker(m, who, value, j);
    }
    forall j: nat | who <= j < |m'.owners|
      ensures m'.owners[j] == m.owners[j + 1] && MarkerOf(m', j) == MarkerOf(m, j + 1)
    {
      OtherMarker(m, who, value, j + 1);
    }
  }

  lemma ReplyAddrs(m: Machine, who: nat, value: Constant)
    requires Orderly(m) && Legal(m, Reply(who, value))
    ensures Step(m, Reply(who, value)).Machines?
    ensures var m' := Step(m, Reply(who, value)).machine;
            forall x :: x in Addrs(m) && x != MarkerOf(m, who).addr ==> x in Addrs(m')
  {
    ReplyMarkers(m, who, value);
    var m' := Step(m, Reply(who, value)).machine;
    forall x | x in Addrs(m) && x != MarkerOf(m, who).addr ensures x in Addrs(m') {
      var j :| 0 <= j < |m.owners| && MarkerOf(m, j).Spot? && MarkerOf(m, j).addr == x;
      var j' := if j < who then j else j - 1;
      assert m'.owners[j'] == m.owners[j];
      assert MarkerOf(m', j').addr == x;
    }
  }

  lemma ReplyKeepsInv(m: Machine, who: nat, value: Constant)
    requires Orderly(m) && Legal(m, Reply(who, value))
    ensures Step(m, Reply(who, value)).Machines?
    ensures var m' := Step(m, Reply(who, value)).machine;
            StoreInv(m'.store, MarkersAt(Addrs(m')))
  {
    ReplyAddrs(m, who, value);
    var m' := Step(m, Reply(who, value)).machine;
    OwnerHasTree(m, who);
    var n := m.store.tree.value.node;
    var addr := MarkerOf(m, who).addr;
    assert forall d :: d in addr ==> m.owners[who].delta.Contains(d);
    SetSound(n, [], map[], MarkersAt(Addrs(m)), MarkersAt(Addrs(m')), m.owners[who].k, value);
  }

  lemma ReplyKeepsOrder(m: Machine, who: nat, value: Constant)
    requires Orderly(m) && Legal(m, Reply(who, value))
    ensures Step(m, Reply(who, value)).Machines? && Orderly(Step(m, Reply(who, value)).machine)
  {
    ReplyMarkers(m, who, value);
    ReplyKeepsInv(m, who, value);
    var m' := Step(m, Reply(who, value)).machine;
    forall i | 0 <= i < |m'.owners|
      ensures var i' := if i < who then i else i + 1;
              m'.owners[i] == m.owners[i'] && MarkerOf(m', i) == MarkerOf(m, i')
    {
      if i < who { assert m.owners[i] == m.owners[i]; } else { assert m'.owners[i] == m'.owners[i]; }
    }
    forall i, j | 0 <= i < j < |m'.owners| ensures MarkerOf(m', i).addr != MarkerOf(m', j).addr {
      var i', j' := if i < who then i else i + 1, if j < who then j else j + 1;
      assert MarkerOf(m, i').addr != MarkerOf(m, j').addr;
    }
  }

  /** What a sweep does to one pending marker. */
  lemma SweptMarker(m: Machine, i: nat)
    requires Orderly(m) && i < |m.owners|
    ensures Step(m, Sweep).Machines?
    ensures var m' := Step(m, Sweep).machine;
            m'.owners == m.owners && MarkerOf(m', i) == if Spared(m, i) then MarkerOf(m, i) else Nowhere
  {
    OwnerHasTree(m, i);
    CollectSpares(m.store.tree.value.node, [], map[], MarkersAt(Addrs(m)), m.owners[i].k, m.store.retirement);
  }

  /** A sweep never throws, and keeps the order exactly if it spares every pending marker. */
  lemma SweepKeepsOrderExactly(m: Machine)
    requires Orderly(m)
    ensures Step(m, Sweep).Machines?
    ensures Orderly(Step(m, Sweep).machine) <==> AllSpared(m)
  {
    var m' := Step(m, Sweep).machine;
    forall i: nat | i < |m.owners| ensures MarkerOf(m', i) == if Spared(m, i) then MarkerOf(m, i) else Nowhere {
      SweptMarker(m, i);
    }
    if AllSpared(m) {
      assert Addrs(m') == Addrs(m);
      if m.store.tree.Some? {
        CollectSound(m.store.tree.value.node, [], map[], MarkersAt(Addrs(m)), m.store.retirement);
      }
    } else {
      var i :| 0 <= i < |m.owners| && !Spared(m, i);
      assert MarkerOf(m', i) == Nowhere;
    }
  }

  /** After a sweep with somebody pending, the reply throws exactly if the sweep did not spare the marker. */
  lemma ReplyAfterSweepExactly(m: Machine, who: nat, value: Constant)
    requires Orderly(m) && Legal(m, Reply(who, value))
    ensures Step(m, Sweep).Machines?
    ensures Step(Step(m, Sweep).machine, Reply(who, value)).Machines? <==> Spared(m, who)
  {
    SweptMarker(m, who);
    OwnerHasTree(m, who);
    var n, rule, k := m.store.tree.value.node, MarkersAt(Addrs(m)), m.owners[who].k;
    var n' := Collect(n, m.store.retirement).1;
    CollectSound(n, [], map[], rule, m.store.retirement);
    if Spared(m, who) {
      SetLocate(n', [], map[], rule, k, value, k);
    } else {
      SetMisses(n', [], map[], rule, k, value);
    }
  }

  /** One legal step never throws and keeps the order. */
  lemma StepKeepsOrder(m: Machine, ev: Event)
    requires Orderly(m) && Legal(m, ev)
    ensures Step(m, ev).Machines? && Orderly(Step(m, ev).machine)
  {
    match ev
    case Ask(k, delta) => AskKeepsOrder(m, k, delta);
    case Reply(who, value) => ReplyKeepsOrder(m, who, value);
    case Sweep =>
      SweepKeepsOrderExactly(m);
  }

  /** Whatever the interleaving of asks, replies and sparing sweeps, no cache error can be reached. */
  lemma {:induction false} NoCacheError(m: Machine, evs: seq<Event>)
    requires Orderly(m) && LegalRun(m, evs)
    ensures Run(m, evs).Machines? && Orderly(Run(m, evs).machine)
    decreases |evs|
  {
    if evs != [] {
      StepKeepsOrder(m, evs[0]);
      NoCacheError(Step(m, evs[0]).machine, evs[1..]);
    }
  }

  /** From an empty cache on there is no cache error. */
  lemma NoCacheErrorFromStart(evs: seq<Event>)
    requires LegalRun(START, evs)
    ensures Run(START, evs).Machines? && Orderly(Run(START, evs).machine)
  {
    NoCacheError(START, evs);
  }

  /** While an entry is being calculated, every get on it is told that it loops, and changes no owner. */
  lemma PendingLoops(evs: seq<Event>, i: nat, k: Context, delta: Delta)
    requires LegalRun(START, evs) && Run(START, evs).Machines?
    requires i < |Run(START, evs).machine.owners|
    requires MarkerOf(Run(START, evs).machine, i).Spot? ==> OnEntry(k, delta, MarkerOf(Run(START, evs).machine, i).addr)
    ensures var m := Run(START, evs).machine;
            var g := GetStore(m.store, k, delta);
            && g.Answered? && g.answer == Special(SpLoop)
            && Step(m, Ask(k, delta)) == Machines(Machine(g.store, m.owners))
  {
    NoCacheErrorFromStart(evs);
    var m := Run(START, evs).machine;
    OwnerHasTree(m, i);
    var rule := MarkersAt(Addrs(m));
    var n := m.store.tree.value.node;
    LocateByAddress(n, [], map[], rule, m.owners[i].k, k);
    GetAnswersEntry(n, [], map[], rule, k, delta, m.store.retirement);
  }

  /** An entry under calculation has exactly one owner: whoever else is pending does not match its address. */
  lemma OneOwner(evs: seq<Event>, i: nat, j: nat)
    requires LegalRun(START, evs) && Run(START, evs).Machines?
    requires i < |Run(START, evs).machine.owners| && j < |Run(START, evs).machine.owners|
    ensures var m := Run(START, evs).machine;
            && MarkerOf(m, i).Spot?
            && (Matches(m.owners[j].k, MarkerOf(m, i).addr) ==> i == j)
  {
    NoCacheErrorFromStart(evs);
    var m := Run(START, evs).machine;
    OwnerHasTree(m, i);
    var rule := MarkersAt(Addrs(m));
    var n := m.store.tree.value.node;
    if Matches(m.owners[j].k, MarkerOf(m, i).addr) {
      LocateByAddress(n, [], map[], rule, m.owners[i].k, m.owners[j].k);
    }
  }

  /** A reply overwrites the replier's own marker: from then on its own question is answered with what it set. */
  lemma ReplyIsHeard(evs: seq<Event>, who: nat, value: Constant)
    requires LegalRun(START, evs) && Run(START, evs).Machines?
    requires Legal(Run(START, evs).machine, Reply(who, value))
    ensures var m := Run(START, evs).machine;
            var next := Step(m, Reply(who, value));
            && next.Machines?
            && var g := GetStore(next.machine.store, m.owners[who].k, m.owners[who].delta);
               g.Answered? && g.answer == value
  {
    NoCacheErrorFromStart(evs);
    var m := Run(START, evs).machine;
    OwnerHasTree(m, who);
    var n := m.store.tree.value.node;
    assert forall d :: d in MarkerOf(m, who).addr ==> m.owners[who].delta.Contains(d);
    SetThenGet(n, [], map[], MarkersAt(Addrs(m)), m.owners[who].k, value, m.owners[who].delta, m.store.retirement);
  }

  /** A cache whose only entry needs dimension 1, with one subtree below it and the given ages. */
  function OneDimension(below: map<Constant, Node>, age: int, retirement: int): Store {
    Store(Some(Level([], Leaf(Entry(Sub(Level([1], Branch(below))), age)))), retirement)
  }

  function OldMarker(age: int): map<Constant, Node> {
    map[Intmp(7) := Leaf(Entry(Value(Calc), age))]
  }

  /** A sweep of the one-dimensional cache ages a marker that is not too old, and deletes one that is. */
  lemma SweepMarker(markerAge: int, age: int, retirement: int)
    ensures CollectStore(OneDimension(OldMarker(markerAge), age, retirement)) ==
            if markerAge <= retirement then OneDimension(OldMarker(markerAge + 1), age + 1, retirement - 1)
            else OneDimension(map[], if age > retirement then age else age + 1, retirement - 1)
  {
    var ch := OldMarker(markerAge);
    var marker := ch[Intmp(7)];
    assert ch.Keys == {Intmp(7)};
    var swept := Collect(Branch(ch), retirement);
    assert marker == Leaf(Entry(Value(Calc), markerAge));
    assert Collect(marker, retirement) ==
           if markerAge > retirement then (true, marker) else (false, Leaf(Entry(Value(Calc), markerAge + 1)));
    if markerAge <= retirement {
      assert swept.1.children == OldMarker(markerAge + 1);
      assert Intmp(7) in swept.1.children;
    } else {
      assert swept.1.children == map[];
    }
  }

  lemma AscendingOne()
    ensures Ascending({1}) == [1]
  {
    var asc := Ascending({1});
    assert forall i :: 0 <= i < |asc| ==> asc[i] in DimSet(asc);
    assert asc != [] by { assert 1 in DimSet(asc); }
  }

  /** The first two questions of a cache: nothing is known, then dimension 1 is demanded and supplied. */
  lemma FirstSteps(k: Context, none: Delta, one: Delta)
    requires k.Lookup(1) == Intmp(7) && one.Contains(1)
    ensures var m1 := Machine(Store(Some(FIRST_LEVEL), 2), [Owner(k, none)]);
            var m2 := Machine(OneDimension(map[], 0, 2), []);
            && Step(START, Ask(k, none)) == Machines(m1)
            && Step(m1, Reply(0, Demand({1}))) == Machines(m2)
            && Step(m2, Ask(k, one)) == Machines(Machine(OneDimension(OldMarker(0), 0, 2), [Owner(k, one)]))
  {
    AscendingOne();
    assert Missing([1], one) == {} && Missing([], one) == {};
    var below: map<Constant, Node> := map[];
    assert below[Intmp(7) := CalcChain([], k)] == OldMarker(0);
    assert GetNode(Branch(map[]), [1], k, one, 2) == Got(Calc, Branch(OldMarker(0)), 2);
  }

  lemma LastSteps(owner: Owner)
    requires owner.k.Lookup(1) == Intmp(7)
    ensures var m6 := Machine(OneDimension(map[], 2, -1), [owner]);
            && Step(Machine(OneDimension(OldMarker(0), 0, 2), [owner]), Sweep) ==
               Machines(Machine(OneDimension(OldMarker(1), 1, 1), [owner]))
            && Step(Machine(OneDimension(OldMarker(1), 1, 1), [owner]), Sweep) ==
               Machines(Machine(OneDimension(OldMarker(2), 2, 0), [owner]))
            && Step(Machine(OneDimension(OldMarker(2), 2, 0), [owner]), Sweep) == Machines(m6)
            && Step(m6, Reply(0, Intmp(0))) == CacheError
  {
    SweepMarker(0, 0, 2);
    SweepMarker(1, 1, 1);
    SweepMarker(2, 2, 0);
    assert SetNode(Branch(map[]), [1], owner.k, Intmp(0)) == SetError;
  }

  /** Sweeping while an entry is pending can delete its marker, and then the reply throws. */
  lemma SweepWhilePendingThrows(k: Context)
    requires k.Lookup(1) == Intmp(7)
    ensures var one := Delta({1}, false);
            var evs := [Ask(k, Delta({}, false)), Reply(0, Demand({1})), Ask(k, one), Sweep, Sweep, Sweep];
            && Run(START, evs).Machines?
            && Run(START, evs).machine.owners == [Owner(k, one)]
            && Step(Run(START, evs).machine, Reply(0, Intmp(0))) == CacheError
  {
    var none, one := Delta({}, false), Delta({1}, false);
    var owner := Owner(k, one);
    FirstSteps(k, none, one);
    LastSteps(owner);
    var evs := [Ask(k, none), Reply(0, Demand({1})), Ask(k, one), Sweep, Sweep, Sweep];
    RunOf6(START, Machine(Store(Some(FIRST_LEVEL), 2), [Owner(k, none)]), Machine(OneDimension(map[], 0, 2), []),
           Machine(OneDimension(OldMarker(0), 0, 2), [owner]), Machine(OneDimension(OldMarker(1), 1, 1), [owner]),
           Machine(OneDimension(OldMarker(2), 2, 0), [owner]), Machine(OneDimension(map[], 2, -1), [owner]), evs);
  }

  lemma RunOf6(m0: Machine, m1: Machine, m2: Machine, m3: Machine, m4: Machine, m5: Machine, m6: Machine,
               evs: seq<Event>)
    requires |evs| == 6
    requires Step(m0, evs[0]) == Machines(m1) && Step(m1, evs[1]) == Machines(m2) && Step(m2, evs[2]) == Machines(m3)
    requires Step(m3, evs[3]) == Machines(m4) && Step(m4, evs[4]) == Machines(m5) && Step(m5, evs[5]) == Machines(m6)
    ensures Run(m0, evs) == Machines(m6)
  {
    assert Run(m5, evs[5..]) == Run(m6, evs[5..][1..]);
    assert Run(m4, evs[4..]) == Run(m5, evs[4..][1..]);
    assert evs[4..][1..] == evs[5..];
    assert Run(m3, evs[3..]) == Run(m4, evs[3..][1..]);
    assert evs[3..][1..] == evs[4..];
    assert Run(m2, evs[2..]) == Run(m3, evs[2..][1..]);
    assert evs[2..][1..] == evs[3..];
    assert Run(m1, evs[1..]) == Run(m2, evs[1..][1..]);
    assert evs[1..][1..] == evs[2..];
  }
}
