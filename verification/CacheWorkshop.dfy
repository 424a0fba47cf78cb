/** The cached evaluator, and its agreement with the evaluator it speeds up. */
module CacheWorkshop {
  import opened Constants
  import opened ContextWindow
  import opened WarehouseTree
  import opened Warehouse

  /** The evaluator behind a cache: a context, and the dimensions of it that may be read. */
  type Evaluator = (Context, set<Dim>) -> Constant

  /**
   An evaluator reads only what it was given, and demands only what it was not given; it never
   answers the marker that the cache keeps for itself.
   */
  ghost predicate Honest(e: Evaluator) {
    && (forall k: Context, k': Context, s {:trigger e(k, s), e(k', s)} ::
          (forall d :: d in s ==> k.Lookup(d) == k'.Lookup(d)) ==> e(k, s) == e(k', s))
    && (forall k, s :: !e(k, s).Calc?)
    && (forall k, s :: e(k, s).Demand? ==> e(k, s).dims != {} && forall d :: d in e(k, s).dims ==> d !in s)
  }

  /** Evaluation without a cache: start from nothing, supply each demand in turn, stop at one that cannot be met. */
  ghost function Restart(e: Evaluator, k: Context, delta: Delta, s: set<Dim>): Constant
    requires Honest(e) && s <= delta.dims
    decreases delta.dims - s
  {
    var c := e(k, s);
    if !c.Demand? then c
    else if c.dims <= delta.dims then
      SomeMember(c.dims);
      Restart(e, k, delta, s + c.dims)
    else Demand(c.dims - delta.dims)
  }

  /** No demand ever leaves a finite universe of dimensions. */
  ghost predicate Within(e: Evaluator, universe: set<Dim>) {
    forall k, s :: e(k, s).Demand? ==> e(k, s).dims <= universe
  }

  /** Evaluation without a cache in which every demand is met. */
  ghost function Total(e: Evaluator, k: Context, universe: set<Dim>, s: set<Dim>): Constant
    requires Honest(e) && Within(e, universe) && s <= universe
    decreases universe - s
  {
    var c := e(k, s);
    if !c.Demand? then c else
      SomeMember(c.dims);
      Total(e, k, universe, s + c.dims)
  }

  /** If no demand went unmet, the two evaluations agree. */
  lemma {:induction false} RestartIsTotal(e: Evaluator, k: Context, delta: Delta, universe: set<Dim>, s: set<Dim>)
    requires Honest(e) && Within(e, universe) && s <= delta.dims && s <= universe
    requires !Restart(e, k, delta, s).Demand?
    ensures Restart(e, k, delta, s) == Total(e, k, universe, s)
    decreases delta.dims - s
  {
    var c := e(k, s);
    if c.Demand? {
      SomeMember(c.dims);
      if c.dims <= delta.dims {
        RestartIsTotal(e, k, delta, universe, s + c.dims);
      } else {
        assert false;
      }
    }
  }

  /** A demand that went unmet is non-empty, new to the caller, and within the universe. */
  lemma {:induction false} RestartDemands(e: Evaluator, k: Context, delta: Delta, universe: set<Dim>, s: set<Dim>)
    requires Honest(e) && Within(e, universe) && s <= delta.dims
    requires Restart(e, k, delta, s).Demand?
    ensures var dims := Restart(e, k, delta, s).dims;
            dims != {} && dims <= universe && forall d :: d in dims ==> d !in delta.dims
    decreases delta.dims - s
  {
    var c := e(k, s);
    SomeMember(c.dims);
    if c.dims <= delta.dims {
      RestartDemands(e, k, delta, universe, s + c.dims);
    } else {
      if c.dims - delta.dims == {} {
        forall d | d in c.dims ensures d in delta.dims { assert d !in c.dims - delta.dims; }
        assert false;
      }
    }
  }

  /** Evaluation depends on a context only through its lookups. */
  lemma {:induction false} RestartByLookups(e: Evaluator, k: Context, k': Context, delta: Delta, s: set<Dim>)
    requires Honest(e) && s <= delta.dims
    requires forall d :: k.Lookup(d) == k'.Lookup(d)
    ensures Restart(e, k, delta, s) == Restart(e, k', delta, s)
    decreases delta.dims - s
  {
    assert e(k, s) == e(k', s);
    var c := e(k, s);
    if c.Demand? && c.dims <= delta.dims {
      SomeMember(c.dims);
      RestartByLookups(e, k, k', delta, s + c.dims);
    }
  }

  // ---------------------------------------------------------------------------------------------
  // What the tree knows about the evaluator

  /** Every entry answers what the evaluator says for its address, having read the dimensions of that address. */
  ghost function Exact(e: Evaluator): Rule {
    (a: Addr, c: Constant) => c == e(Context(a), a.Keys)
  }

  /** The same, but for the one entry that is being calculated. */
  ghost function ExactBut(e: Evaluator, addr: Addr): Rule {
    (a: Addr, c: Constant) => c == e(Context(a), a.Keys) || (c.Calc? && a == addr)
  }

  lemma ExactAt(e: Evaluator, a: Addr, k: Context)
    requires Honest(e) && Matches(k, a)
    ensures e(Context(a), a.Keys) == e(k, a.Keys)
  {
    assert forall d :: d in a.Keys ==> Context(a).Lookup(d) == k.Lookup(d);
  }

  /**
   A get on a tree of exact entries answers what the evaluator says at the point the supplied
   dimensions lead to, less what is supplied, or else has marked exactly that point.
   */
  lemma {:induction false} GetExact(n: Node, dims: seq<Dim>, a: Addr, e: Evaluator, k: Context, delta: Delta,
                                    retirement: int)
    requires Honest(e) && Inv(n, dims, a, Exact(e)) && Matches(k, a)
    requires forall d :: d in a || d in dims ==> delta.Contains(d)
    ensures var g := GetNode(n, dims, k, delta, retirement);
            var s := Reach(n, dims, a, k, delta);
            && g.Got?
            && (g.answer.Calc? ==>
                  var found := Locate(g.node, dims, a, k);
                  found.Spot? && found.addr.Keys == s)
            && (!g.answer.Calc? ==>
                  var c := e(k, s);
                  && (c.Demand? ==> g.answer == Demand(set d | d in c.dims && !delta.Contains(d)))
                  && (!c.Demand? ==> g.answer == c)
                  && (!g.answer.Demand? ==>
                        Locate(n, dims, a, k).Spot? && Locate(g.node, dims, a, k) == Locate(n, dims, a, k)
                        && Locate(n, dims, a, k).value == c && Locate(n, dims, a, k).addr.Keys == s))
    decreases n
  {
    match n
    case Leaf(entry) =>
      ExactAt(e, a, k);
      if entry.content.Sub? {
        var l := entry.content.level;
        if Missing(l.dims, delta) == {} {
          assert forall d :: d in l.dims ==> d !in Missing(l.dims, delta);
          GetExact(l.node, l.dims, a, e, k, delta, MaxAge(retirement, entry.age));
        } else {
          assert Missing(l.dims, delta) == set d | d in e(k, a.Keys).dims && !delta.Contains(d);
        }
      }
    case Branch(ch) =>
      var c := k.Lookup(dims[0]);
      var b := a[dims[0] := c];
      if c in ch {
        GetExact(ch[c], dims[1..], b, e, k, delta, retirement);
      } else {
        ChainSound(dims[1..], k, b, Exact(e));
        assert DimSet(dims) == {dims[0]} + DimSet(dims[1..]);
      }
  }

  /** After a get has answered the whole next demand, supplying it leads exactly one level further. */
  lemma {:induction false} GetThenReach(n: Node, dims: seq<Dim>, a: Addr, rule: Rule, k: Context, delta: Delta,
                                        more: set<Dim>, retirement: int)
    requires Inv(n, dims, a, rule) && Matches(k, a) && !delta.all
    requires Reach(n, dims, a, k, delta) == delta.dims
    requires GetNode(n, dims, k, delta, retirement).Got? &&
             GetNode(n, dims, k, delta, retirement).answer == Demand(more)
    ensures Reach(GetNode(n, dims, k, delta, retirement).node, dims, a, k, Delta(delta.dims + more, false)) ==
            delta.dims + more
    decreases n
  {
    var wider := Delta(delta.dims + more, false);
    match n
    case Leaf(entry) =>
      if entry.content.Sub? {
        var l := entry.content.level;
        if Missing(l.dims, delta) == {} {
          assert forall d :: d in l.dims ==> d !in Missing(l.dims, delta);
          assert Missing(l.dims, wider) == {};
          GetThenReach(l.node, l.dims, a, rule, k, delta, more, MaxAge(retirement, entry.age));
        } else {
          assert more == DimSet(l.dims);
          assert forall d :: d in l.dims ==> d in DimSet(l.dims);
          assert Missing(l.dims, wider) == {};
          ReachStops(l.node, l.dims, a, rule, k, wider);
        }
      }
    case Branch(ch) =>
      var c := k.Lookup(dims[0]);
      GetThenReach(ch[c], dims[1..], a[dims[0] := c], rule, k, delta, more, retirement);
  }

  /** After a demand has been stored, supplying it leads exactly one level further. */
  lemma {:induction false} SetThenReach(n: Node, dims: seq<Dim>, a: Addr, rule: Rule, k: Context, more: set<Dim>)
    requires Inv(n, dims, a, rule) && Matches(k, a)
    requires Locate(n, dims, a, k).Spot?
    ensures var keys := Locate(n, dims, a, k).addr.Keys;
            var r := SetNode(n, dims, k, Demand(more));
            r.Stored? && Reach(r.node, dims, a, k, Delta(keys + more, false)) == keys + more
    decreases n
  {
    LocateSound(n, dims, a, rule, k);
    var wider := Delta(Locate(n, dims, a, k).addr.Keys + more, false);
    match n
    case Leaf(entry) =>
      if entry.content.Sub? {
        var l := entry.content.level;
        LocateSound(l.node, l.dims, a, rule, k);
        assert forall d :: d in l.dims ==> d in DimSet(l.dims);
        assert Missing(l.dims, wider) == {};
        SetThenReach(l.node, l.dims, a, rule, k, more);
      } else {
        var asc := Ascending(more);
        assert forall d :: d in asc ==> d in DimSet(asc);
        assert Missing(asc, wider) == {};
      }
    case Branch(ch) =>
      var c := k.Lookup(dims[0]);
      SetThenReach(ch[c], dims[1..], a[dims[0] := c], rule, k, more);
  }

  // ---------------------------------------------------------------------------------------------
  // The same, for a whole store

  ghost function Reached(w: Store, k: Context, delta: Delta): set<Dim> {
    if w.tree.None? then {} else Reach(w.tree.value.node, w.tree.value.dims, map[], k, delta)
  }

  /** What one get on an exact store does, when the supplied dimensions are just those on the way. */
  lemma StoreGet(w: Store, e: Evaluator, k: Context, delta: Delta)
    requires Honest(e) && StoreInv(w, Exact(e)) && !delta.all && Reached(w, k, delta) == delta.dims
    ensures var g := GetStore(w, k, delta);
            && g.Answered?
            && (g.answer.Calc? ==>
                  var found := Find(g.store, k);
                  && found.Spot? && found.addr.Keys == delta.dims && Matches(k, found.addr)
                  && StoreInv(g.store, ExactBut(e, found.addr)))
            && (!g.answer.Calc? ==>
                  && StoreInv(g.store, Exact(e)) && g.answer == e(k, delta.dims)
                  && (g.answer.Demand? ==>
                        Reached(g.store, k, Delta(delta.dims + g.answer.dims, false)) == delta.dims + g.answer.dims)
                  && (!g.answer.Demand? ==>
                        && Find(g.store, k).Spot? && Find(g.store, k).value == g.answer
                        && Find(g.store, k).addr.Keys == delta.dims))
  {
    var g := GetStore(w, k, delta);
    if w.tree.None? {
      assert Find(g.store, k) == Spot(map[], Calc);
    } else {
      var n, r := w.tree.value.node, w.retirement;
      assert Missing([], delta) == {};
      GetExact(n, [], map[], e, k, delta, r);
      var got := GetNode(n, [], k, delta, r);
      if got.answer.Calc? {
        GetSound(n, [], map[], Exact(e), ExactBut(e, Locate(got.node, [], map[], k).addr), k, delta, r);
      } else {
        GetSound(n, [], map[], Exact(e), Exact(e), k, delta, r);
        var c := e(k, delta.dims);
        if c.Demand? {
          assert (set d | d in c.dims && !delta.Contains(d)) == c.dims;
          GetThenReach(n, [], map[], Exact(e), k, delta, c.dims, r);
        }
      }
    }
  }

  /** Storing the evaluator's answer over the marker makes the store exact again. */
  lemma StoreSet(w: Store, e: Evaluator, k: Context)
    requires Honest(e) && w.tree.Some? && Find(w, k).Spot? && Matches(k, Find(w, k).addr)
    requires StoreInv(w, ExactBut(e, Find(w, k).addr))
    ensures var addr := Find(w, k).addr;
            var value := e(k, addr.Keys);
            var r := SetStore(w, k, value);
            && r.Updated? && StoreInv(r.store, Exact(e))
            && (value.Demand? ==>
                  Reached(r.store, k, Delta(addr.Keys + value.dims, false)) == addr.Keys + value.dims)
            && (!value.Demand? ==> Find(r.store, k) == Spot(addr, value))
  {
    var n := w.tree.value.node;
    var addr := Find(w, k).addr;
    var value := e(k, addr.Keys);
    ExactAt(e, addr, k);
    SetSound(n, [], map[], ExactBut(e, addr), Exact(e), k, value);
    SetLocate(n, [], map[], ExactBut(e, addr), k, value, k);
    if value.Demand? {
      SetThenReach(n, [], map[], ExactBut(e, addr), k, value.dims);
    }
  }

  /** A finished entry that needs no more than what is supplied is what any get of it answers. */
  lemma StoreFinal(w: Store, e: Evaluator, k: Context, delta: Delta)
    requires Honest(e) && StoreInv(w, Exact(e)) && w.tree.Some?
    requires Find(w, k).Spot? && forall d :: d in Find(w, k).addr.Keys ==> delta.Contains(d)
    ensures var g := GetStore(w, k, delta);
            g.Answered? && g.answer == Find(w, k).value && StoreInv(g.store, Exact(e))
  {
    var n := w.tree.value.node;
    assert Missing([], delta) == {};
    LocateSound(n, [], map[], Exact(e), k);
    GetAnswersEntry(n, [], map[], Exact(e), k, delta, w.retirement);
    GetSound(n, [], map[], Exact(e), Exact(e), k, delta, w.retirement);
  }

  /** Collecting forgets entries but keeps the rest exact. */
  lemma StoreCollect(w: Store, e: Evaluator)
    requires StoreInv(w, Exact(e))
    ensures StoreInv(CollectStore(w), Exact(e))
  {
    if w.tree.Some? {
      CollectSound(w.tree.value.node, [], map[], Exact(e), w.retirement);
    }
  }

  // ---------------------------------------------------------------------------------------------
  // The workshop

  datatype Request = Evaluate(k: Context, delta: Delta) | GarbageCollect

  class CacheWS {
    const cache: Cache
    const expr: Evaluator

    ghost predicate Valid()
      reads cache
    {
      Honest(expr) && StoreInv(cache.Contents(), Exact(expr))
    }

    constructor (expr: Evaluator)
      requires Honest(expr)
      ensures Valid() && fresh(cache) && this.expr == expr
    {
      this.expr := expr;
      cache := new Cache();
    }

    /**
     Get, evaluate what is marked, set, and follow demands until one cannot be met or a value is
     found. The answer is the answer of evaluation without the cache.
     */
    method EvaluateCached(k: Context, delta: Delta) returns (answer: Constant)
      requires Valid()
      modifies cache
      ensures Valid()
      ensures answer == Restart(expr, k, delta, {})
    {
      var subdelta: set<Dim> := {};
      var d: Constant;
      ReachedNothing(cache.Contents(), k);
      while true
        invariant Valid() && subdelta <= delta.dims
        invariant Reached(cache.Contents(), k, Delta(subdelta, false)) == subdelta
        invariant Restart(expr, k, delta, {}) == Restart(expr, k, delta, subdelta)
        decreases delta.dims - subdelta
      {
        StoreGet(cache.Contents(), expr, k, Delta(subdelta, false));
        var thrown;
        d, thrown := cache.Get(k, Delta(subdelta, false));
        if d.Calc? {
          StoreSet(cache.Contents(), expr, k);
          d := expr(k, subdelta);
          thrown := cache.Set(k, d);
        }
        if d.Demand? {
          SomeMember(d.dims);
          var diff := d.dims - delta.dims;
          if diff != {} {
            return Demand(diff);
          }
          subdelta := subdelta + d.dims;
        } else {
          break;
        }
      }
      StoreFinal(cache.Contents(), expr, k, delta);
      var failed;
      answer, failed := cache.Get(k, delta);
    }

    /** The sweep changes no answer: the workshop stays valid, and that is all an evaluation relies on. */
    method Collect()
      requires Valid()
      modifies cache
      ensures Valid()
    {
      StoreCollect(cache.Contents(), expr);
      cache.GarbageCollect();
    }

    /** Any history of evaluations and collections: each evaluation answers as if there were no cache. */
    method Serve(requests: seq<Request>) returns (answers: seq<Constant>)
      requires Valid()
      modifies cache
      ensures Valid() && |answers| == |requests|
      ensures forall i :: 0 <= i < |requests| && requests[i].Evaluate? ==>
                answers[i] == Restart(expr, requests[i].k, requests[i].delta, {})
    {
      answers := [];
      for i := 0 to |requests|
        invariant Valid() && |answers| == i
        invariant forall j :: 0 <= j < i && requests[j].Evaluate? ==>
                    answers[j] == Restart(expr, requests[j].k, requests[j].delta, {})
      {
        var answer := UNSET;
        match requests[i] {
          case Evaluate(k, delta) => answer := EvaluateCached(k, delta);
          case GarbageCollect => Collect();
        }
        answers := answers + [answer];
      }
    }

    /**
     The link from uncached to cached code: every demand is filled in from the context itself. The
     answer is that of total evaluation, and the context is afterwards what it was.
     */
    method EvaluateLinked(kappa: Window, ghost universe: set<Dim>) returns (answer: Constant)
      requires Valid() && kappa.Valid() && Within(expr, universe)
      modifies cache, kappa
      ensures Valid() && kappa.Valid()
      ensures answer == Total(expr, old(kappa.View()), universe, {})
      ensures forall d :: kappa.StackAt(d) == old(kappa.StackAt(d))
    {
      var delta: set<Dim> := {};
      ghost var k := kappa.View();
      var c := EvaluateCached(kappa.View(), Delta(delta, false));
      if c.Demand? {
        var p := new Perturber(kappa);
        while c.Demand?
          invariant Valid() && p.Valid() && p.k == kappa && fresh(p)
          invariant forall d :: p.base(d) == old(kappa.StackAt(d))
          invariant forall d :: kappa.Lookup(d) == k.Lookup(d)
          invariant delta <= universe
          invariant c == Restart(expr, k, Delta(delta, false), {})
          decreases universe - delta
        {
          RestartDemands(expr, k, Delta(delta, false), universe, {});
          SomeMember(c.dims);
          FillIn(p, c.dims);
          delta := delta + c.dims;
          c := EvaluateCached(kappa.View(), Delta(delta, false));
          RestartByLookups(expr, kappa.View(), k, Delta(delta, false), {});
        }
        p.Close();
      }
      RestartIsTotal(expr, k, Delta(delta, false), universe, {});
      answer := c;
    }
  }

  /** Perturbs every demanded dimension by its own ordinate, which no lookup can notice. */
  method FillIn(p: Perturber, dims: set<Dim>)
    requires p.Valid()
    modifies p`dims, p.k
    ensures p.Valid()
    ensures forall d :: p.k.Lookup(d) == old(p.k.Lookup(d))
  {
    var todo := dims;
    while todo != {}
      invariant p.Valid()
      invariant forall d :: p.k.Lookup(d) == old(p.k.Lookup(d))
      decreases todo
    {
      SomeMember(todo);
      var d :| d in todo;
      p.Perturb(d, p.k.Lookup(d));
      todo := todo - {d};
    }
  }

  /** With nothing supplied a get stops at the first entry. */
  lemma ReachedNothing(w: Store, k: Context)
    requires w.tree.Some? ==>
               && w.tree.value.dims == [] && w.tree.value.node.Leaf?
               && (w.tree.value.node.entry.content.Sub? ==> w.tree.value.node.entry.content.level.dims != [])
    ensures Reached(w, k, Delta({}, false)) == {}
  {
    if w.tree.Some? && w.tree.value.node.entry.content.Sub? {
      var l := w.tree.value.node.entry.content.level;
      assert l.dims[0] in l.dims && l.dims[0] in Missing(l.dims, Delta({}, false));
    }
  }
}
