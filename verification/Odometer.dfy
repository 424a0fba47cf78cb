/**
 The demand loop of an assignment: every combination of the demanded ranges is visited, like the
 readings of an odometer.
 */
module Odometer {
  import opened Constants
  import opened ContextWindow
  import opened BestFit

  /** The bounds of one range dimension. */
  datatype Limit = Limit(lower: int, upper: int)

  predicate InLimit(v: int, l: Limit) {
    l.lower <= v <= l.upper
  }

  // ---------------------------------------------------------------------------------------------
  // Readings

  /** How many values a dimension takes; an empty range still shows its lower bound. */
  function Width(l: Limit): (w: nat)
    ensures w >= 1
  {
    if l.lower <= l.upper then l.upper - l.lower + 1 else 1
  }

  ghost function Total(ls: seq<Limit>): (n: nat)
    ensures n >= 1
  {
    if ls == [] then 1 else
      MulPositive(Width(ls[0]), Total(ls[1..]));
      Width(ls[0]) * Total(ls[1..])
  }

  lemma MulPositive(x: nat, y: nat)
    requires x >= 1 && y >= 1
    ensures x * y >= 1
  {
  }

  /** A reading the odometer can show. */
  ghost predicate Shown(ls: seq<Limit>, t: seq<int>) {
    |t| == |ls| && forall i :: 0 <= i < |ls| ==> ls[i].lower <= t[i] < ls[i].lower + Width(ls[i])
  }

  /** An element of the product of the ranges. */
  ghost predicate InProduct(ls: seq<Limit>, t: seq<int>) {
    |t| == |ls| && forall i :: 0 <= i < |ls| ==> InLimit(t[i], ls[i])
  }

  /** The number of a reading; the first dimension turns fastest. */
  ghost function Number(ls: seq<Limit>, t: seq<int>): int
    requires |t| == |ls|
  {
    if ls == [] then 0 else t[0] - ls[0].lower + Width(ls[0]) * Number(ls[1..], t[1..])
  }

  lemma MulStep(w: nat, x: int, y: int)
    requires x < y
    ensures w * x + w <= w * y
  {
    var gap: nat := y - x - 1;
    MulNat(w, gap);
    assert w * y == w * x + w + w * gap by { assert y == x + 1 + gap; }
  }

  lemma MulNat(x: nat, y: nat)
    ensures 0 <= x * y
  {
  }

  lemma {:induction false} NumberBounded(ls: seq<Limit>, t: seq<int>)
    requires Shown(ls, t)
    ensures 0 <= Number(ls, t) < Total(ls)
  {
    if ls != [] {
      NumberBounded(ls[1..], t[1..]);
      MulStep(Width(ls[0]), Number(ls[1..], t[1..]), Total(ls[1..]));
      if Number(ls[1..], t[1..]) > 0 { MulStep(Width(ls[0]), 0, Number(ls[1..], t[1..])); }
    }
  }

  lemma {:induction false} NumberIsUnique(ls: seq<Limit>, t: seq<int>, u: seq<int>)
    requires Shown(ls, t) && Shown(ls, u) && Number(ls, t) == Number(ls, u)
    ensures t == u
  {
    if ls != [] {
      var w, x, y := Width(ls[0]), Number(ls[1..], t[1..]), Number(ls[1..], u[1..]);
      if x < y { MulStep(w, x, y); }
      if y < x { MulStep(w, y, x); }
      NumberIsUnique(ls[1..], t[1..], u[1..]);
      assert t == [t[0]] + t[1..] && u == [u[0]] + u[1..];
    }
  }

  /** The next reading, and whether every dimension has turned over. */
  function Successor(ls: seq<Limit>, t: seq<int>): (bool, seq<int>)
    requires |t| == |ls|
  {
    if ls == [] then (true, [])
    else if InLimit(t[0] + 1, ls[0]) then (false, [t[0] + 1] + t[1..])
    else
      var (over, rest) := Successor(ls[1..], t[1..]);
      (over, [ls[0].lower] + rest)
  }

  lemma {:induction false} SuccessorCounts(ls: seq<Limit>, t: seq<int>)
    requires Shown(ls, t)
    ensures Shown(ls, Successor(ls, t).1)
    ensures Successor(ls, t).0 ==> Number(ls, t) == Total(ls) - 1
    ensures !Successor(ls, t).0 ==> Number(ls, Successor(ls, t).1) == Number(ls, t) + 1
  {
    if ls != [] {
      SuccessorCounts(ls[1..], t[1..]);
      var w, rest := Width(ls[0]), Successor(ls[1..], t[1..]);
      if InLimit(t[0] + 1, ls[0]) {
        assert ([t[0] + 1] + t[1..])[1..] == t[1..];
      } else {
        assert ([ls[0].lower] + rest.1)[1..] == rest.1;
        assert t[0] - ls[0].lower == w - 1;
        if rest.0 {
          Distribute(w, Total(ls[1..]) - 1);
        } else {
          Distribute(w, Number(ls[1..], t[1..]));
        }
      }
    }
  }

  lemma Distribute(w: int, x: int)
    ensures w * (x + 1) == w * x + w
  {
  }

  function Lowers(ls: seq<Limit>): seq<int> {
    seq(|ls|, i requires 0 <= i < |ls| => ls[i].lower)
  }

  lemma {:induction false} LowersAreFirst(ls: seq<Limit>)
    ensures Shown(ls, Lowers(ls)) && Number(ls, Lowers(ls)) == 0
  {
    if ls != [] {
      LowersAreFirst(ls[1..]);
      assert Lowers(ls)[1..] == Lowers(ls[1..]);
    }
  }

  /** Turns the odometer by one, in place. */
  method Increment(limits: seq<Limit>, current: seq<int>) returns (next: seq<int>, over: bool)
    requires |current| == |limits|
    ensures (over, next) == Successor(limits, current)
  {
    next := current;
    var i := 0;
    TurningStarts(limits, current);
    while i < |next|
      invariant i <= |next| == |limits| && Turning(limits, current, next, i)
    {
      TurningNext(limits, current, next, i);
      next := next[i := next[i] + 1];
      if !InLimit(next[i], limits[i]) {
        next := next[i := limits[i].lower];
        i := i + 1;
      } else {
        return next, false;
      }
    }
    TurningEnds(limits, current, next);
    over := true;
  }

  /** The first `i` dimensions have turned over. */
  ghost predicate Turning(limits: seq<Limit>, current: seq<int>, next: seq<int>, i: nat)
    requires |current| == |limits| && i <= |limits|
  {
    && next == Lowers(limits[..i]) + current[i..]
    && Successor(limits, current) == Resumed(limits, current, i)
  }

  lemma TurningStarts(limits: seq<Limit>, current: seq<int>)
    requires |current| == |limits|
    ensures Turning(limits, current, current, 0)
  {
    assert limits[0..] == limits && current[0..] == current;
    var after := Successor(limits, current);
    assert Lowers(limits[..0]) + after.1 == after.1;
  }

  lemma TurningNext(limits: seq<Limit>, current: seq<int>, next: seq<int>, i: nat)
    requires |current| == |limits| && i < |limits| && Turning(limits, current, next, i)
    ensures |next| == |limits| && next[i] == current[i]
    ensures InLimit(current[i] + 1, limits[i]) ==> Successor(limits, current) == (false, next[i := current[i] + 1])
    ensures !InLimit(current[i] + 1, limits[i]) ==>
              Turning(limits, current, next[i := current[i] + 1][i := limits[i].lower], i + 1)
  {
    SuccessorTurn(limits, current, i);
    assert next[i := current[i] + 1] == Lowers(limits[..i]) + ([current[i] + 1] + current[i + 1..]);
    assert next[i := current[i] + 1][i := limits[i].lower] ==
             Lowers(limits[..i]) + [limits[i].lower] + current[i + 1..];
  }

  lemma TurningEnds(limits: seq<Limit>, current: seq<int>, next: seq<int>)
    requires |current| == |limits| && Turning(limits, current, next, |limits|)
    ensures Successor(limits, current) == (true, next)
  {
    assert limits[|limits|..] == [] && current[|limits|..] == [];
  }

  /** The next reading when the first `i` dimensions have turned over. */
  function Resumed(limits: seq<Limit>, current: seq<int>, i: nat): (bool, seq<int>)
    requires i <= |current| == |limits|
  {
    var after := Successor(limits[i..], current[i..]);
    (after.0, Lowers(limits[..i]) + after.1)
  }

  lemma SuccessorTurn(limits: seq<Limit>, current: seq<int>, i: nat)
    requires |current| == |limits| && i < |limits|
    ensures InLimit(current[i] + 1, limits[i]) ==>
              Resumed(limits, current, i) == (false, Lowers(limits[..i]) + ([current[i] + 1] + current[i + 1..]))
    ensures !InLimit(current[i] + 1, limits[i]) ==> Resumed(limits, current, i) == Resumed(limits, current, i + 1)
    ensures Lowers(limits[..i + 1]) == Lowers(limits[..i]) + [limits[i].lower]
  {
    assert limits[i..][1..] == limits[i + 1..] && current[i..][1..] == current[i + 1..];
    var after := Successor(limits[i + 1..], current[i + 1..]);
    assert Lowers(limits[..i]) + ([limits[i].lower] + after.1) == Lowers(limits[..i + 1]) + after.1;
  }

  // ---------------------------------------------------------------------------------------------
  // What was visited

  /** The readings, in order of their numbers. */
  ghost predicate InOrder(ls: seq<Limit>, visited: seq<seq<int>>) {
    forall m :: 0 <= m < |visited| ==> Shown(ls, visited[m]) && Number(ls, visited[m]) == m
  }

  ghost predicate OnceEach(visited: seq<seq<int>>) {
    forall m, n :: 0 <= m < n < |visited| ==> visited[m] != visited[n]
  }

  /** A full turn shows every reading exactly once. */
  lemma FullTurn(ls: seq<Limit>, visited: seq<seq<int>>)
    requires InOrder(ls, visited) && |visited| == Total(ls)
    ensures OnceEach(visited)
    ensures forall t :: Shown(ls, t) <==> t in visited
  {
    forall t | Shown(ls, t) ensures t in visited {
      NumberBounded(ls, t);
      NumberIsUnique(ls, t, visited[Number(ls, t)]);
    }
  }

  /** It visits exactly the product of the ranges if no range is empty, and only then. */
  lemma VisitsProductExactly(ls: seq<Limit>, visited: seq<seq<int>>)
    requires InOrder(ls, visited) && |visited| == Total(ls)
    ensures (forall i :: 0 <= i < |ls| ==> ls[i].lower <= ls[i].upper) <==>
            forall t :: InProduct(ls, t) <==> t in visited
  {
    FullTurn(ls, visited);
    if forall i :: 0 <= i < |ls| ==> ls[i].lower <= ls[i].upper {
      forall t ensures InProduct(ls, t) <==> Shown(ls, t) {
      }
    } else {
      var i :| 0 <= i < |ls| && ls[i].lower > ls[i].upper;
      LowersAreFirst(ls);
      assert !InLimit(Lowers(ls)[i], ls[i]);
      assert Lowers(ls) in visited && !InProduct(ls, Lowers(ls));
    }
  }

  /** One empty range: its lower bound is visited although it is in no product. */
  lemma EmptyRangeIsVisited()
    ensures var ls := [Limit(1, 0)];
            InOrder(ls, [[1]]) && Total(ls) == 1 && !InProduct(ls, [1]) && Successor(ls, [1]) == (true, [1])
  {
    var ls := [Limit(1, 0)];
    assert ls[1..] == [] && Total(ls[1..]) == 1 && Width(ls[0]) == 1;
    assert Number(ls, [1]) == 0;
    assert !InLimit([1][0], ls[0]) && !InLimit([1][0] + 1, ls[0]);
    assert [1][1..] == [] && Successor(ls[1..], [1][1..]) == (true, []);
    assert [ls[0].lower] + [] == [1];
  }

  // ---------------------------------------------------------------------------------------------
  // Contexts

  predicate IsRangeEntry(e: Entry) {
    e.ordinate.Range? && e.spec.IN?
  }

  predicate Bounded(e: Entry) {
    IsRangeEntry(e) ==> e.ordinate.lower.Some? && e.ordinate.upper.Some?
  }

  /** The range entries of a region, in order. */
  function RangeEntries(r: Region): (ranges: seq<Entry>)
    ensures forall i :: 0 <= i < |ranges| ==> IsRangeEntry(ranges[i])
  {
    if r == [] then [] else
      RangeEntries(r[..|r| - 1]) + if IsRangeEntry(r[|r| - 1]) then [r[|r| - 1]] else []
  }

  /** A context with the entries that are not ranges stored in it. */
  function WithFixed(values: map<Dim, Constant>, r: Region): map<Dim, Constant> {
    if r == [] then values else
      var rest := WithFixed(values, r[..|r| - 1]);
      var e := r[|r| - 1];
      if IsRangeEntry(e) then rest else rest[e.dim := e.ordinate]
  }

  /** A context with one value stored in each of some dimensions. */
  function WithReading(values: map<Dim, Constant>, dims: seq<Dim>, t: seq<int>): map<Dim, Constant>
    requires |t| == |dims|
  {
    if dims == [] then values else
      WithReading(values, dims[..|dims| - 1], t[..|t| - 1])[dims[|dims| - 1] := Intmp(t[|t| - 1])]
  }

  function Dims(entries: seq<Entry>): seq<Dim> {
    seq(|entries|, i requires 0 <= i < |entries| => entries[i].dim)
  }

  function Limits(entries: seq<Entry>): seq<Limit>
    requires forall i :: 0 <= i < |entries| ==> IsRangeEntry(entries[i]) && Bounded(entries[i])
  {
    seq(|entries|, i requires 0 <= i < |entries| && IsRangeEntry(entries[i]) && Bounded(entries[i]) =>
      Limit(entries[i].ordinate.lower.value, entries[i].ordinate.upper.value))
  }

  /** Everything set in `k` is set in `e`, to the same value. */
  predicate Below(k: Context, e: Context) {
    forall d :: d in k.values ==> d in e.values && e.values[d] == k.values[d]
  }

  /** The output of some readings: one value for every reading whose context extends `k`, in order. */
  ghost function Outputs(k: Context, fixed: map<Dim, Constant>, dims: seq<Dim>, readings: seq<seq<int>>,
                         compute: Context -> Constant): seq<(Context, Constant)>
    requires forall i :: 0 <= i < |readings| ==> |readings[i]| == |dims|
  {
    if readings == [] then [] else
      var e := Context(WithReading(fixed, dims, readings[|readings| - 1]));
      Outputs(k, fixed, dims, readings[..|readings| - 1], compute) + if Below(k, e) then [(e, compute(e))] else []
  }

  method Store(w: Window, d: Dim, c: Constant)
    requires w.Valid()
    modifies w
    ensures w.Valid() && w.View().values == old(w.View().values)[d := c]
  {
    ghost var before := w.View();
    w.Perturb(d, c);
    assert forall e :: w.Lookup(e) == if e == d then c else before.Lookup(e);
    StoredView(before, w.View(), d, c);
  }

  lemma StoredView(before: Context, after: Context, d: Dim, c: Constant)
    requires after.values.Keys == before.values.Keys + {d}
    requires forall e :: after.Lookup(e) == if e == d then c else before.Lookup(e)
    ensures after.values == before.values[d := c]
  {
    forall e | e in after.values ensures after.values[e] == before.values[d := c][e] {
      assert after.Lookup(e) == after.values[e];
      assert e in before.values ==> before.Lookup(e) == before.values[e];
    }
  }

  method StoreScoped(p: Perturber, d: Dim, c: Constant)
    requires p.Valid()
    modifies p`dims, p.k
    ensures p.Valid() && p.k.View().values == old(p.k.View().values)[d := c]
  {
    ghost var before := p.k.View();
    p.Perturb(d, c);
    assert forall e :: p.k.Lookup(e) == if e == d then c else before.Lookup(e);
    StoredView(before, p.k.View(), d, c);
  }

  /** Stores a reading in a scope over the context. */
  method StoreReading(p: Perturber, dims: seq<Dim>, current: seq<int>)
    requires p.Valid() && |dims| == |current|
    modifies p`dims, p.k
    ensures p.Valid()
    ensures p.k.View().values == WithReading(old(p.k.View().values), dims, current)
  {
    ghost var start := p.k.View().values;
    for i := 0 to |dims|
      invariant p.Valid()
      invariant p.k.View().values == WithReading(start, dims[..i], current[..i])
    {
      StoreScoped(p, dims[i], Intmp(current[i]));
      assert dims[..i + 1][..i] == dims[..i] && current[..i + 1][..i] == current[..i];
    }
    assert dims[..|dims|] == dims && current[..|current|] == current;
  }

  /** One round of the loop: the reading is stored, tested, perhaps put, and taken out again. */
  method Visit(k: Window, evalContext: Window, dims: seq<Dim>, current: seq<int>, compute: Context -> Constant)
    returns (put: seq<(Context, Constant)>)
    requires k.Valid() && evalContext.Valid() && k != evalContext && |dims| == |current|
    modifies evalContext
    ensures evalContext.Valid() && evalContext.View().values == old(evalContext.View().values)
    ensures k.View() == old(k.View())
    ensures var e := Context(WithReading(old(evalContext.View().values), dims, current));
            put == if Below(k.View(), e) then [(e, compute(e))] else []
  {
    var p := new Perturber(evalContext);
    StoreReading(p, dims, current);
    var below := k.LessEqual(evalContext);
    BelowByStacks(k, evalContext);
    if below {
      put := [(evalContext.View(), compute(evalContext.View()))];
    } else {
      put := [];
    }
    p.Close();
    SameStacks(evalContext);
  }

  lemma BelowByStacks(k: Window, e: Window)
    requires k.Valid() && e.Valid()
    ensures Below(k.View(), e.View()) <==>
            forall d :: k.StackAt(d) != [] ==> e.StackAt(d) != [] && e.Lookup(d) == k.Lookup(d)
  {
    forall d ensures (d in k.View().values ==> d in e.View().values && e.View().values[d] == k.View().values[d]) <==>
                     (k.StackAt(d) != [] ==> e.StackAt(d) != [] && e.Lookup(d) == k.Lookup(d)) {
      ViewByStacks(k, d);
      ViewByStacks(e, d);
    }
  }

  lemma ViewByStacks(w: Window, d: Dim)
    requires w.Valid()
    ensures d in w.View().values <==> w.StackAt(d) != []
    ensures d in w.View().values ==> w.View().values[d] == w.Lookup(d)
  {
    assert w.HasEntry(d) <==> d in w.setDims;
    assert w.View().Lookup(d) == w.Lookup(d);
  }

  twostate lemma SameStacks(w: Window)
    requires old(w.Valid()) && w.Valid()
    requires forall d :: w.StackAt(d) == old(w.StackAt(d))
    ensures w.View().values == old(w.View().values)
  {
    assert forall d :: w.HasEntry(d) == old(w.HasEntry(d));
    assert forall d :: w.Lookup(d) == old(w.Lookup(d));
    assert w.View().values.Keys == old(w.View().values.Keys) by {
      forall d ensures d in w.View().values <==> d in old(w.View().values) {
        assert old(w.HasEntry(d)) <==> d in old(w.setDims);
      }
    }
  }

  /** Splits the demanded region: ranges are to be enumerated, everything else is stored for good. */
  method Prepare(ctxts: Region, evalContext: Window) returns (thrown: bool, dims: seq<Dim>, limits: seq<Limit>)
    requires evalContext.Valid()
    modifies evalContext
    ensures evalContext.Valid()
    ensures thrown <==> exists i :: 0 <= i < |ctxts| && !Bounded(ctxts[i])
    ensures !thrown ==>
              var ranges := RangeEntries(ctxts);
              && (forall i :: 0 <= i < |ranges| ==> Bounded(ranges[i]))
              && dims == Dims(ranges) && limits == Limits(ranges)
              && evalContext.View().values == WithFixed(old(evalContext.View().values), ctxts)
  {
    dims, limits := [], [];
    ghost var start := evalContext.View().values;
    for i := 0 to |ctxts|
      invariant evalContext.Valid()
      invariant forall j :: 0 <= j < i ==> Bounded(ctxts[j])
      invariant var ranges := RangeEntries(ctxts[..i]);
                && (forall j :: 0 <= j < |ranges| ==> Bounded(ranges[j]))
                && dims == Dims(ranges) && limits == Limits(ranges)
      invariant evalContext.View().values == WithFixed(start, ctxts[..i])
    {
      assert ctxts[..i + 1][..i] == ctxts[..i];
      if IsRangeEntry(ctxts[i]) {
        var r := ctxts[i].ordinate;
        if r.lower.None? || r.upper.None? {
          return true, dims, limits;
        }
        limits := limits + [Limit(r.lower.value, r.upper.value)];
        dims := dims + [ctxts[i].dim];
      } else {
        Store(evalContext, ctxts[i].dim, ctxts[i].ordinate);
      }
    }
    assert ctxts[..|ctxts|] == ctxts;
    thrown := false;
  }

  // ---------------------------------------------------------------------------------------------
  // What the enumerated contexts are, told from the region

  /** A range asks for every integer in it; an empty one still for its lower bound. */
  ghost predicate Asked(lower: int, upper: int, n: int) {
    lower <= n && (n <= upper || n == lower)
  }

  /** What an entry of the demanded region asks of the ordinate of its dimension. */
  ghost predicate Meets(e: Entry, c: Constant) {
    if e.ordinate.Range? && e.spec == IN then
      && c.Intmp? && e.ordinate.lower.Some? && e.ordinate.upper.Some?
      && Asked(e.ordinate.lower.value, e.ordinate.upper.value, c.n)
    else c == e.ordinate
  }

  /** A context that meets every entry of the region, and is otherwise the given one. */
  ghost predicate Demanded(ctxts: Region, k: map<Dim, Constant>, c: map<Dim, Constant>) {
    && (forall i :: 0 <= i < |ctxts| ==> ctxts[i].dim in c && Meets(ctxts[i], c[ctxts[i].dim]))
    && (forall d :: !Mentions(ctxts, d) ==> (d in c <==> d in k) && (d in c ==> c[d] == k[d]))
  }

  ghost predicate Mentions(ctxts: Region, d: Dim) {
    exists i :: 0 <= i < |ctxts| && ctxts[i].dim == d
  }

  /** Only a range mentions the dimension. */
  ghost predicate NotFixed(r: Region, d: Dim) {
    forall i :: 0 <= i < |r| && r[i].dim == d ==> IsRangeEntry(r[i])
  }

  lemma {:induction false} FixedAt(values: map<Dim, Constant>, r: Region)
    requires IsRegion(r)
    ensures var w := WithFixed(values, r);
            && (forall i :: 0 <= i < |r| && !IsRangeEntry(r[i]) ==> r[i].dim in w && w[r[i].dim] == r[i].ordinate)
            && (forall d :: NotFixed(r, d) ==> (d in w <==> d in values) && (d in w ==> w[d] == values[d]))
  {
    if r != [] {
      var rest := r[..|r| - 1];
      FixedAt(values, rest);
      assert forall d :: NotFixed(r, d) ==> NotFixed(rest, d);
      assert forall i :: 0 <= i < |rest| ==> rest[i] == r[i] && r[i].dim < r[|r| - 1].dim;
    }
  }

  lemma {:induction false} ReadingAt(values: map<Dim, Constant>, dims: seq<Dim>, t: seq<int>)
    requires |t| == |dims| && forall i, j :: 0 <= i < j < |dims| ==> dims[i] < dims[j]
    ensures var w := WithReading(values, dims, t);
            && (forall i :: 0 <= i < |dims| ==> dims[i] in w && w[dims[i]] == Intmp(t[i]))
            && (forall d :: d !in dims ==> (d in w <==> d in values) && (d in w ==> w[d] == values[d]))
  {
    if dims != [] {
      var n := |dims| - 1;
      ReadingAt(values, dims[..n], t[..n]);
      var rest, w := WithReading(values, dims[..n], t[..n]), WithReading(values, dims, t);
      assert w == rest[dims[n] := Intmp(t[n])];
      forall i | 0 <= i < n ensures dims[i] in w && w[dims[i]] == Intmp(t[i]) {
        assert dims[..n][i] == dims[i] && t[..n][i] == t[i] && dims[i] < dims[n];
      }
      assert forall d :: d !in dims ==> d !in dims[..n] && d != dims[n];
    }
  }

  lemma RangesAt(r: Region)
    requires IsRegion(r)
    ensures var ranges := RangeEntries(r);
            && (forall e :: e in ranges <==> e in r && IsRangeEntry(e))
            && (forall p, q :: 0 <= p < q < |ranges| ==> ranges[p].dim < ranges[q].dim)
  {
    forall e ensures e in RangeEntries(r) <==> e in r && IsRangeEntry(e) {
      RangeMember(r, e);
    }
    RangesAscend(r);
  }

  lemma {:induction false} RangeMember(r: Region, e: Entry)
    ensures e in RangeEntries(r) <==> e in r && IsRangeEntry(e)
  {
    if r != [] {
      RangeMember(r[..|r| - 1], e);
      assert r == r[..|r| - 1] + [r[|r| - 1]];
    }
  }

  lemma {:induction false} RangesAscend(r: Region)
    requires IsRegion(r)
    ensures var ranges := RangeEntries(r);
            forall p, q :: 0 <= p < q < |ranges| ==> ranges[p].dim < ranges[q].dim
  {
    if r != [] {
      var rest, last := r[..|r| - 1], r[|r| - 1];
      RangesAscend(rest);
      forall p | 0 <= p < |RangeEntries(rest)| ensures RangeEntries(rest)[p].dim < last.dim {
        RangeMember(rest, RangeEntries(rest)[p]);
        var i :| 0 <= i < |rest| && rest[i] == RangeEntries(rest)[p];
        assert r[i] == rest[i];
      }
    }
  }

  ghost predicate AllBounded(ctxts: Region) {
    forall i :: 0 <= i < |ctxts| ==> Bounded(ctxts[i])
  }

  /** The context of a reading. */
  ghost function ContextOf(ctxts: Region, k: map<Dim, Constant>, t: seq<int>): map<Dim, Constant>
    requires |t| == |RangeEntries(ctxts)|
  {
    WithReading(WithFixed(k, ctxts), Dims(RangeEntries(ctxts)), t)
  }

  ghost function ContextsOf(ctxts: Region, k: map<Dim, Constant>, readings: seq<seq<int>>): (cs: seq<Context>)
    requires forall m :: 0 <= m < |readings| ==> |readings[m]| == |RangeEntries(ctxts)|
    ensures |cs| == |readings|
    ensures forall m :: 0 <= m < |cs| ==> cs[m] == Context(ContextOf(ctxts, k, readings[m]))
  {
    seq(|readings|, m requires 0 <= m < |readings| => Context(ContextOf(ctxts, k, readings[m])))
  }

  lemma ContextAt(ctxts: Region, k: map<Dim, Constant>, t: seq<int>)
    requires IsRegion(ctxts) && |t| == |RangeEntries(ctxts)|
    ensures var ranges, c := RangeEntries(ctxts), ContextOf(ctxts, k, t);
            && (forall p :: 0 <= p < |ranges| ==> ranges[p].dim in c && c[ranges[p].dim] == Intmp(t[p]))
            && (forall i :: 0 <= i < |ctxts| && !IsRangeEntry(ctxts[i]) ==>
                  ctxts[i].dim in c && c[ctxts[i].dim] == ctxts[i].ordinate)
            && (forall d :: !Mentions(ctxts, d) ==> (d in c <==> d in k) && (d in c ==> c[d] == k[d]))
  {
    var ranges := RangeEntries(ctxts);
    var dims, w, c := Dims(ranges), WithFixed(k, ctxts), ContextOf(ctxts, k, t);
    FixedAt(k, ctxts);
    RangesAt(ctxts);
    ReadingAt(w, dims, t);
    forall p | 0 <= p < |ranges| ensures ranges[p].dim in c && c[ranges[p].dim] == Intmp(t[p]) {
      assert dims[p] == ranges[p].dim;
    }
    forall i | 0 <= i < |ctxts| && !IsRangeEntry(ctxts[i]) ensures ctxts[i].dim !in dims {
      if ctxts[i].dim in dims { RangeDim(ctxts, i, ctxts[i].dim); }
    }
    forall d | d in dims ensures Mentions(ctxts, d) {
      var p :| 0 <= p < |dims| && dims[p] == d;
      assert ranges[p] in ctxts;
    }
  }

  /** The dimension of a range is that of no other entry. */
  lemma RangeDim(ctxts: Region, i: nat, d: Dim)
    requires IsRegion(ctxts) && i < |ctxts| && ctxts[i].dim == d && d in Dims(RangeEntries(ctxts))
    ensures IsRangeEntry(ctxts[i])
  {
    RangesAt(ctxts);
    var ranges := RangeEntries(ctxts);
    var p :| 0 <= p < |ranges| && Dims(ranges)[p] == d;
    assert ranges[p] in ctxts;
    var j :| 0 <= j < |ctxts| && ctxts[j] == ranges[p];
  }
  /** The context of a reading is one that was demanded. */
  lemma ReadingIsDemanded(ctxts: Region, k: map<Dim, Constant>, t: seq<int>)
    requires IsRegion(ctxts) && AllBounded(ctxts) && |t| == |RangeEntries(ctxts)|
    requires AllBounded(RangeEntries(ctxts)) && Shown(Limits(RangeEntries(ctxts)), t)
    ensures Demanded(ctxts, k, ContextOf(ctxts, k, t))
  {
    var ranges, c := RangeEntries(ctxts), ContextOf(ctxts, k, t);
    ContextAt(ctxts, k, t);
    RangesAt(ctxts);
    forall i | 0 <= i < |ctxts| ensures ctxts[i].dim in c && Meets(ctxts[i], c[ctxts[i].dim]) {
      if IsRangeEntry(ctxts[i]) {
        assert ctxts[i] in ranges;
        var p :| 0 <= p < |ranges| && ranges[p] == ctxts[i];
        assert Limits(ranges)[p].lower <= t[p] < Limits(ranges)[p].lower + Width(Limits(ranges)[p]);
      }
    }
  }

  /** What the reading of a demanded context is. */
  ghost function ReadingOf(ranges: Region, c: map<Dim, Constant>): seq<int>
    requires forall p :: 0 <= p < |ranges| ==> ranges[p].dim in c && c[ranges[p].dim].Intmp?
  {
    seq(|ranges|, p requires 0 <= p < |ranges| => c[ranges[p].dim].n)
  }

  /** A demanded context is the context of a reading. */
  lemma DemandedIsReading(ctxts: Region, k: map<Dim, Constant>, c: map<Dim, Constant>) returns (t: seq<int>)
    requires IsRegion(ctxts) && AllBounded(ctxts) && AllBounded(RangeEntries(ctxts)) && Demanded(ctxts, k, c)
    ensures Shown(Limits(RangeEntries(ctxts)), t) && |t| == |RangeEntries(ctxts)| && ContextOf(ctxts, k, t) == c
  {
    var ranges := RangeEntries(ctxts);
    RangesAt(ctxts);
    forall p | 0 <= p < |ranges| ensures ranges[p].dim in c && Meets(ranges[p], c[ranges[p].dim]) {
      assert ranges[p] in ctxts;
      var i :| 0 <= i < |ctxts| && ctxts[i] == ranges[p];
    }
    t := ReadingOf(ranges, c);
    forall d ensures SameAt(ContextOf(ctxts, k, t), c, d) {
      SameContext(ctxts, k, c, t, d);
    }
    SameEverywhere(ContextOf(ctxts, k, t), c);
  }

  ghost predicate SameAt(w: map<Dim, Constant>, c: map<Dim, Constant>, d: Dim) {
    (d in w <==> d in c) && (d in w ==> w[d] == c[d])
  }

  lemma SameEverywhere(w: map<Dim, Constant>, c: map<Dim, Constant>)
    requires forall d :: SameAt(w, c, d)
    ensures w == c
  {
    forall d | d in w ensures d in c && w[d] == c[d] {
      assert SameAt(w, c, d);
    }
    forall d | d in c ensures d in w {
      assert SameAt(w, c, d);
    }
    assert w.Keys == c.Keys;
  }

  lemma SameContext(ctxts: Region, k: map<Dim, Constant>, c: map<Dim, Constant>, t: seq<int>, d: Dim)
    requires IsRegion(ctxts) && Demanded(ctxts, k, c) && |t| == |RangeEntries(ctxts)|
    requires forall p :: 0 <= p < |t| ==>
               RangeEntries(ctxts)[p].dim in c && c[RangeEntries(ctxts)[p].dim] == Intmp(t[p])
    ensures SameAt(ContextOf(ctxts, k, t), c, d)
  {
    ContextAt(ctxts, k, t);
    if Mentions(ctxts, d) {
      var i :| 0 <= i < |ctxts| && ctxts[i].dim == d;
      if IsRangeEntry(ctxts[i]) {
        RangesAt(ctxts);
        assert ctxts[i] in RangeEntries(ctxts);
        var p :| 0 <= p < |RangeEntries(ctxts)| && RangeEntries(ctxts)[p] == ctxts[i];
      }
    }
  }

  /** Two readings with the same context are the same. */
  lemma ReadingIsUnique(ctxts: Region, k: map<Dim, Constant>, t: seq<int>, u: seq<int>)
    requires IsRegion(ctxts) && |t| == |u| == |RangeEntries(ctxts)| && ContextOf(ctxts, k, t) == ContextOf(ctxts, k, u)
    ensures t == u
  {
    ContextAt(ctxts, k, t);
    ContextAt(ctxts, k, u);
    forall p | 0 <= p < |t| ensures t[p] == u[p] {
      assert ContextOf(ctxts, k, t)[RangeEntries(ctxts)[p].dim] == Intmp(t[p]);
    }
  }

  /** The contexts of the readings are exactly the demanded ones, each once. */
  lemma ContextsAreDemanded(ctxts: Region, k: map<Dim, Constant>, visited: seq<seq<int>>)
    requires IsRegion(ctxts) && AllBounded(ctxts) && AllBounded(RangeEntries(ctxts))
    requires InOrder(Limits(RangeEntries(ctxts)), visited) && |visited| == Total(Limits(RangeEntries(ctxts)))
    ensures forall m :: 0 <= m < |visited| ==> |visited[m]| == |RangeEntries(ctxts)|
    ensures forall m :: 0 <= m < |visited| ==> Demanded(ctxts, k, ContextOf(ctxts, k, visited[m]))
    ensures forall c :: Demanded(ctxts, k, c) ==> exists m :: 0 <= m < |visited| && ContextOf(ctxts, k, visited[m]) == c
    ensures forall m, n :: 0 <= m < n < |visited| ==>
              ContextOf(ctxts, k, visited[m]) != ContextOf(ctxts, k, visited[n])
  {
    FullTurn(Limits(RangeEntries(ctxts)), visited);
    forall m | 0 <= m < |visited| ensures Demanded(ctxts, k, ContextOf(ctxts, k, visited[m])) {
      assert visited[m] in visited;
      ReadingIsDemanded(ctxts, k, visited[m]);
    }
    forall c | Demanded(ctxts, k, c)
      ensures exists m :: 0 <= m < |visited| && ContextOf(ctxts, k, visited[m]) == c
    {
      var t := DemandedIsReading(ctxts, k, c);
      assert t in visited;
    }
    forall m, n | 0 <= m < n < |visited|
      ensures ContextOf(ctxts, k, visited[m]) != ContextOf(ctxts, k, visited[n])
    {
      assert visited[m] != visited[n];
      if ContextOf(ctxts, k, visited[m]) == ContextOf(ctxts, k, visited[n]) {
        ReadingIsUnique(ctxts, k, visited[m], visited[n]);
      }
    }
  }

  /** What was put: the values computed in the demanded contexts that extend the given one, each once. */
  ghost predicate PutsDemanded(ctxts: Region, k: Context, compute: Context -> Constant, out: seq<(Context, Constant)>) {
    && (forall p :: p in out <==> Demanded(ctxts, k.values, p.0.values) && Below(k, p.0) && p.1 == compute(p.0))
    && (forall m, n :: 0 <= m < n < |out| ==> out[m] != out[n])
  }

  lemma {:induction false} OutputsAt(k: Context, fixed: map<Dim, Constant>, dims: seq<Dim>, readings: seq<seq<int>>,
                                     compute: Context -> Constant)
    requires forall m :: 0 <= m < |readings| ==> |readings[m]| == |dims|
    requires forall m, n :: 0 <= m < n < |readings| ==>
               WithReading(fixed, dims, readings[m]) != WithReading(fixed, dims, readings[n])
    ensures var out := Outputs(k, fixed, dims, readings, compute);
            && (forall p :: p in out ==> Below(k, p.0) && p.1 == compute(p.0) && Visits(fixed, dims, readings, p.0))
            && (forall e :: Below(k, e) && Visits(fixed, dims, readings, e) ==> (e, compute(e)) in out)
            && (forall m, n :: 0 <= m < n < |out| ==> out[m] != out[n])
  {
    if readings != [] {
      var rest, last := readings[..|readings| - 1], readings[|readings| - 1];
      OutputsAt(k, fixed, dims, rest, compute);
      var e := Context(WithReading(fixed, dims, last));
      forall c ensures Visits(fixed, dims, readings, c) <==> Visits(fixed, dims, rest, c) || c == e {
        VisitsOneMore(fixed, dims, readings, c);
      }
      assert !Visits(fixed, dims, rest, e);
    }
  }

  ghost predicate Visits(fixed: map<Dim, Constant>, dims: seq<Dim>, readings: seq<seq<int>>, e: Context)
    requires forall m :: 0 <= m < |readings| ==> |readings[m]| == |dims|
  {
    exists m :: 0 <= m < |readings| && e == Context(WithReading(fixed, dims, readings[m]))
  }

  lemma VisitsOneMore(fixed: map<Dim, Constant>, dims: seq<Dim>, readings: seq<seq<int>>, e: Context)
    requires readings != [] && forall m :: 0 <= m < |readings| ==> |readings[m]| == |dims|
    ensures Visits(fixed, dims, readings, e) <==>
            Visits(fixed, dims, readings[..|readings| - 1], e)
            || e == Context(WithReading(fixed, dims, readings[|readings| - 1]))
  {
    var rest := readings[..|readings| - 1];
    forall m | 0 <= m < |rest| && e == Context(WithReading(fixed, dims, rest[m]))
      ensures Visits(fixed, dims, readings, e)
    {
      assert readings[m] == rest[m];
    }
    forall m | 0 <= m < |readings| && e == Context(WithReading(fixed, dims, readings[m]))
      ensures m == |readings| - 1 || Visits(fixed, dims, rest, e)
    {
      if m < |rest| { assert rest[m] == readings[m]; }
    }
  }

  lemma OutputsAreDemanded(ctxts: Region, k: Context, visited: seq<seq<int>>, compute: Context -> Constant)
    requires IsRegion(ctxts) && AllBounded(ctxts) && AllBounded(RangeEntries(ctxts))
    requires InOrder(Limits(RangeEntries(ctxts)), visited) && |visited| == Total(Limits(RangeEntries(ctxts)))
    ensures forall m :: 0 <= m < |visited| ==> |visited[m]| == |Dims(RangeEntries(ctxts))|
    ensures var dims := Dims(RangeEntries(ctxts));
            PutsDemanded(ctxts, k, compute, Outputs(k, WithFixed(k.values, ctxts), dims, visited, compute))
  {
    ContextsAreDemanded(ctxts, k.values, visited);
    var fixed, dims := WithFixed(k.values, ctxts), Dims(RangeEntries(ctxts));
    OutputsAt(k, fixed, dims, visited, compute);
    forall e: Context ensures Visits(fixed, dims, visited, e) <==> Demanded(ctxts, k.values, e.values) {
      assert forall m :: 0 <= m < |visited| ==>
               ContextOf(ctxts, k.values, visited[m]) == WithReading(fixed, dims, visited[m]);
    }
    var out := Outputs(k, fixed, dims, visited, compute);
    forall p ensures p in out <==> Demanded(ctxts, k.values, p.0.values) && Below(k, p.0) && p.1 == compute(p.0) {
      assert (p.0, p.1) == p;
    }
  }

  /** Every range of the region is bounded. */
  lemma BoundedRanges(ctxts: Region)
    requires AllBounded(ctxts)
    ensures AllBounded(RangeEntries(ctxts))
  {
    if ctxts != [] { BoundedRanges(ctxts[..|ctxts| - 1]); }
  }

  /**
   Enumerates a demanded region. It throws exactly on an unbounded range; otherwise the readings are
   those of one full turn of the odometer, their contexts are exactly those that meet every entry of
   the region and are otherwise the given one, each once, and what is put are the values computed
   in those of them that extend the given one.
   */
  method EnumerateContextSet(ctxts: Region, k: Window, compute: Context -> Constant)
    returns (thrown: bool, out: seq<(Context, Constant)>, ghost visited: seq<seq<int>>, ghost contexts: seq<Context>)
    requires k.Valid()
    ensures thrown <==>
            exists i :: 0 <= i < |ctxts| && ctxts[i].ordinate.Range? && ctxts[i].spec == IN
                        && (ctxts[i].ordinate.lower.None? || ctxts[i].ordinate.upper.None?)
    ensures !thrown && IsRegion(ctxts) ==>
              && (forall c :: c in contexts <==> Demanded(ctxts, k.View().values, c.values))
              && (forall m, n :: 0 <= m < n < |contexts| ==> contexts[m] != contexts[n])
              && PutsDemanded(ctxts, k.View(), compute, out)
    ensures !thrown ==>
              var ranges := RangeEntries(ctxts);
              && (forall i :: 0 <= i < |ranges| ==> Bounded(ranges[i]))
              && InOrder(Limits(ranges), visited) && |visited| == Total(Limits(ranges)) && |contexts| == |visited|
              && (forall m :: 0 <= m < |visited| ==>
                    |visited[m]| == |ranges| && contexts[m] == Context(ContextOf(ctxts, k.View().values, visited[m])))
              && out == Outputs(k.View(), WithFixed(k.View().values, ctxts), Dims(ranges), visited, compute)
  {
    var evalContext := new Window.Copy(k);
    assert evalContext.View().values == k.View().values by {
      assert forall d :: evalContext.Lookup(d) == k.Lookup(d);
    }
    var dims, limits;
    thrown, dims, limits := Prepare(ctxts, evalContext);
    out, visited, contexts := [], [], [];
    if !thrown {
      out, visited := Turn(k, evalContext, dims, limits, compute);
      BoundedRanges(ctxts);
      contexts := ContextsOf(ctxts, k.View().values, visited);
      if IsRegion(ctxts) {
        ContextsAreDemanded(ctxts, k.View().values, visited);
        OutputsAreDemanded(ctxts, k.View(), visited, compute);
      }
    }
  }

  /** One full turn of the odometer. */
  method Turn(k: Window, evalContext: Window, dims: seq<Dim>, limits: seq<Limit>, compute: Context -> Constant)
    returns (out: seq<(Context, Constant)>, ghost visited: seq<seq<int>>)
    requires k.Valid() && evalContext.Valid() && k != evalContext && |dims| == |limits|
    modifies evalContext
    ensures InOrder(limits, visited) && |visited| == Total(limits)
    ensures out == Outputs(old(k.View()), old(evalContext.View().values), dims, visited, compute)
  {
    ghost var fixed, base := evalContext.View().values, k.View();
    out, visited := [], [];
    var current := Lowers(limits);
    LowersAreFirst(limits);
    var over := false;
    while !over
      invariant k.Valid() && k.View() == base
      invariant evalContext.Valid() && evalContext.View().values == fixed
      invariant |current| == |limits| && TurnedTo(limits, current, over, visited)
      invariant out == Outputs(base, fixed, dims, visited, compute)
      decreases Total(limits) - |visited|
    {
      TurnedNext(limits, current, visited);
      var put := Visit(k, evalContext, dims, current, compute);
      OutputsNext(base, fixed, dims, visited, current, compute);
      out := out + put;
      visited := visited + [current];
      current, over := Increment(limits, current);
    }
  }

  ghost predicate TurnedTo(limits: seq<Limit>, current: seq<int>, over: bool, visited: seq<seq<int>>)
    requires |current| == |limits|
  {
    && InOrder(limits, visited)
    && (if over then |visited| == Total(limits) else Shown(limits, current) && Number(limits, current) == |visited|)
  }

  lemma TurnedNext(limits: seq<Limit>, current: seq<int>, visited: seq<seq<int>>)
    requires |current| == |limits| && TurnedTo(limits, current, false, visited)
    ensures |visited| < Total(limits)
    ensures var (over, next) := Successor(limits, current);
            |next| == |limits| && TurnedTo(limits, next, over, visited + [current])
  {
    NumberBounded(limits, current);
    SuccessorCounts(limits, current);
  }

  lemma OutputsNext(k: Context, fixed: map<Dim, Constant>, dims: seq<Dim>, readings: seq<seq<int>>, t: seq<int>,
                    compute: Context -> Constant)
    requires (forall i :: 0 <= i < |readings| ==> |readings[i]| == |dims|) && |t| == |dims|
    ensures var e := Context(WithReading(fixed, dims, t));
            Outputs(k, fixed, dims, readings + [t], compute) ==
            Outputs(k, fixed, dims, readings, compute) + if Below(k, e) then [(e, compute(e))] else []
  {
    assert (readings + [t])[..|readings|] == readings;
  }
}
