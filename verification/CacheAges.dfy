/** What gets and sets do to the ages of the entries of a cache, told by the addresses of the entries. */
module CacheAges {
  import opened Constants
  import opened WarehouseTree

  /** The age of the entry at an address, be it a constant or a level. */
  ghost function AgeOf(n: Node, dims: seq<Dim>, a: Addr, at: Addr): Option<int>
    decreases n
  {
    match n
    case Leaf(e) =>
      if at == a then Some(e.age)
      else if e.content.Sub? then AgeOf(e.content.level.node, e.content.level.dims, a, at)
      else None
    case Branch(ch) =>
      if dims != [] && dims[0] in at && at[dims[0]] in ch
      then AgeOf(ch[at[dims[0]]], dims[1..], a[dims[0] := at[dims[0]]], at)
      else None
  }

  /** A get passes the entry at an address if its context matches that and it supplies its dimensions. */
  ghost predicate OnEntry(k: Context, delta: Delta, a: Addr) {
    Matches(k, a) && forall d :: d in a ==> delta.Contains(d)
  }

  /** Entries below an address have longer addresses, with all dimensions of their level. */
  lemma {:induction false} AgeOfExtends(n: Node, dims: seq<Dim>, a: Addr, rule: Rule, at: Addr)
    requires Inv(n, dims, a, rule) && AgeOf(n, dims, a, at).Some?
    ensures Extends(at, a) && forall d :: d in dims ==> d in at
    decreases n
  {
    match n
    case Leaf(e) =>
      if at != a { AgeOfExtends(e.content.level.node, e.content.level.dims, a, rule, at); }
    case Branch(ch) =>
      var b := a[dims[0] := at[dims[0]]];
      AgeOfExtends(ch[at[dims[0]]], dims[1..], b, rule, at);
      assert forall d :: d in dims ==> d == dims[0] || d in dims[1..];
      assert forall d :: d in a ==> d in b && b[d] == a[d];
  }

  /** The age of the entry that a context leads to is the age of the entry at its address. */
  lemma {:induction false} AgeAtAddress(n: Node, dims: seq<Dim>, a: Addr, rule: Rule, k: Context)
    requires Inv(n, dims, a, rule) && Matches(k, a) && Locate(n, dims, a, k).Spot?
    ensures AgeOf(n, dims, a, Locate(n, dims, a, k).addr) == Some(AgeAt(n, dims, a, k))
    decreases n
  {
    LocateSound(n, dims, a, rule, k);
    match n
    case Leaf(e) =>
      if e.content.Sub? {
        var l := e.content.level;
        LocateSound(l.node, l.dims, a, rule, k);
        AgeAtAddress(l.node, l.dims, a, rule, k);
        AgeOfExtends(l.node, l.dims, a, rule, Locate(l.node, l.dims, a, k).addr);
        assert l.dims[0] in l.dims && l.dims[0] !in a;
      }
    case Branch(ch) =>
      var c := k.Lookup(dims[0]);
      LocateSound(ch[c], dims[1..], a[dims[0] := c], rule, k);
      AgeAtAddress(ch[c], dims[1..], a[dims[0] := c], rule, k);
  }

  /** A fresh chain has one entry, of age 0. */
  lemma {:induction false} ChainAges(dims: seq<Dim>, k: Context, a: Addr, rule: Rule, at: Addr)
    requires Unused(dims, a) && Matches(k, a)
    ensures var s := Locate(CalcChain(dims, k), dims, a, k);
            && s.Spot?
            && (Extends(at, a) ==> AgeOf(CalcChain(dims, k), dims, a, at) == if at == s.addr then Some(0) else None)
    decreases |dims|
  {
    ChainSound(dims, k, a, rule);
    if dims != [] {
      var c := k.Lookup(dims[0]);
      var b := a[dims[0] := c];
      ChainSound(dims[1..], k, b, rule);
      ChainAges(dims[1..], k, b, rule, at);
    }
  }

  // ---------------------------------------------------------------------------------------------
  // Gets

  /** What a get makes of the age of the entry at an address. */
  ghost predicate AgedByGet(before: Option<int>, after: Option<int>, passed: bool, added: bool) {
    after == if before.Some? then (if passed then Some(0) else before) else if added then Some(0) else None
  }

  /**
   A get resets the age of every entry it passes, gives the marker it adds, if any, the age 0, and
   changes no other age.
   */
  lemma {:induction false} GetAges(n: Node, dims: seq<Dim>, a: Addr, rule: Rule, k: Context, delta: Delta,
                                   retirement: int, at: Addr)
    requires Inv(n, dims, a, rule) && Matches(k, a) && Extends(at, a)
    requires forall d :: d in a || d in dims ==> delta.Contains(d)
    ensures var g := GetNode(n, dims, k, delta, retirement);
            && g.Got? && (g.answer.Calc? ==> Locate(g.node, dims, a, k).Spot?)
            && AgedByGet(AgeOf(n, dims, a, at), AgeOf(g.node, dims, a, at), OnEntry(k, delta, at),
                         g.answer.Calc? && at == Locate(g.node, dims, a, k).addr)
    decreases n
  {
    GetSound(n, dims, a, rule, rule, k, delta, retirement);
    match n
    case Leaf(e) =>
      if e.content.Sub? {
        var l := e.content.level;
        if Missing(l.dims, delta) == {} {
          assert forall d :: d in l.dims ==> d !in Missing(l.dims, delta);
          GetAges(l.node, l.dims, a, rule, k, delta, MaxAge(retirement, e.age), at);
          if at == a && GetNode(n, dims, k, delta, retirement).answer.Calc? {
            NewMarkerBelow(l.node, l.dims, a, rule, k, delta, MaxAge(retirement, e.age));
          }
        } else if AgeOf(l.node, l.dims, a, at).Some? {
          AgeOfExtends(l.node, l.dims, a, rule, at);
          MissingDim(l.dims, delta);
        }
      }
    case Branch(ch) =>
      var c := k.Lookup(dims[0]);
      var b := a[dims[0] := c];
      if dims[0] in at && at[dims[0]] == c {
        if c in ch {
          GetAges(ch[c], dims[1..], b, rule, k, delta, retirement, at);
        } else {
          ChainAges(dims[1..], k, b, rule, at);
        }
      } else {
        GetElsewhere(ch, dims, a, rule, k, delta, retirement, at);
      }
  }

  lemma MissingDim(dims: seq<Dim>, delta: Delta)
    requires Missing(dims, delta) != {}
    ensures exists d :: d in dims && !delta.Contains(d)
  {
    SomeMember(Missing(dims, delta));
  }

  /** A marker added below a level has a longer address than the level. */
  lemma NewMarkerBelow(n: Node, dims: seq<Dim>, a: Addr, rule: Rule, k: Context, delta: Delta, retirement: int)
    requires Inv(n, dims, a, rule) && Matches(k, a) && dims != []
    requires GetNode(n, dims, k, delta, retirement).Got? && GetNode(n, dims, k, delta, retirement).answer.Calc?
    ensures var s := Locate(GetNode(n, dims, k, delta, retirement).node, dims, a, k);
            s.Spot? && s.addr != a
  {
    NewAddressExtends(n, dims, a, rule, k, delta, retirement);
    var ch, c := n.children, k.Lookup(dims[0]);
    if c in ch {
      NewAddressExtends(ch[c], dims[1..], a[dims[0] := c], rule, k, delta, retirement);
    } else {
      ChainSound(dims[1..], k, a[dims[0] := c], rule);
    }
  }

  /** A get does not touch what lies at another ordinate. */
  lemma GetElsewhere(ch: map<Constant, Node>, dims: seq<Dim>, a: Addr, rule: Rule, k: Context, delta: Delta,
                     retirement: int, at: Addr)
    requires Inv(Branch(ch), dims, a, rule) && Matches(k, a)
    requires GetNode(Branch(ch), dims, k, delta, retirement).Got?
    requires dims[0] in at ==> at[dims[0]] != k.Lookup(dims[0])
    ensures var g := GetNode(Branch(ch), dims, k, delta, retirement);
            && AgeOf(g.node, dims, a, at) == AgeOf(Branch(ch), dims, a, at)
            && (AgeOf(Branch(ch), dims, a, at).Some? ==> !OnEntry(k, delta, at))
            && (g.answer.Calc? ==> Locate(g.node, dims, a, k).Spot? && at != Locate(g.node, dims, a, k).addr)
  {
    var g, c := GetNode(Branch(ch), dims, k, delta, retirement), k.Lookup(dims[0]);
    var b := a[dims[0] := c];
    if g.answer.Calc? {
      if c in ch {
        NewAddressExtends(ch[c], dims[1..], b, rule, k, delta, retirement);
      } else {
        ChainSound(dims[1..], k, b, rule);
      }
    }
  }

  /** The retirement age rises to the greatest age of an entry that the get passes, and no further. */
  lemma {:induction false} GetRetirement(n: Node, dims: seq<Dim>, a: Addr, rule: Rule, k: Context, delta: Delta,
                                         retirement: int)
    requires Inv(n, dims, a, rule) && Matches(k, a)
    requires forall d :: d in a || d in dims ==> delta.Contains(d)
    ensures var g := GetNode(n, dims, k, delta, retirement);
            && g.Got? && retirement <= g.retirement
            && (forall at :: OnEntry(k, delta, at) && AgeOf(n, dims, a, at).Some? ==>
                  AgeOf(n, dims, a, at).value <= g.retirement)
            && (g.retirement == retirement ||
                exists at :: OnEntry(k, delta, at) && AgeOf(n, dims, a, at) == Some(g.retirement))
    decreases n
  {
    match n
    case Leaf(e) =>
      assert OnEntry(k, delta, a) && AgeOf(n, dims, a, a) == Some(e.age);
      if e.content.Sub? {
        var l, r := e.content.level, MaxAge(retirement, e.age);
        if Missing(l.dims, delta) == {} {
          assert forall d :: d in l.dims ==> d !in Missing(l.dims, delta);
          GetRetirement(l.node, l.dims, a, rule, k, delta, r);
          LevelRetirement(n, l, a, rule, k, delta, GetNode(n, dims, k, delta, retirement).retirement, r);
        } else {
          forall at | OnEntry(k, delta, at) && AgeOf(n, dims, a, at).Some? ensures at == a {
            if at != a {
              AgeOfExtends(l.node, l.dims, a, rule, at);
              MissingDim(l.dims, delta);
            }
          }
        }
      }
    case Branch(ch) =>
      var c := k.Lookup(dims[0]);
      var b := a[dims[0] := c];
      if c in ch {
        GetRetirement(ch[c], dims[1..], b, rule, k, delta, retirement);
        BranchRetirement(ch, dims, a, rule, k, delta, retirement);
      }
  }

  lemma LevelRetirement(n: Node, l: Level, a: Addr, rule: Rule, k: Context, delta: Delta, reached: int, r: int)
    requires n.Leaf? && n.entry.content == Sub(l) && Inv(l.node, l.dims, a, rule) && l.dims != [] && Unused(l.dims, a)
    requires reached == r || exists at :: OnEntry(k, delta, at) && AgeOf(l.node, l.dims, a, at) == Some(reached)
    ensures reached == r || exists at :: OnEntry(k, delta, at) && AgeOf(n, [], a, at) == Some(reached)
  {
    if reached != r {
      var at :| OnEntry(k, delta, at) && AgeOf(l.node, l.dims, a, at) == Some(reached);
      AgeOfExtends(l.node, l.dims, a, rule, at);
      var d := l.dims[0];
      assert d in l.dims;
      assert d in at && d !in a;
      assert AgeOf(n, [], a, at) == Some(reached);
    }
  }

  lemma BranchRetirement(ch: map<Constant, Node>, dims: seq<Dim>, a: Addr, rule: Rule, k: Context, delta: Delta,
                         retirement: int)
    requires Inv(Branch(ch), dims, a, rule) && Matches(k, a) && k.Lookup(dims[0]) in ch
    requires forall d :: d in dims ==> delta.Contains(d)
    ensures var c := k.Lookup(dims[0]);
            forall at :: OnEntry(k, delta, at) ==>
              AgeOf(ch[c], dims[1..], a[dims[0] := c], at).Some? || AgeOf(Branch(ch), dims, a, at).Some? ==>
                AgeOf(Branch(ch), dims, a, at) == AgeOf(ch[c], dims[1..], a[dims[0] := c], at)
  {
    var c := k.Lookup(dims[0]);
    forall at | OnEntry(k, delta, at) && AgeOf(ch[c], dims[1..], a[dims[0] := c], at).Some?
      ensures dims[0] in at && at[dims[0]] == c
    {
      AgeOfExtends(ch[c], dims[1..], a[dims[0] := c], rule, at);
    }
  }

  // ---------------------------------------------------------------------------------------------
  // Sets and sweeps

  /** A set changes no age: an entry that becomes a level keeps its own. */
  lemma {:induction false} SetAges(n: Node, dims: seq<Dim>, a: Addr, rule: Rule, k: Context, value: Constant, at: Addr)
    requires Inv(n, dims, a, rule) && Matches(k, a) && Locate(n, dims, a, k).Spot?
    ensures var r := SetNode(n, dims, k, value);
            r.Stored? && AgeOf(r.node, dims, a, at) == AgeOf(n, dims, a, at)
    decreases n
  {
    match n
    case Leaf(e) =>
      if e.content.Sub? {
        SetAges(e.content.level.node, e.content.level.dims, a, rule, k, value, at);
      }
    case Branch(ch) =>
      var c := k.Lookup(dims[0]);
      SetAges(ch[c], dims[1..], a[dims[0] := c], rule, k, value, at);
  }

  /** What a sweep leaves is at most one older. */
  lemma {:induction false} CollectAges(n: Node, dims: seq<Dim>, a: Addr, retirement: int, at: Addr)
    ensures var before, after := AgeOf(n, dims, a, at), AgeOf(Collect(n, retirement).1, dims, a, at);
            after.Some? ==> before.Some? && before.value <= after.value <= before.value + 1
    decreases n
  {
    match n
    case Leaf(e) =>
      if e.content.Sub? {
        CollectAges(e.content.level.node, e.content.level.dims, a, retirement, at);
      }
    case Branch(ch) =>
      if dims != [] && dims[0] in at && at[dims[0]] in ch {
        CollectAges(ch[at[dims[0]]], dims[1..], a[dims[0] := at[dims[0]]], retirement, at);
      }
  }
}
