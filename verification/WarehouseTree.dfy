/**
 The warehouse tree: levels keyed by dimensions that are only discovered by evaluating.

 A level lists the dimensions that an evaluation demanded; below it is one map per dimension, from
 ordinate to subtree; at the bottom is an entry, which holds a constant or the next level. The
 variants of the source have value semantics, so the tree is a datatype; the visitors that change
 it in place return the changed subtree.
 */
module WarehouseTree {
  import opened Constants

  datatype Content = Value(value: Constant) | Sub(level: Level)
  datatype Entry = Entry(content: Content, age: int)
  datatype Node = Leaf(entry: Entry) | Branch(children: map<Constant, Node>)
  datatype Level = Level(dims: seq<Dim>, node: Node)

  /** What a get leaves behind, or the "Cache error" that the source throws. */
  datatype GetOutcome = Got(answer: Constant, node: Node, retirement: int) | GetError

  /** The tree after a set, or the "Cache error" that the source throws. */
  datatype SetOutcome = Stored(node: Node) | SetError

  // ---------------------------------------------------------------------------------------------
  // Operations

  /** The first get ever makes a level without dimensions, whose entry is being calculated. */
  const FIRST_LEVEL: Level := Level([], Leaf(Entry(Value(Calc), 0)))

  function MaxAge(x: int, y: int): int {
    if x > y then x else y
  }

  /** The chain of maps for the remaining dimensions, with a calc marker at the end. */
  function CalcChain(dims: seq<Dim>, k: Context): Node {
    if dims == [] then Leaf(Entry(Value(Calc), 0))
    else Branch(map[k.Lookup(dims[0]) := CalcChain(dims[1..], k)])
  }

  /** The dimensions of a level that the caller did not supply. */
  function Missing(dims: seq<Dim>, delta: Delta): set<Dim> {
    set d | d in dims && !delta.Contains(d)
  }

  function GetNode(n: Node, dims: seq<Dim>, k: Context, delta: Delta, retirement: int): GetOutcome
    decreases n
  {
    match n
    case Leaf(e) =>
      if dims != [] then GetError else
      var r := MaxAge(retirement, e.age);
      (match e.content
       case Value(c) =>
         Got(if c.Calc? then Special(SpLoop) else c, Leaf(Entry(e.content, 0)), r)
       case Sub(l) =>
         if Missing(l.dims, delta) != {} then
           Got(Demand(Missing(l.dims, delta)), Leaf(Entry(e.content, 0)), r)
         else
           match GetNode(l.node, l.dims, k, delta, r)
           case GetError => GetError
           case Got(answer, node, r') => Got(answer, Leaf(Entry(Sub(Level(l.dims, node)), 0)), r'))
    case Branch(ch) =>
      if dims == [] then GetError else
      var c := k.Lookup(dims[0]);
      if c !in ch then
        Got(Calc, Branch(ch[c := CalcChain(dims[1..], k)]), retirement)
      else
        match GetNode(ch[c], dims[1..], k, delta, retirement)
        case GetError => GetError
        case Got(answer, node, r') => Got(answer, Branch(ch[c := node]), r')
  }

  /** A demand becomes the next level of the hierarchy; anything else is stored as it is. */
  function ContentFor(value: Constant): Content {
    if value.Demand? then Sub(Level(Ascending(value.dims), Branch(map[]))) else Value(value)
  }

  function SetNode(n: Node, dims: seq<Dim>, k: Context, value: Constant): SetOutcome
    decreases n
  {
    match n
    case Leaf(e) =>
      if dims != [] then SetError else
      (match e.content
       case Value(_) => Stored(Leaf(Entry(ContentFor(value), e.age)))
       case Sub(l) =>
         match SetNode(l.node, l.dims, k, value)
         case SetError => SetError
         case Stored(node) => Stored(Leaf(Entry(Sub(Level(l.dims, node)), e.age))))
    case Branch(ch) =>
      if dims == [] then SetError else
      var c := k.Lookup(dims[0]);
      if c !in ch then SetError else
      match SetNode(ch[c], dims[1..], k, value)
      case SetError => SetError
      case Stored(node) => Stored(Branch(ch[c := node]))
  }

  /** One sweep of the collector: whether the subtree can be deleted, and what is left of it. */
  function Collect(n: Node, retirement: int): (bool, Node)
    decreases n
  {
    match n
    case Leaf(e) =>
      var (below, content) :=
        match e.content
        case Value(_) => (true, e.content)
        case Sub(l) =>
          var (gone, node) := Collect(l.node, retirement);
          (gone, Sub(Level(l.dims, node)));
      if below && e.age > retirement then (true, Leaf(Entry(content, e.age)))
      else (false, Leaf(Entry(content, e.age + 1)))
    case Branch(ch) =>
      var left := map c | c in ch && !Collect(ch[c], retirement).0 :: Collect(ch[c], retirement).1;
      (left == map[], Branch(left))
  }

  // ---------------------------------------------------------------------------------------------
  // What a tree means

  /** The ordinates met on the way down to an entry. */
  type Addr = map<Dim, Constant>

  /** An invariant of entries: it relates the address of an entry to what the entry answers. */
  type Rule = (Addr, Constant) -> bool

  ghost predicate Extends(longer: Addr, shorter: Addr) {
    shorter.Keys <= longer.Keys && forall d :: d in shorter ==> longer[d] == shorter[d]
  }

  ghost predicate Matches(k: Context, a: Addr) {
    forall d :: d in a ==> k.Lookup(d) == a[d]
  }

  ghost predicate Unused(dims: seq<Dim>, a: Addr) {
    Distinct(dims) && forall d :: d in dims ==> d !in a
  }

  /**
   A subtree reached at address `a` with `dims` still to be read is well formed, and every entry in
   it obeys `rule`: a constant answers itself, a level answers a demand for its dimensions.
   */
  ghost predicate Inv(n: Node, dims: seq<Dim>, a: Addr, rule: Rule)
    decreases n
  {
    && Unused(dims, a)
    && match n
       case Leaf(e) =>
         && dims == []
         && (match e.content
             case Value(c) => !c.Demand? && rule(a, c)
             case Sub(l) =>
               && l.dims != []
               && rule(a, Demand(DimSet(l.dims)))
               && Inv(l.node, l.dims, a, rule))
       case Branch(ch) =>
         && dims != []
         && forall c :: c in ch ==> Inv(ch[c], dims[1..], a[dims[0] := c], rule)
  }

  datatype Spot = Nowhere | Spot(addr: Addr, value: Constant)

  /** The constant entry that a context leads to, however many dimensions it takes. */
  ghost function Locate(n: Node, dims: seq<Dim>, a: Addr, k: Context): Spot
    decreases n
  {
    match n
    case Leaf(e) =>
      (match e.content
       case Value(c) => Spot(a, c)
       case Sub(l) => Locate(l.node, l.dims, a, k))
    case Branch(ch) =>
      if dims == [] || k.Lookup(dims[0]) !in ch then Nowhere
      else Locate(ch[k.Lookup(dims[0])], dims[1..], a[dims[0] := k.Lookup(dims[0])], k)
  }

  // ---------------------------------------------------------------------------------------------
  // Locating

  /** An entry found from a context has an address that the context matches, and obeys the rule. */
  lemma {:induction false} LocateSound(n: Node, dims: seq<Dim>, a: Addr, rule: Rule, k: Context)
    requires Inv(n, dims, a, rule) && Matches(k, a)
    requires Locate(n, dims, a, k).Spot?
    ensures var s := Locate(n, dims, a, k);
            Extends(s.addr, a) && Matches(k, s.addr) && DimSet(dims) <= s.addr.Keys
            && rule(s.addr, s.value) && !s.value.Demand?
    decreases n
  {
    match n
    case Leaf(e) =>
      if e.content.Sub? {
        LocateSound(e.content.level.node, e.content.level.dims, a, rule, k);
      }
    case Branch(ch) =>
      var c := k.Lookup(dims[0]);
      LocateSound(ch[c], dims[1..], a[dims[0] := c], rule, k);
  }

  /** Contexts that match the address of an entry are led to that entry. */
  lemma {:induction false} LocateByAddress(n: Node, dims: seq<Dim>, a: Addr, rule: Rule, k: Context, other: Context)
    requires Inv(n, dims, a, rule) && Matches(k, a)
    requires Locate(n, dims, a, k).Spot? && Matches(other, Locate(n, dims, a, k).addr)
    ensures Locate(n, dims, a, other) == Locate(n, dims, a, k)
    decreases n
  {
    LocateSound(n, dims, a, rule, k);
    match n
    case Leaf(e) =>
      if e.content.Sub? {
        LocateByAddress(e.content.level.node, e.content.level.dims, a, rule, k, other);
      }
    case Branch(ch) =>
      var c := k.Lookup(dims[0]);
      LocateSound(ch[c], dims[1..], a[dims[0] := c], rule, k);
      assert other.Lookup(dims[0]) == c;
      LocateByAddress(ch[c], dims[1..], a[dims[0] := c], rule, k, other);
  }

  /** A rule may be exchanged for one that allows as much at every address below. */
  lemma {:induction false} InvWeaken(n: Node, dims: seq<Dim>, a: Addr, rule: Rule, weaker: Rule)
    requires Inv(n, dims, a, rule)
    requires forall x, c :: Extends(x, a) && rule(x, c) ==> weaker(x, c)
    ensures Inv(n, dims, a, weaker)
    decreases n
  {
    match n
    case Leaf(e) =>
      if e.content.Sub? {
        InvWeaken(e.content.level.node, e.content.level.dims, a, rule, weaker);
      }
    case Branch(ch) =>
      forall c | c in ch ensures Inv(ch[c], dims[1..], a[dims[0] := c], weaker) {
        assert forall x :: Extends(x, a[dims[0] := c]) ==> Extends(x, a);
        InvWeaken(ch[c], dims[1..], a[dims[0] := c], rule, weaker);
      }
  }

  // ---------------------------------------------------------------------------------------------
  // Get

  /** A fresh chain holds one calc marker, at the address the context spells out. */
  lemma {:induction false} ChainSound(dims: seq<Dim>, k: Context, a: Addr, rule: Rule)
    requires Unused(dims, a) && Matches(k, a)
    ensures var s := Locate(CalcChain(dims, k), dims, a, k);
            && s.Spot? && s.value == Calc && s.addr.Keys == a.Keys + DimSet(dims)
            && Extends(s.addr, a) && Matches(k, s.addr)
            && (rule(s.addr, Calc) ==> Inv(CalcChain(dims, k), dims, a, rule))
    decreases |dims|
  {
    if dims != [] {
      var c := k.Lookup(dims[0]);
      ChainSound(dims[1..], k, a[dims[0] := c], rule);
      assert DimSet(dims) == {dims[0]} + DimSet(dims[1..]);
    }
  }

  lemma {:induction false} ChainLocate(dims: seq<Dim>, k: Context, a: Addr, other: Context)
    requires Unused(dims, a) && Matches(k, a)
    ensures var s := Locate(CalcChain(dims, k), dims, a, k);
            s.Spot? && Locate(CalcChain(dims, k), dims, a, other)
                       == (if forall d :: d in dims ==> other.Lookup(d) == k.Lookup(d) then s else Nowhere)
    decreases |dims|
  {
    if dims != [] {
      var c := k.Lookup(dims[0]);
      ChainLocate(dims[1..], k, a[dims[0] := c], other);
    }
  }

  /**
   On a well-formed tree a get never throws and keeps the invariant. It answers calc exactly when
   it has just made the entry the context leads to, an entry holding the marker whose address uses
   only supplied dimensions.
   */
  lemma {:induction false} GetSound(n: Node, dims: seq<Dim>, a: Addr, rule: Rule, weaker: Rule, k: Context,
                                    delta: Delta, retirement: int)
    requires Inv(n, dims, a, rule) && Matches(k, a)
    requires forall x, c :: Extends(x, a) && rule(x, c) ==> weaker(x, c)
    requires forall d :: d in a || d in dims ==> delta.Contains(d)
    ensures var g := GetNode(n, dims, k, delta, retirement);
            && g.Got?
            && (g.answer.Calc? ==>
                && Locate(n, dims, a, k) == Nowhere
                && var s := Locate(g.node, dims, a, k);
                   && s.Spot? && s.value == Calc && Extends(s.addr, a) && Matches(k, s.addr)
                   && (forall d :: d in s.addr ==> delta.Contains(d))
                   && (weaker(s.addr, Calc) ==> Inv(g.node, dims, a, weaker)))
            && (!g.answer.Calc? ==> Inv(g.node, dims, a, weaker))
    decreases n
  {
    var g := GetNode(n, dims, k, delta, retirement);
    match n
    case Leaf(e) =>
      InvWeaken(n, dims, a, rule, weaker);
      if e.content.Sub? {
        var l := e.content.level;
        if Missing(l.dims, delta) == {} {
          assert forall d :: d in l.dims ==> d !in Missing(l.dims, delta);
          GetSound(l.node, l.dims, a, rule, weaker, k, delta, MaxAge(retirement, e.age));
        }
      }
    case Branch(ch) =>
      var c := k.Lookup(dims[0]);
      var b := a[dims[0] := c];
      InvWeaken(n, dims, a, rule, weaker);
      assert forall x :: Extends(x, b) ==> Extends(x, a);
      assert Unused(dims[1..], b);
      if c in ch {
        GetSound(ch[c], dims[1..], b, rule, weaker, k, delta, retirement);
      } else {
        ChainSound(dims[1..], k, b, weaker);
        assert forall d :: d in DimSet(dims[1..]) ==> d in dims;
      }
  }

  /** A chain added below a branch is found from exactly the contexts that match its address, and hides nothing. */
  lemma NewChild(ch: map<Constant, Node>, dims: seq<Dim>, a: Addr, rule: Rule, k: Context, other: Context)
    requires Inv(Branch(ch), dims, a, rule) && Matches(k, a) && Matches(other, a) && k.Lookup(dims[0]) !in ch
    ensures var n := Branch(ch[k.Lookup(dims[0]) := CalcChain(dims[1..], k)]);
            && Locate(n, dims, a, k).Spot?
            && Locate(n, dims, a, other) ==
               if Locate(Branch(ch), dims, a, other).Spot? then Locate(Branch(ch), dims, a, other)
               else if Matches(other, Locate(n, dims, a, k).addr) then Locate(n, dims, a, k)
               else Nowhere
  {
    var c := k.Lookup(dims[0]);
    var b := a[dims[0] := c];
    assert forall d :: d in dims ==> d == dims[0] || d in dims[1..];
    assert Unused(dims[1..], b);
    ChainSound(dims[1..], k, b, rule);
    var chain := CalcChain(dims[1..], k);
    var s := Locate(chain, dims[1..], b, k);
    assert s.Spot? && Locate(Branch(ch[c := chain]), dims, a, k) == s;
    assert dims[0] in s.addr && s.addr[dims[0]] == c by {
      assert s.addr.Keys == b.Keys + DimSet(dims[1..]);
    }
    if other.Lookup(dims[0]) == c {
      assert Matches(other, b);
      ChainLocate(dims[1..], k, b, other);
    } else {
      assert !Matches(other, s.addr);
    }
  }

  /** A get leaves every located entry where it is; a new one appears only where the get answered calc. */
  lemma {:induction false} GetLocate(n: Node, dims: seq<Dim>, a: Addr, rule: Rule, k: Context, delta: Delta,
                                     retirement: int, other: Context)
    requires Inv(n, dims, a, rule) && Matches(k, a) && Matches(other, a)
    requires GetNode(n, dims, k, delta, retirement).Got?
    ensures var g := GetNode(n, dims, k, delta, retirement);
            && (g.answer.Calc? ==> Locate(g.node, dims, a, k).Spot?)
            && Locate(g.node, dims, a, other) ==
               if Locate(n, dims, a, other).Spot? then Locate(n, dims, a, other)
               else if g.answer.Calc? && Matches(other, Locate(g.node, dims, a, k).addr)
               then Locate(g.node, dims, a, k)
               else Nowhere
    decreases n
  {
    var g := GetNode(n, dims, k, delta, retirement);
    match n
    case Leaf(e) =>
      if e.content.Sub? {
        var l := e.content.level;
        if Missing(l.dims, delta) == {} {
          GetLocate(l.node, l.dims, a, rule, k, delta, MaxAge(retirement, e.age), other);
        }
      }
    case Branch(ch) =>
      var c := k.Lookup(dims[0]);
      var b := a[dims[0] := c];
      if c in ch {
        if other.Lookup(dims[0]) == c {
          GetLocate(ch[c], dims[1..], b, rule, k, delta, retirement, other);
        } else {
          GetLocate(ch[c], dims[1..], b, rule, k, delta, retirement, k);
          if g.answer.Calc? { NewAddressExtends(ch[c], dims[1..], b, rule, k, delta, retirement); }
        }
      } else {
        NewChild(ch, dims, a, rule, k, other);
      }
  }

  lemma {:induction false} NewAddressExtends(n: Node, dims: seq<Dim>, a: Addr, rule: Rule, k: Context,
                                             delta: Delta, retirement: int)
    requires Inv(n, dims, a, rule) && Matches(k, a)
    requires GetNode(n, dims, k, delta, retirement).Got? && GetNode(n, dims, k, delta, retirement).answer.Calc?
    ensures var s := Locate(GetNode(n, dims, k, delta, retirement).node, dims, a, k);
            s.Spot? && Extends(s.addr, a)
    decreases n
  {
    match n
    case Leaf(e) =>
      if e.content.Sub? && Missing(e.content.level.dims, delta) == {} {
        NewAddressExtends(e.content.level.node, e.content.level.dims, a, rule, k, delta, MaxAge(retirement, e.age));
      }
    case Branch(ch) =>
      var c := k.Lookup(dims[0]);
      if c in ch {
        NewAddressExtends(ch[c], dims[1..], a[dims[0] := c], rule, k, delta, retirement);
      } else {
        ChainSound(dims[1..], k, a[dims[0] := c], rule);
      }
  }

  /** A context whose entry needs only supplied dimensions is answered from that entry: a marker reads as a loop. */
  lemma {:induction false} GetAnswersEntry(n: Node, dims: seq<Dim>, a: Addr, rule: Rule, k: Context,
                                           delta: Delta, retirement: int)
    requires Inv(n, dims, a, rule) && Matches(k, a)
    requires Locate(n, dims, a, k).Spot? && forall d :: d in Locate(n, dims, a, k).addr ==> delta.Contains(d)
    ensures var g := GetNode(n, dims, k, delta, retirement);
            var c := Locate(n, dims, a, k).value;
            g.Got? && g.answer == if c.Calc? then Special(SpLoop) else c
    decreases n
  {
    LocateSound(n, dims, a, rule, k);
    match n
    case Leaf(e) =>
      if e.content.Sub? {
        var l := e.content.level;
        LocateSound(l.node, l.dims, a, rule, k);
        assert forall d :: d in l.dims ==> d in DimSet(l.dims);
        assert Missing(l.dims, delta) == {};
        GetAnswersEntry(l.node, l.dims, a, rule, k, delta, MaxAge(retirement, e.age));
      }
    case Branch(ch) =>
      var c := k.Lookup(dims[0]);
      GetAnswersEntry(ch[c], dims[1..], a[dims[0] := c], rule, k, delta, retirement);
  }

  /** Where the supplied dimensions lead: the address keys at which a get stops descending. */
  ghost function Reach(n: Node, dims: seq<Dim>, a: Addr, k: Context, delta: Delta): set<Dim>
    decreases n
  {
    match n
    case Leaf(e) =>
      (match e.content
       case Value(_) => a.Keys
       case Sub(l) => if Missing(l.dims, delta) != {} then a.Keys else Reach(l.node, l.dims, a, k, delta))
    case Branch(ch) =>
      if dims == [] || k.Lookup(dims[0]) !in ch then a.Keys + DimSet(dims)
      else Reach(ch[k.Lookup(dims[0])], dims[1..], a[dims[0] := k.Lookup(dims[0])], k, delta)
  }

  /** If exactly the dimensions of the address and the level are supplied, a get stops right there. */
  lemma {:induction false} ReachStops(n: Node, dims: seq<Dim>, a: Addr, rule: Rule, k: Context, delta: Delta)
    requires Inv(n, dims, a, rule)
    requires !delta.all && delta.dims == a.Keys + DimSet(dims)
    ensures Reach(n, dims, a, k, delta) == delta.dims
    decreases n
  {
    match n
    case Leaf(e) =>
      if e.content.Sub? {
        var l := e.content.level;
        assert l.dims[0] in l.dims && l.dims[0] in Missing(l.dims, delta);
      }
    case Branch(ch) =>
      var c := k.Lookup(dims[0]);
      if c in ch {
        assert DimSet(dims) == {dims[0]} + DimSet(dims[1..]);
        ReachStops(ch[c], dims[1..], a[dims[0] := c], rule, k, delta);
      }
  }

  // ---------------------------------------------------------------------------------------------
  // Set

  /** A value that may be stored at an address: not a marker, and a demand asks for something new. */
  ghost predicate Storable(value: Constant, a: Addr) {
    && !value.Calc?
    && (value.Demand? ==> value.dims != {} && forall d :: d in value.dims ==> d !in a)
  }

  /**
   Setting replaces the one entry the context leads to, never throws when that entry is there,
   and the rule needs to change at that entry's address only.
   */
  lemma {:induction false} SetSound(n: Node, dims: seq<Dim>, a: Addr, rule: Rule, changed: Rule, k: Context,
                                    value: Constant)
    requires Inv(n, dims, a, rule) && Matches(k, a)
    requires Locate(n, dims, a, k).Spot?
    requires var addr := Locate(n, dims, a, k).addr;
             Storable(value, addr) && changed(addr, value)
             && forall x, c :: x != addr && rule(x, c) ==> changed(x, c)
    ensures var r := SetNode(n, dims, k, value);
            r.Stored? && Inv(r.node, dims, a, changed)
    decreases n
  {
    var addr := Locate(n, dims, a, k).addr;
    LocateSound(n, dims, a, rule, k);
    match n
    case Leaf(e) =>
      if e.content.Sub? {
        var l := e.content.level;
        LocateSound(l.node, l.dims, a, rule, k);
        assert l.dims[0] in DimSet(l.dims) && l.dims[0] in addr && l.dims[0] !in a;
        SetSound(l.node, l.dims, a, rule, changed, k, value);
      } else if value.Demand? {
        var asc := Ascending(value.dims);
        assert asc == [] ==> DimSet(asc) == {};
        assert forall d :: d in asc ==> d in DimSet(asc);
      }
    case Branch(ch) =>
      var c := k.Lookup(dims[0]);
      var b := a[dims[0] := c];
      LocateSound(ch[c], dims[1..], b, rule, k);
      SetSound(ch[c], dims[1..], b, rule, changed, k, value);
      forall o | o in ch && o != c ensures Inv(ch[o], dims[1..], a[dims[0] := o], changed) {
        assert forall x :: Extends(x, a[dims[0] := o]) ==> x[dims[0]] == o;
        assert addr[dims[0]] == c;
        InvWeaken(ch[o], dims[1..], a[dims[0] := o], rule, changed);
      }
  }

  /** After a set, contexts of other entries find what they found before; those of this entry find the value. */
  lemma {:induction false} SetLocate(n: Node, dims: seq<Dim>, a: Addr, rule: Rule, k: Context, value: Constant,
                                     other: Context)
    requires Inv(n, dims, a, rule) && Matches(k, a) && Matches(other, a)
    requires Locate(n, dims, a, k).Spot?
    ensures var r := SetNode(n, dims, k, value);
            var addr := Locate(n, dims, a, k).addr;
            r.Stored? && Locate(r.node, dims, a, other) ==
            if !Matches(other, addr) then Locate(n, dims, a, other)
            else if value.Demand? then Nowhere else Spot(addr, value)
    decreases n
  {
    LocateSound(n, dims, a, rule, k);
    match n
    case Leaf(e) =>
      if e.content.Sub? {
        SetLocate(e.content.level.node, e.content.level.dims, a, rule, k, value, other);
      }
    case Branch(ch) =>
      var c := k.Lookup(dims[0]);
      var b := a[dims[0] := c];
      if other.Lookup(dims[0]) == c {
        SetLocate(ch[c], dims[1..], b, rule, k, value, other);
      } else {
        SetLocate(ch[c], dims[1..], b, rule, k, value, k);
        SetElsewhere(ch, dims, a, rule, k, value, other);
      }
  }

  /** A set below one ordinate changes nothing for another, whose contexts do not match the address either. */
  lemma SetElsewhere(ch: map<Constant, Node>, dims: seq<Dim>, a: Addr, rule: Rule, k: Context, value: Constant,
                     other: Context)
    requires Inv(Branch(ch), dims, a, rule) && Matches(k, a) && Locate(Branch(ch), dims, a, k).Spot?
    requires other.Lookup(dims[0]) != k.Lookup(dims[0])
    requires SetNode(Branch(ch), dims, k, value).Stored?
    ensures Locate(SetNode(Branch(ch), dims, k, value).node, dims, a, other) == Locate(Branch(ch), dims, a, other)
    ensures !Matches(other, Locate(Branch(ch), dims, a, k).addr)
  {
    var c := k.Lookup(dims[0]);
    LocateSound(ch[c], dims[1..], a[dims[0] := c], rule, k);
  }

  /** What was set is what the same context then gets: the value itself, or the demand if none of it is supplied. */
  lemma {:induction false} SetThenGet(n: Node, dims: seq<Dim>, a: Addr, rule: Rule, k: Context, value: Constant,
                                      delta: Delta, retirement: int)
    requires Inv(n, dims, a, rule) && Matches(k, a)
    requires Locate(n, dims, a, k).Spot? && forall d :: d in Locate(n, dims, a, k).addr ==> delta.Contains(d)
    requires Storable(value, Locate(n, dims, a, k).addr)
    requires value.Demand? ==> forall d :: d in value.dims ==> !delta.Contains(d)
    ensures var r := SetNode(n, dims, k, value);
            && r.Stored?
            && var g := GetNode(r.node, dims, k, delta, retirement);
               g.Got? && g.answer == value
    decreases n
  {
    LocateSound(n, dims, a, rule, k);
    match n
    case Leaf(e) =>
      if e.content.Sub? {
        var l := e.content.level;
        LocateSound(l.node, l.dims, a, rule, k);
        assert forall d :: d in l.dims ==> d in DimSet(l.dims);
        assert Missing(l.dims, delta) == {};
        SetThenGet(l.node, l.dims, a, rule, k, value, delta, MaxAge(retirement, e.age));
      } else if value.Demand? {
        var asc := Ascending(value.dims);
        assert forall d :: d in asc <==> d in DimSet(asc);
        assert Missing(asc, delta) == value.dims;
      }
    case Branch(ch) =>
      var c := k.Lookup(dims[0]);
      SetThenGet(ch[c], dims[1..], a[dims[0] := c], rule, k, value, delta, retirement);
  }

  // ---------------------------------------------------------------------------------------------
  // Garbage collection

  /** A subtree has retired: every entry in it is older than the retirement age. */
  ghost predicate Retired(n: Node, retirement: int)
    decreases n
  {
    match n
    case Leaf(e) => e.age > retirement && (e.content.Sub? ==> Retired(e.content.level.node, retirement))
    case Branch(ch) => forall c :: c in ch ==> Retired(ch[c], retirement)
  }

  /** What a sweep may do: keep exactly the unretired subtrees, and age each surviving entry by one. */
  ghost predicate Swept(before: Node, after: Node, retirement: int)
    decreases before
  {
    match before
    case Leaf(e) =>
      && after.Leaf?
      && after.entry.age == e.age + 1
      && (match e.content
          case Value(c) => after.entry.content == e.content
          case Sub(l) =>
            && after.entry.content.Sub?
            && after.entry.content.level.dims == l.dims
            && (Retired(l.node, retirement) ==> after.entry.content.level.node == Branch(map[]))
            && (!Retired(l.node, retirement) ==> Swept(l.node, after.entry.content.level.node, retirement)))
    case Branch(ch) =>
      && after.Branch?
      && (forall c :: c in after.children <==> c in ch && !Retired(ch[c], retirement))
      && (forall c :: c in after.children ==> c in ch && Swept(ch[c], after.children[c], retirement))
  }

  /** The collector deletes a subtree exactly when all of it has retired, and ages what survives by one. */
  lemma {:induction false} CollectSweeps(n: Node, dims: seq<Dim>, a: Addr, rule: Rule, retirement: int)
    requires Inv(n, dims, a, rule)
    ensures Collect(n, retirement).0 == Retired(n, retirement)
    ensures !Retired(n, retirement) ==> Swept(n, Collect(n, retirement).1, retirement)
    ensures Retired(n, retirement) && n.Branch? ==> Collect(n, retirement).1 == Branch(map[])
    decreases n
  {
    match n
    case Leaf(e) =>
      if e.content.Sub? {
        CollectSweeps(e.content.level.node, e.content.level.dims, a, rule, retirement);
        assert e.content.level.node.Branch?;
      }
    case Branch(ch) =>
      forall c | c in ch
        ensures Collect(ch[c], retirement).0 == Retired(ch[c], retirement)
        ensures !Retired(ch[c], retirement) ==> Swept(ch[c], Collect(ch[c], retirement).1, retirement)
      {
        CollectSweeps(ch[c], dims[1..], a[dims[0] := c], rule, retirement);
      }
      var left := Collect(n, retirement).1.children;
      assert forall c :: c in left <==> c in ch && !Retired(ch[c], retirement);
      if Collect(n, retirement).0 {
        assert left == map[];
      } else {
        assert left != map[];
        assert Retired(n, retirement) ==> left == map[];
      }
  }

  /** Collecting keeps the invariant of every rule. */
  lemma {:induction false} CollectSound(n: Node, dims: seq<Dim>, a: Addr, rule: Rule, retirement: int)
    requires Inv(n, dims, a, rule)
    ensures Inv(Collect(n, retirement).1, dims, a, rule)
    decreases n
  {
    match n
    case Leaf(e) =>
      if e.content.Sub? {
        CollectSound(e.content.level.node, e.content.level.dims, a, rule, retirement);
      }
    case Branch(ch) =>
      forall c | c in ch ensures Inv(Collect(ch[c], retirement).1, dims[1..], a[dims[0] := c], rule) {
        CollectSound(ch[c], dims[1..], a[dims[0] := c], rule, retirement);
      }
  }

  /** Collecting invents nothing: an entry found afterwards was there before. */
  lemma {:induction false} CollectLocate(n: Node, dims: seq<Dim>, a: Addr, k: Context, retirement: int)
    ensures var s := Locate(Collect(n, retirement).1, dims, a, k);
            s.Spot? ==> s == Locate(n, dims, a, k)
    decreases n
  {
    match n
    case Leaf(e) =>
      if e.content.Sub? {
        CollectLocate(e.content.level.node, e.content.level.dims, a, k, retirement);
      }
    case Branch(ch) =>
      if dims != [] && k.Lookup(dims[0]) in ch {
        var c := k.Lookup(dims[0]);
        CollectLocate(ch[c], dims[1..], a[dims[0] := c], k, retirement);
      }
  }

  /** The age of the entry that a context leads to. */
  ghost function AgeAt(n: Node, dims: seq<Dim>, a: Addr, k: Context): int
    requires Locate(n, dims, a, k).Spot?
    decreases n
  {
    match n
    case Leaf(e) => if e.content.Value? then e.age else AgeAt(e.content.level.node, e.content.level.dims, a, k)
    case Branch(ch) =>
      var c := k.Lookup(dims[0]);
      AgeAt(ch[c], dims[1..], a[dims[0] := c], k)
  }

  /**
   An entry below the one at hand is found after a sweep exactly if it is not older than the
   retirement age; then it is what it was, and nothing above it was deleted.
   */
  lemma {:induction false} CollectSpares(n: Node, dims: seq<Dim>, a: Addr, rule: Rule, k: Context, retirement: int)
    requires Inv(n, dims, a, rule) && Matches(k, a) && Locate(n, dims, a, k).Spot?
    ensures AgeAt(n, dims, a, k) <= retirement ==> !Collect(n, retirement).0
    ensures AgeAt(n, dims, a, k) <= retirement || (n.Leaf? && n.entry.content.Value?) ==>
              Locate(Collect(n, retirement).1, dims, a, k) == Locate(n, dims, a, k)
    ensures AgeAt(n, dims, a, k) > retirement && n.Leaf? && n.entry.content.Value? ==> Collect(n, retirement).0
    ensures AgeAt(n, dims, a, k) > retirement && !(n.Leaf? && n.entry.content.Value?) ==>
              Locate(Collect(n, retirement).1, dims, a, k) == Nowhere
    decreases n
  {
    match n
    case Leaf(e) =>
      if e.content.Sub? {
        CollectSpares(e.content.level.node, e.content.level.dims, a, rule, k, retirement);
      }
    case Branch(ch) =>
      var c := k.Lookup(dims[0]);
      CollectSpares(ch[c], dims[1..], a[dims[0] := c], rule, k, retirement);
      var left := Collect(n, retirement).1.children;
      if !Collect(ch[c], retirement).0 { assert c in left; }
  }

  /** Without an entry that the context leads to, a set throws. */
  lemma {:induction false} SetMisses(n: Node, dims: seq<Dim>, a: Addr, rule: Rule, k: Context, value: Constant)
    requires Inv(n, dims, a, rule) && Matches(k, a) && Locate(n, dims, a, k) == Nowhere
    ensures SetNode(n, dims, k, value).SetError?
    decreases n
  {
    match n
    case Leaf(e) =>
      SetMisses(e.content.level.node, e.content.level.dims, a, rule, k, value);
    case Branch(ch) =>
      var c := k.Lookup(dims[0]);
      if c in ch { SetMisses(ch[c], dims[1..], a[dims[0] := c], rule, k, value); }
  }

  // ---------------------------------------------------------------------------------------------
  // Where others' gets and sets leave a caller

  lemma {:induction false} ChainReach(dims: seq<Dim>, k: Context, a: Addr, other: Context, supplied: Delta)
    ensures Reach(CalcChain(dims, k), dims, a, other, supplied) == a.Keys + DimSet(dims)
    decreases |dims|
  {
    if dims != [] && other.Lookup(dims[0]) == k.Lookup(dims[0]) {
      ChainReach(dims[1..], k, a[dims[0] := k.Lookup(dims[0])], other, supplied);
      assert DimSet(dims) == {dims[0]} + DimSet(dims[1..]);
    }
  }

  /** A get leads nobody's supplied dimensions further, nor less far. */
  lemma {:induction false} GetKeepsReach(n: Node, dims: seq<Dim>, a: Addr, k: Context, delta: Delta, retirement: int,
                                         other: Context, supplied: Delta)
    requires GetNode(n, dims, k, delta, retirement).Got?
    ensures Reach(GetNode(n, dims, k, delta, retirement).node, dims, a, other, supplied) ==
            Reach(n, dims, a, other, supplied)
    decreases n
  {
    match n
    case Leaf(e) =>
      if e.content.Sub? {
        var l := e.content.level;
        if Missing(l.dims, delta) == {} {
          GetKeepsReach(l.node, l.dims, a, k, delta, MaxAge(retirement, e.age), other, supplied);
        }
      }
    case Branch(ch) =>
      var c := k.Lookup(dims[0]);
      if other.Lookup(dims[0]) == c {
        var b := a[dims[0] := c];
        if c in ch {
          GetKeepsReach(ch[c], dims[1..], b, k, delta, retirement, other, supplied);
        } else {
          ChainReach(dims[1..], k, b, other, supplied);
          assert DimSet(dims) == {dims[0]} + DimSet(dims[1..]);
        }
      }
  }

  /** A set leads nobody further who supplies just the dimensions on the way. */
  lemma {:induction false} SetKeepsReach(n: Node, dims: seq<Dim>, a: Addr, rule: Rule, k: Context, value: Constant,
                                         other: Context, supplied: set<Dim>)
    requires Inv(n, dims, a, rule) && Matches(k, a)
    requires Locate(n, dims, a, k).Spot? && Storable(value, Locate(n, dims, a, k).addr)
    requires Reach(n, dims, a, other, Delta(supplied, false)) == supplied
    ensures var r := SetNode(n, dims, k, value);
            r.Stored? && Reach(r.node, dims, a, other, Delta(supplied, false)) == supplied
    decreases n
  {
    match n
    case Leaf(e) =>
      if e.content.Sub? {
        var l := e.content.level;
        SetLocate(l.node, l.dims, a, rule, k, value, k);
        if Missing(l.dims, Delta(supplied, false)) == {} {
          SetKeepsReach(l.node, l.dims, a, rule, k, value, other, supplied);
        }
      } else if value.Demand? {
        var asc := Ascending(value.dims);
        SomeMember(value.dims);
        var d :| d in value.dims;
        assert d in DimSet(asc) && d in Missing(asc, Delta(supplied, false));
      }
    case Branch(ch) =>
      var c := k.Lookup(dims[0]);
      var b := a[dims[0] := c];
      SetLocate(ch[c], dims[1..], b, rule, k, value, k);
      if other.Lookup(dims[0]) == c {
        SetKeepsReach(ch[c], dims[1..], b, rule, k, value, other, supplied);
      }
  }
}
