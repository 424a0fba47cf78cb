/**
 The running context: a window of dimensions, each with a stack of ordinates, that slides open in
 both directions as dimensions are perturbed, and scoped perturbation on top of it.
 */
module ContextWindow {
  import opened Constants

  /** One slot of the window: the current ordinate next to the stack it is the top of. */
  datatype Slot = Slot(first: Constant, stack: seq<Constant>)

  function Top(stack: seq<Constant>): Constant {
    if stack == [] then UNSET else stack[|stack| - 1]
  }

  /** How often a dimension occurs in a list. */
  ghost function Count(list: seq<Dim>, d: Dim): nat {
    if list == [] then 0
    else Count(list[..|list| - 1], d) + if list[|list| - 1] == d then 1 else 0
  }

  lemma {:induction false} CountNext(list: seq<Dim>, i: nat, d: Dim)
    requires i < |list|
    ensures Count(list[..i + 1], d) == Count(list[..i], d) + if d == list[i] then 1 else 0
    ensures Count(list[..i + 1], d) <= Count(list, d)
  {
    assert list[..i + 1][..i] == list[..i];
    if i + 1 < |list| {
      CountNext(list[..|list| - 1], i, d);
      assert list[..|list| - 1][..i + 1] == list[..i + 1];
      assert list[..|list| - 1][..i] == list[..i];
    } else {
      assert list[..i + 1] == list;
    }
  }

  lemma CountNextAll(list: seq<Dim>, i: nat)
    requires i < |list|
    ensures forall d :: Count(list[..i + 1], d) == Count(list[..i], d) + if d == list[i] then 1 else 0
    ensures Count(list[..i + 1], list[i]) <= Count(list, list[i])
  {
    forall d { CountNext(list, i, d); }
    CountNext(list, i, list[i]);
  }

  /** The stack of a dimension in a window of slots that starts just after `low`. */
  function StackIn(slots: seq<Slot>, low: Dim, d: Dim): seq<Constant> {
    if low < d && d - low - 1 < |slots| then slots[d - low - 1].stack else []
  }

  /** Every stack has lost one value for each occurrence of its dimension in the list. */
  ghost predicate Popped(was: seq<Slot>, now: seq<Slot>, low: Dim, list: seq<Dim>) {
    forall d {:trigger StackIn(now, low, d)} {:trigger StackIn(was, low, d)} ::
      && StackIn(now, low, d) <= StackIn(was, low, d)
      && |StackIn(now, low, d)| + Count(list, d) == |StackIn(was, low, d)|
  }

  /** Every dimension of the list has enough on its stack. */
  ghost predicate CanPop(slots: seq<Slot>, low: Dim, list: seq<Dim>) {
    forall d {:trigger StackIn(slots, low, d)} :: Count(list, d) <= |StackIn(slots, low, d)|
  }

  lemma InWindow(slots: seq<Slot>, low: Dim, list: seq<Dim>, n: nat)
    requires CanPop(slots, low, list) && n < |list|
    ensures Count(list, list[n]) <= |StackIn(slots, low, list[n])|
  {
    CountNextAll(list, n);
  }

  class Window {
    /** One before the smallest dimension of the window. */
    var min: Dim
    /** One after the biggest. */
    var max: Dim
    var slots: seq<Slot>
    var setDims: set<Dim>

    ghost predicate Valid()
      reads this
    {
      && min <= -1 && max >= 0
      && |slots| == max - min - 1
      && (forall i :: 0 <= i < |slots| ==> slots[i].first == Top(slots[i].stack))
      && (forall d :: d in setDims <==> min < d < max && slots[d - min - 1].stack != [])
    }

    /** What the window stands for: every dimension has a stack, nearly all of them empty. */
    ghost function StackAt(d: Dim): seq<Constant>
      reads this
    {
      StackIn(slots, min, d)
    }

    constructor ()
      ensures Valid() && forall d :: StackAt(d) == []
    {
      min, max, slots, setDims := -1, 0, [], {};
    }

    constructor Copy(k: Window)
      requires k.Valid()
      ensures Valid() && forall d :: StackAt(d) == k.StackAt(d)
      ensures setDims == k.setDims
    {
      min, max, slots, setDims := k.min, k.max, k.slots, k.setDims;
    }

    function MakeIndex(d: Dim): int
      reads this
    {
      d - min - 1
    }

    function Lookup(d: Dim): (c: Constant)
      reads this
      requires Valid()
      ensures c == Top(StackAt(d))
    {
      if d <= min || d >= max then UNSET else slots[MakeIndex(d)].first
    }

    predicate HasEntry(d: Dim)
      reads this
      requires Valid()
      ensures HasEntry(d) <==> StackAt(d) != []
      ensures HasEntry(d) <==> d in setDims
    {
      d > min && d < max && slots[MakeIndex(d)].stack != []
    }

    /** The context as a value. */
    function View(): (k: Context)
      reads this
      requires Valid()
      ensures forall d :: k.Lookup(d) == Lookup(d)
      ensures k.values.Keys == setDims
    {
      Context(map d | d in setDims :: Lookup(d))
    }

    /** Allocates slots, at one end or the other, until the window holds `d`. */
    method Grow(d: Dim)
      requires Valid()
      modifies this`min, this`max, this`slots
      ensures Valid() && min < d < max && min <= old(min) && old(max) <= max
      ensures forall e :: StackAt(e) == old(StackAt(e))
    {
      var fill := Slot(UNSET, []);
      if d >= max {
        slots := slots + seq(d - max + 1, _ => fill);
        max := d + 1;
      } else if d <= min {
        slots := seq(min - d + 1, _ => fill) + slots;
        min := d - 1;
      }
    }

    method Perturb(d: Dim, c: Constant)
      requires Valid()
      modifies this
      ensures Valid()
      ensures forall e :: StackAt(e) == if e == d then old(StackAt(e)) + [c] else old(StackAt(e))
      ensures min <= old(min) && old(max) <= max && min < d < max
      ensures setDims == old(setDims) + {d}
    {
      Grow(d);
      Push(d, c);
    }

    /** Pushes on a stack that the window holds. */
    method Push(d: Dim, c: Constant)
      requires Valid() && min < d < max
      modifies this`slots, this`setDims
      ensures Valid()
      ensures forall e :: StackAt(e) == if e == d then old(StackAt(e)) + [c] else old(StackAt(e))
      ensures setDims == old(setDims) + {d}
    {
      var index := MakeIndex(d);
      slots := slots[index := Slot(c, slots[index].stack + [c])];
      setDims := setDims + {d};
    }

    method Pop(d: Dim)
      requires Valid() && StackAt(d) != []
      modifies this`slots, this`setDims
      ensures Valid()
      ensures forall e :: StackAt(e) == if e == d then old(StackAt(e)[..|StackAt(e)| - 1]) else old(StackAt(e))
    {
      var index := MakeIndex(d);
      var stack := slots[index].stack[..|slots[index].stack| - 1];
      if |stack| == 0 {
        setDims := setDims - {d};
        slots := slots[index := Slot(UNSET, stack)];
      } else {
        slots := slots[index := Slot(stack[|stack| - 1], stack)];
      }
    }

    method PopNext(ghost was: seq<Slot>, list: seq<Dim>, n: nat)
      requires Valid() && n < |list| && Popped(was, slots, min, list[..n])
      requires Count(list, list[n]) <= |StackIn(was, min, list[n])|
      modifies this`slots, this`setDims
      ensures Valid() && Popped(was, slots, min, list[..n + 1])
    {
      CountNextAll(list, n);
      assert StackIn(slots, min, list[n]) != [];
      Pop(list[n]);
      assert forall d :: StackIn(slots, min, d) == StackAt(d) && StackIn(old(slots), min, d) == old(StackAt(d));
    }

    /** Pops one value for every occurrence of a dimension in the list. */
    method Restore(list: seq<Dim>)
      requires Valid()
      requires CanPop(slots, min, list)
      modifies this`slots, this`setDims
      ensures Valid()
      ensures forall d :: StackAt(d) == old(StackAt(d))[..|old(StackAt(d))| - Count(list, d)]
    {
      ghost var was := slots;
      for n := 0 to |list|
        invariant Valid() && Popped(was, slots, min, list[..n])
      {
        InWindow(was, min, list, n);
        PopNext(was, list, n);
      }
      assert list[..|list|] == list;
    }

    /** Everything set here below a dimension is set on the other side, to an equal value. */
    ghost predicate AgreesBelow(rhs: Window, current: Dim)
      reads this, rhs
      requires Valid() && rhs.Valid()
    {
      forall d :: d < current && StackAt(d) != [] ==> rhs.StackAt(d) != [] && rhs.Lookup(d) == Lookup(d)
    }

    /** Something set here is not set on the other side, or to another value. */
    ghost predicate Differs(rhs: Window)
      reads this, rhs
      requires Valid() && rhs.Valid()
    {
      exists d :: StackAt(d) != [] && (rhs.StackAt(d) == [] || rhs.Lookup(d) != Lookup(d))
    }

    /** Everything set here is set on the other side, to an equal value. */
    method LessEqual(rhs: Window) returns (r: bool)
      requires Valid() && rhs.Valid()
      ensures r <==> forall d :: StackAt(d) != [] ==> rhs.StackAt(d) != [] && rhs.Lookup(d) == Lookup(d)
    {
      var current := min + 1;
      if min < rhs.min {
        r := UnsetUpTo(rhs, current, rhs.min + 1);
        if !r { return; }
        current := rhs.min + 1;
      }
      var last := if max < rhs.max then max else rhs.max;
      r := AgreesUpTo(rhs, current, last);
      if !r { return; }
      if max > rhs.max {
        r := UnsetUpTo(rhs, last, max);
      }
    }

    /** The slots outside the other window are all empty. */
    method UnsetUpTo(rhs: Window, first: Dim, last: Dim) returns (r: bool)
      requires Valid() && rhs.Valid() && min < first <= last <= max && (last <= rhs.min + 1 || rhs.max <= first)
      requires AgreesBelow(rhs, first)
      ensures r ==> AgreesBelow(rhs, last)
      ensures !r ==> Differs(rhs)
    {
      var current, index := first, MakeIndex(first);
      while current != last
        invariant first <= current <= last && index == MakeIndex(current) && AgreesBelow(rhs, current)
        decreases last - current
      {
        assert slots[index].stack == StackAt(current) && rhs.StackAt(current) == [];
        if slots[index].stack != [] {
          return false;
        }
        index, current := index + 1, current + 1;
      }
      r := true;
    }

    /** The slots both windows have agree. */
    method AgreesUpTo(rhs: Window, first: Dim, last: Dim) returns (r: bool)
      requires Valid() && rhs.Valid() && min < first <= last <= max && rhs.min < first && last <= rhs.max
      requires AgreesBelow(rhs, first)
      ensures r ==> AgreesBelow(rhs, last)
      ensures !r ==> Differs(rhs)
    {
      var current, index, rhsIndex := first, MakeIndex(first), rhs.MakeIndex(first);
      while current != last
        invariant first <= current <= last && AgreesBelow(rhs, current)
        invariant index == MakeIndex(current) && rhsIndex == rhs.MakeIndex(current)
        decreases last - current
      {
        var ls, rs := slots[index].stack, rhs.slots[rhsIndex].stack;
        assert ls == StackAt(current) && rs == rhs.StackAt(current);
        if ls != [] && (rs == [] || ls[|ls| - 1] != rs[|rs| - 1]) {
          return false;
        }
        index, current, rhsIndex := index + 1, current + 1, rhsIndex + 1;
      }
      r := true;
    }
  }

  /** A scope: remembers what it pushed, and pops exactly that when it is closed. */
  class Perturber {
    const k: Window
    var dims: seq<Dim>
    /** The window as it was when the scope was opened. */
    ghost const base: Dim -> seq<Constant>

    ghost predicate Valid()
      reads this, k
    {
      && k.Valid()
      && forall d :: base(d) <= k.StackAt(d) && |k.StackAt(d)| == |base(d)| + Count(dims, d)
    }

    constructor (k: Window)
      requires k.Valid()
      ensures this.k == k && Valid() && dims == []
      ensures forall d :: base(d) == k.StackAt(d)
    {
      this.k := k;
      dims := [];
      ghost var window := k;
      ghost var low, high, slots := k.min, k.max, k.slots;
      base := d => if low < d < high && 0 <= d - low - 1 < |slots| then slots[d - low - 1].stack else [];
    }

    method Perturb(d: Dim, c: Constant)
      requires Valid()
      modifies this`dims, k
      ensures Valid()
      ensures forall e :: k.StackAt(e) == if e == d then old(k.StackAt(e)) + [c] else old(k.StackAt(e))
      ensures k.setDims == old(k.setDims) + {d}
    {
      k.Perturb(d, c);
      dims := dims + [d];
      assert dims[..|dims| - 1] == old(dims);
    }

    /** The destructor. */
    method Close()
      requires Valid()
      modifies k
      ensures k.Valid() && forall d :: k.StackAt(d) == base(d)
    {
      k.Restore(dims);
      assert forall d :: old(k.StackAt(d))[..|old(k.StackAt(d))| - Count(dims, d)] == base(d);
    }

    /** Perturbs by everything that is set in another window. */
    method PerturbAll(other: Window)
      requires Valid() && other != k && other.Valid()
      modifies this`dims, k
      ensures Valid()
      ensures forall e :: k.StackAt(e) ==
                if other.HasEntry(e) then old(k.StackAt(e)) + [other.Lookup(e)] else old(k.StackAt(e))
    {
      var d := other.min + 1;
      for i := 0 to |other.slots|
        invariant d == other.min + 1 + i && Valid() && other.Valid()
        invariant forall e :: k.StackAt(e) ==
                    if e < d && other.HasEntry(e) then old(k.StackAt(e)) + [other.Lookup(e)] else old(k.StackAt(e))
      {
        PerturbBy(other, d, i);
        d := d + 1;
      }
    }

    method PerturbBy(other: Window, d: Dim, i: nat)
      requires Valid() && other != k && other.Valid() && i < |other.slots| && d == other.min + 1 + i
      modifies this`dims, k
      ensures Valid()
      ensures forall e :: k.StackAt(e) ==
                if e == d && other.HasEntry(e) then old(k.StackAt(e)) + [other.Lookup(e)] else old(k.StackAt(e))
    {
      var stack := other.slots[i].stack;
      assert stack == other.StackAt(d);
      if stack != [] {
        Perturb(d, stack[|stack| - 1]);
      }
    }
  }

  // ---------------------------------------------------------------------------------------------
  // Well-nested scopes

  datatype Act = Push(d: Dim, c: Constant) | Scope(body: seq<Act>)

  /**
   Runs a scope: pushes, and complete inner scopes, in any order and over any dimensions. When it
   has run, every stack, every lookup and the set of set dimensions are what they were.
   */
  method RunScope(k: Window, body: seq<Act>)
    requires k.Valid()
    modifies k
    ensures k.Valid()
    ensures forall d :: k.StackAt(d) == old(k.StackAt(d))
    ensures forall d :: k.Lookup(d) == old(k.Lookup(d)) && k.HasEntry(d) == old(k.HasEntry(d))
    ensures k.setDims == old(k.setDims)
    decreases body
  {
    var p := new Perturber(k);
    for i := 0 to |body|
      invariant p.Valid() && p.k == k && fresh(p)
      invariant forall d :: p.base(d) == old(k.StackAt(d))
    {
      match body[i] {
        case Push(d, c) => p.Perturb(d, c);
        case Scope(inner) => RunScope(k, inner);
      }
    }
    p.Close();
    assert forall d :: k.HasEntry(d) == old(k.HasEntry(d));
    forall d ensures d in k.setDims <==> d in old(k.setDims) {
      assert old(k.HasEntry(d)) <==> d in old(k.setDims);
    }
  }

  // ---------------------------------------------------------------------------------------------
  // Captured contexts

  ghost predicate Holds(pairs: seq<(Dim, Constant)>, d: Dim) {
    pairs != [] && (pairs[|pairs| - 1].0 == d || Holds(pairs[..|pairs| - 1], d))
  }

  lemma {:induction false} HoldsAt(pairs: seq<(Dim, Constant)>, d: Dim)
    ensures Holds(pairs, d) <==> exists i :: 0 <= i < |pairs| && pairs[i].0 == d
  {
    if pairs != [] {
      var rest := pairs[..|pairs| - 1];
      HoldsAt(rest, d);
      if Holds(rest, d) {
        var i :| 0 <= i < |rest| && rest[i].0 == d;
        assert pairs[i].0 == d;
      } else if i :| 0 <= i < |pairs| && pairs[i].0 == d {
        assert i < |rest| ==> rest[i].0 == d;
      }
    }
  }

  /** The pairs hold, in the order of the dimensions, exactly what is set in a context. */
  ghost predicate Captures(pairs: seq<(Dim, Constant)>, k: Context) {
    && (forall i, j :: 0 <= i < j < |pairs| ==> pairs[i].0 < pairs[j].0)
    && (forall i :: 0 <= i < |pairs| ==> pairs[i].0 in k.values && k.values[pairs[i].0] == pairs[i].1)
    && (forall d :: d in k.values ==> Holds(pairs, d))
  }

  lemma CaptureAscending(k: Context, pairs: seq<(Dim, Constant)>)
    requires var dims := Ascending(k.values.Keys);
             |pairs| == |dims| && forall i :: 0 <= i < |dims| ==> pairs[i] == (dims[i], k.Lookup(dims[i]))
    ensures Captures(pairs, k)
  {
    var dims := Ascending(k.values.Keys);
    assert forall i :: 0 <= i < |dims| ==> dims[i] in DimSet(dims);
    forall d | d in k.values ensures Holds(pairs, d) {
      assert d in DimSet(dims);
      var i :| 0 <= i < |dims| && dims[i] == d;
      assert pairs[i].0 == d;
      HoldsAt(pairs, d);
    }
  }

  /** A context captured for later: the dimensions that were set, in order, with their ordinates. */
  class MinimalContext {
    const context: seq<(Dim, Constant)>
    /** The window it was captured from, as a value. */
    ghost const captured: Context

    ghost predicate Valid() {
      Captures(context, captured)
    }

    static method Capture(k: Window) returns (dims: seq<Dim>, context: seq<(Dim, Constant)>)
      requires k.Valid()
      ensures dims == Ascending(k.setDims) && |context| == |dims|
      ensures forall i :: 0 <= i < |dims| ==> context[i] == (dims[i], k.Lookup(dims[i]))
    {
      dims, context := Ascending(k.setDims), [];
      for n := 0 to |dims|
        invariant |context| == n
        invariant forall i :: 0 <= i < n ==> context[i] == (dims[i], k.Lookup(dims[i]))
      {
        context := context + [(dims[n], k.Lookup(dims[n]))];
      }
    }

    constructor (k: Window)
      requires k.Valid()
      ensures Valid() && captured == k.View()
    {
      var dims, pairs := Capture(k);
      context := pairs;
      captured := k.View();
      CaptureAscending(k.View(), pairs);
    }

    /** The first position whose dimension is not below `d`, by bisection. */
    method LowerBound(d: Dim) returns (pos: nat)
      requires Valid()
      ensures pos <= |context|
      ensures forall i :: 0 <= i < pos ==> context[i].0 < d
      ensures forall i :: pos <= i < |context| ==> d <= context[i].0
    {
      var count := |context|;
      pos := 0;
      while count > 0
        invariant 0 <= count && pos + count <= |context|
        invariant forall i :: 0 <= i < pos ==> context[i].0 < d
        invariant forall i :: pos + count <= i < |context| ==> d <= context[i].0
      {
        var half := count / 2;
        if context[pos + half].0 < d {
          pos, count := pos + half + 1, count - half - 1;
        } else {
          count := half;
        }
      }
    }

    method Lookup(d: Dim) returns (c: Constant)
      requires Valid()
      ensures c == captured.Lookup(d)
    {
      var pos := LowerBound(d);
      if pos < |context| && context[pos].0 == d {
        c := context[pos].1;
      } else {
        c := UNSET;
        HoldsAt(context, d);
        assert forall i :: 0 <= i < |context| ==> context[i].0 != d;
      }
    }

    /** Perturbs by what was captured, wherever nothing is set in `k`; that may be the perturbed window itself. */
    method PerturbDifference(p: Perturber, k: Window)
      requires Valid() && p.Valid() && k.Valid()
      modifies p`dims, p.k
      ensures p.Valid()
      ensures forall d :: p.k.Lookup(d) ==
                if d in captured.values && !old(k.HasEntry(d)) then captured.Lookup(d) else old(p.k.Lookup(d))
    {
      ghost var was, had := p.k.View(), k.setDims;
      for n := 0 to |context|
        invariant p.Valid() && k.Valid()
        invariant Filled(p.k.View(), was, had, n) && SameBeyond(k.setDims, had, n)
      {
        PerturbNext(p, k, was, had, n);
      }
      assert context[..|context|] == context;
      forall d ensures Holds(context, d) <==> d in captured.values {
        HoldsAt(context, d);
      }
    }

    /** The first `n` dimensions have been perturbed by, unless they were set. */
    ghost predicate Filled(now: Context, was: Context, had: set<Dim>, n: nat)
      requires n <= |context|
    {
      forall d :: now.Lookup(d) == if Holds(context[..n], d) && d !in had then captured.Lookup(d) else was.Lookup(d)
    }

    /** Nothing has changed for the other dimensions. */
    ghost predicate SameBeyond(has: set<Dim>, had: set<Dim>, n: nat)
      requires n <= |context|
    {
      forall d :: !Holds(context[..n], d) ==> (d in has <==> d in had)
    }

    method PerturbNext(p: Perturber, k: Window, ghost was: Context, ghost had: set<Dim>, n: nat)
      requires Valid() && p.Valid() && k.Valid() && n < |context|
      requires Filled(p.k.View(), was, had, n) && SameBeyond(k.setDims, had, n)
      modifies p`dims, p.k
      ensures p.Valid() && k.Valid()
      ensures Filled(p.k.View(), was, had, n + 1) && SameBeyond(k.setDims, had, n + 1)
    {
      var (d, c) := context[n];
      ghost var before, has := p.k.View(), k.setDims;
      NotYetHeld(n);
      if !k.HasEntry(d) {
        p.Perturb(d, c);
        FilledNext(p.k.View(), before, was, had, n);
      } else {
        FilledNext(p.k.View(), before, was, had, n);
      }
      SameNext(k.setDims, has, had, n);
    }

    lemma NotYetHeld(n: nat)
      requires Valid() && n < |context|
      ensures !Holds(context[..n], context[n].0)
      ensures captured.Lookup(context[n].0) == context[n].1
    {
      HoldsAt(context[..n], context[n].0);
    }

    lemma FilledNext(now: Context, before: Context, was: Context, had: set<Dim>, n: nat)
      requires Valid() && n < |context| && Filled(before, was, had, n)
      requires var (d, c) := context[n];
               if d in had then now == before else forall e :: now.Lookup(e) == if e == d then c else before.Lookup(e)
      ensures Filled(now, was, had, n + 1)
    {
      NotYetHeld(n);
      assert context[..n + 1][..n] == context[..n];
    }

    lemma SameNext(has: set<Dim>, before: set<Dim>, had: set<Dim>, n: nat)
      requires n < |context| && SameBeyond(before, had, n)
      requires has == before || has == before + {context[n].0}
      ensures SameBeyond(has, had, n + 1)
    {
      assert context[..n + 1][..n] == context[..n];
    }
  }

  // ---------------------------------------------------------------------------------------------
  // Scoped dimension sets

  /** A dimension set that callers share. */
  class DeltaCell {
    var dims: set<Dim>

    constructor (dims: set<Dim>)
      ensures this.dims == dims
    {
      this.dims := dims;
    }
  }

  /** A scope over a shared dimension set: remembers, for each dimension, whether adding it changed anything. */
  class DeltaPerturber {
    const delta: DeltaCell
    var perturbations: map<Dim, bool>
    ghost const base: set<Dim>

    ghost predicate Valid()
      reads this, delta
    {
      && delta.dims == base + perturbations.Keys
      && forall d :: d in perturbations ==> (perturbations[d] <==> d !in base)
    }

    constructor (delta: DeltaCell)
      ensures Valid() && this.delta == delta && base == delta.dims && perturbations == map[]
    {
      this.delta := delta;
      perturbations := map[];
      base := delta.dims;
    }

    method Perturb(d: Dim)
      requires Valid()
      modifies this`perturbations, delta
      ensures Valid() && delta.dims == old(delta.dims) + {d}
    {
      var inserted := d !in delta.dims;
      delta.dims := delta.dims + {d};
      if d !in perturbations {
        perturbations := perturbations[d := inserted];
      }
    }

    /** The destructor: whatever was added, and however often, the set is as the scope found it. */
    method Close()
      requires Valid()
      modifies delta
      ensures delta.dims == base
    {
      var todo := perturbations.Keys;
      while todo != {}
        invariant todo <= perturbations.Keys
        invariant delta.dims == base + todo
        decreases todo
      {
        SomeMember(todo);
        var d :| d in todo;
        if perturbations[d] {
          delta.dims := delta.dims - {d};
        }
        todo := todo - {d};
      }
    }
  }
}
