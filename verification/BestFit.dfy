/** Region inclusion, and the choice of the most specific and newest of the applicable equations. */
module BestFit {
  import opened Constants

  /** The number of each type, as the table of comparators is indexed. */
  function TypeIndex(c: Constant): int {
    match c
    case Atom(AtomError, _) => 0
    case Atom(AtomBool, _) => 1
    case Special(_) => 2
    case Intmp(_) => 3
    case Atom(AtomUchar, _) => 4
    case Atom(AtomUstring, _) => 5
    case Atom(AtomFloatmp, _) => 6
    case Atom(AtomDimension, _) => 7
    case Atom(AtomInfinity, _) => 8
    case TypeName(_) => 11
    case Range(_, _) => RANGE_TYPE
    case Atom(AtomUuid, _) => 17
    case Calc => 22
    case Demand(_) => 23
  }

  const RANGE_TYPE := 12

  // ---------------------------------------------------------------------------------------------
  // Values

  predicate WithinRange(n: int, lower: Option<int>, upper: Option<int>) {
    (lower.None? || lower.value <= n) && (upper.None? || upper.value >= n)
  }

  predicate RangeWithin(lo: Option<int>, hi: Option<int>, lower: Option<int>, upper: Option<int>) {
    && (lower.None? || (lo.Some? && lower.value <= lo.value))
    && (upper.None? || (hi.Some? && upper.value >= hi.value))
  }

  /** Does value `a` refine value `b`? */
  predicate ValueRefines(a: Constant, b: Constant) {
    match b
    case TypeName(t) => if a.TypeName? then a == b else TypeIndex(a) == t
    case Range(lower, upper) =>
      (match a
       case Intmp(n) => WithinRange(n, lower, upper)
       case Range(lo, hi) => RangeWithin(lo, hi, lower, upper)
       case _ => false)
    case _ => a == b
  }

  datatype Containment = IS | IN | IMP

  predicate ValueInside(smaller: Constant, specifier: Containment, bigger: Constant) {
    match specifier
    case IN => ValueRefines(smaller, bigger)
    case IS => smaller == bigger
    case IMP => bigger.TypeName? && TypeIndex(smaller) == bigger.named
  }

  predicate ValueSmaller(smaller: Constant, specifier: Containment, bigger: Constant) {
    match specifier
    case IN => ValueRefines(smaller, bigger)
    case IS => smaller == bigger
    case IMP => smaller == bigger
  }

  // ---------------------------------------------------------------------------------------------
  // Regions

  datatype Entry = Entry(dim: Dim, spec: Containment, ordinate: Constant)

  /** A region is a map from dimensions, read in order. */
  type Region = seq<Entry>

  ghost predicate IsRegion(r: Region) {
    forall i, j :: 0 <= i < j < |r| ==> r[i].dim < r[j].dim
  }

  ghost predicate Applicable(r: Region, k: Context) {
    forall i :: 0 <= i < |r| ==> ValueInside(k.Lookup(r[i].dim), r[i].spec, r[i].ordinate)
  }

  /** The values of a type, by the number of the type. */
  ghost predicate HasType(x: Constant, t: int) {
    match x
    case Special(_) => t == 2
    case Intmp(_) => t == 3
    case TypeName(_) => t == 11
    case Range(_, _) => t == 12
    case Calc => t == 22
    case Demand(_) => t == 23
    case Atom(atom, _) =>
      match atom
      case AtomError => t == 0
      case AtomBool => t == 1
      case AtomUchar => t == 4
      case AtomUstring => t == 5
      case AtomFloatmp => t == 6
      case AtomDimension => t == 7
      case AtomInfinity => t == 8
      case AtomUuid => t == 17
  }

  /**
   What an entry of a region asks of an ordinate. An "is" asks for the value itself and an "imp" for
   a value of the type. An "in" of a type asks for a value of it, of a range for an integer in it or
   a range with bounds at least as tight, and of any other value for that value.
   */
  ghost predicate Asks(e: Entry, x: Constant) {
    match e.spec
    case IS => x == e.ordinate
    case IMP => e.ordinate.TypeName? && HasType(x, e.ordinate.named)
    case IN =>
      match e.ordinate
      case TypeName(t) => if x.TypeName? then x.named == t else HasType(x, t)
      case Range(lower, upper) =>
        if x.Intmp? then (lower.Some? ==> lower.value <= x.n) && (upper.Some? ==> x.n <= upper.value)
        else
          && x.Range?
          && (lower.Some? ==> x.lower.Some? && lower.value <= x.lower.value)
          && (upper.Some? ==> x.upper.Some? && x.upper.value <= upper.value)
      case _ => x == e.ordinate
  }

  lemma InsideIsAsked(x: Constant, e: Entry)
    ensures ValueInside(x, e.spec, e.ordinate) <==> Asks(e, x)
  {
  }

  /** On everything that is not itself a type, asking for a type is the same with either specifier. */
  lemma ImpIsIn(d: Dim, x: Constant, t: int)
    requires !x.TypeName?
    ensures ValueInside(x, IMP, TypeName(t)) <==> ValueInside(x, IN, TypeName(t))
    ensures ValueInside(x, IMP, TypeName(t)) <==> HasType(x, t)
  {
    InsideIsAsked(x, Entry(d, IMP, TypeName(t)));
  }

  /** Nothing is of a type that is none. */
  lemma ImpOfValue(x: Constant, y: Constant)
    requires !y.TypeName?
    ensures !ValueInside(x, IMP, y)
  {
  }

  /** A range that holds an integer is within another exactly if all its integers are. */
  lemma RangeWithinExactly(lo: Option<int>, hi: Option<int>, lower: Option<int>, upper: Option<int>)
    requires lo.None? || hi.None? || lo.value <= hi.value
    ensures RangeWithin(lo, hi, lower, upper) <==> forall n :: WithinRange(n, lo, hi) ==> WithinRange(n, lower, upper)
  {
    if lower.Some? && (lo.None? || lo.value < lower.value) {
      var n := if lo.Some? then lo.value else if hi.Some? && hi.value < lower.value then hi.value else lower.value - 1;
      assert WithinRange(n, lo, hi) && !WithinRange(n, lower, upper);
    } else if upper.Some? && (hi.None? || hi.value > upper.value) {
      var n := if hi.Some? then hi.value else if lo.Some? && lo.value > upper.value then lo.value else upper.value + 1;
      assert WithinRange(n, lo, hi) && !WithinRange(n, lower, upper);
    }
  }

  /** A region is applicable in a context exactly if the context's ordinates are what its entries ask for. */
  method RegionApplicable(r: Region, k: Context) returns (ok: bool)
    ensures ok <==> Applicable(r, k)
    ensures ok <==> forall i :: 0 <= i < |r| ==> Asks(r[i], k.Lookup(r[i].dim))
  {
    forall i | 0 <= i < |r|
      ensures ValueInside(k.Lookup(r[i].dim), r[i].spec, r[i].ordinate) <==> Asks(r[i], k.Lookup(r[i].dim))
    {
      InsideIsAsked(k.Lookup(r[i].dim), r[i]);
    }
    for i := 0 to |r|
      invariant forall j :: 0 <= j < i ==> ValueInside(k.Lookup(r[j].dim), r[j].spec, r[j].ordinate)
    {
      if !ValueInside(k.Lookup(r[i].dim), r[i].spec, r[i].ordinate) {
        return false;
      }
    }
    ok := true;
  }

  /** Comparing two regions reads 32-bit dimensions through a signed 16-bit variable. */
  function Trunc16(d: Dim): int {
    (d + 32768) % 65536 - 32768
  }

  /**
   One dimension of a region against the same dimension of another: an "is" is smaller than an "in"
   or an "imp" without a look at the ordinates.
   */
  predicate EntrySmaller(a: Entry, b: Entry) {
    if a.spec != b.spec then a.spec.IS? && (b.spec.IN? || b.spec.IMP?)
    else ValueSmaller(a.ordinate, a.spec, b.ordinate)
  }

  /** The merge of two regions, from two positions on. */
  predicate MergeFrom(a: Region, b: Region, i: nat, j: nat)
    requires i <= |a| && j <= |b|
    decreases |a| - i
  {
    if i == |a| || j == |b| then j == |b|
    else
      var d1, d2 := Trunc16(a[i].dim), Trunc16(b[j].dim);
      if d2 < d1 then false
      else if d2 > d1 then MergeFrom(a, b, i + 1, j)
      else EntrySmaller(a[i], b[j]) && MergeFrom(a, b, i + 1, j + 1)
  }

  /**
   What makes a subset proper: another dimension, or an ordinate that is strictly smaller under the
   same specifier.
   */
  ghost predicate Proper(a: Region, b: Region) {
    |a| != |b| || exists i :: 0 <= i < |a| && StrictlySmaller(a[i], b[i])
  }

  predicate StrictlySmaller(a: Entry, b: Entry) {
    a.spec == b.spec && !ValueSmaller(b.ordinate, a.spec, a.ordinate)
  }

  /** Is region `a` a subset of region `b`? With `canequal` false a subset must also be seen to be proper. */
  method RegionSubset(a: Region, b: Region, canequal: bool) returns (r: bool)
    ensures r <==> MergeFrom(a, b, 0, 0) && (canequal || Proper(a, b))
  {
    var equal := true;
    var i, j := 0, 0;
    while i < |a| && j < |b|
      invariant 0 <= i <= |a| && 0 <= j <= |b|
      invariant MergeFrom(a, b, 0, 0) == MergeFrom(a, b, i, j)
      invariant j <= i && (equal <==> i == j && forall h :: 0 <= h < i ==> !StrictlySmaller(a[h], b[h]))
      decreases |a| - i
    {
      var d1, d2 := Trunc16(a[i].dim), Trunc16(b[j].dim);
      if d2 < d1 {
        return false;
      }
      if d2 > d1 {
        i := i + 1;
        equal := false;
        continue;
      }
      if a[i].spec != b[j].spec {
        if !(a[i].spec.IS? && (b[j].spec.IN? || b[j].spec.IMP?)) {
          return false;
        }
      } else {
        if !ValueSmaller(a[i].ordinate, a[i].spec, b[j].ordinate) {
          return false;
        } else if !ValueSmaller(b[j].ordinate, a[i].spec, a[i].ordinate) {
          equal := false;
        }
      }
      i, j := i + 1, j + 1;
    }
    if j < |b| {
      return false;
    }
    if i < |a| {
      return true;
    }
    r := !equal || canequal;
  }

  /** A value against a range around it: fewer contexts, but nothing that makes the subset proper. */
  lemma SpecifierAloneIsNotProper(d: Dim)
    ensures var a, b := [Entry(d, IS, Intmp(0))], [Entry(d, IN, Range(Some(0), Some(1)))];
            && IsRegion(a) && IsRegion(b) && MergeFrom(a, b, 0, 0) && !Proper(a, b)
            && !Applicable(a, Context(map[d := Intmp(1)])) && Applicable(b, Context(map[d := Intmp(1)]))
  {
    var a, b := [Entry(d, IS, Intmp(0))], [Entry(d, IN, Range(Some(0), Some(1)))];
    assert MergeFrom(a, b, 1, 1);
    assert !ValueInside(Intmp(1), a[0].spec, a[0].ordinate);
  }

  // ---------------------------------------------------------------------------------------------
  // The merge is the rule for each dimension

  ghost predicate FoundFrom(a: Region, i: nat, e: Entry) {
    exists h :: i <= h < |a| && a[h].dim == e.dim && EntrySmaller(a[h], e)
  }

  ghost predicate PointwiseFrom(a: Region, b: Region, i: nat, j: nat) {
    forall h :: j <= h < |b| ==> FoundFrom(a, i, b[h])
  }

  /** Every dimension of `b` is a dimension of `a`, with a smaller entry. */
  ghost predicate Pointwise(a: Region, b: Region) {
    PointwiseFrom(a, b, 0, 0)
  }

  /** The dimensions keep their order when they are truncated. */
  ghost predicate KeepsOrder(dims: set<Dim>) {
    forall d, e :: d in dims && e in dims && d < e ==> Trunc16(d) < Trunc16(e)
  }

  ghost predicate Over(r: Region, dims: set<Dim>) {
    forall i :: 0 <= i < |r| ==> r[i].dim in dims
  }

  lemma {:induction false} MergeIsPointwiseFrom(a: Region, b: Region, i: nat, j: nat, dims: set<Dim>)
    requires IsRegion(a) && IsRegion(b) && Over(a, dims) && Over(b, dims) && KeepsOrder(dims)
    requires i <= |a| && j <= |b|
    ensures MergeFrom(a, b, i, j) <==> PointwiseFrom(a, b, i, j)
    decreases |a| - i
  {
    if i < |a| && j < |b| {
      var d, e := a[i].dim, b[j].dim;
      assert d < e ==> Trunc16(d) < Trunc16(e);
      assert e < d ==> Trunc16(e) < Trunc16(d);
      if e < d {
        assert forall h :: i <= h < |a| ==> a[h].dim != e;
        assert !FoundFrom(a, i, b[j]);
      } else if d < e {
        MergeIsPointwiseFrom(a, b, i + 1, j, dims);
        forall h | j <= h < |b| ensures FoundFrom(a, i, b[h]) <==> FoundFrom(a, i + 1, b[h]) {
          assert b[h].dim >= e;
        }
      } else {
        MergeIsPointwiseFrom(a, b, i + 1, j + 1, dims);
        assert forall h :: i < h < |a| ==> a[h].dim != e;
        assert FoundFrom(a, i, b[j]) <==> EntrySmaller(a[i], b[j]);
        forall h | j < h < |b| ensures FoundFrom(a, i, b[h]) <==> FoundFrom(a, i + 1, b[h]) {
          assert b[h].dim > e;
        }
      }
    } else if j < |b| {
      assert !FoundFrom(a, i, b[j]);
    }
  }

  /** Truncation spoils the merge for any two dimensions whose order it does not keep. */
  lemma TruncationSpoils(d: Dim, e: Dim)
    requires d < e && Trunc16(d) >= Trunc16(e)
    ensures exists a, b :: IsRegion(a) && IsRegion(b) && Over(a, {d, e}) && Over(b, {d, e})
                           && MergeFrom(a, b, 0, 0) != Pointwise(a, b)
  {
    var at, ae := Entry(d, IS, Intmp(0)), Entry(e, IS, Intmp(0));
    var b := [ae];
    if Trunc16(d) == Trunc16(e) {
      var a := [at];
      assert MergeFrom(a, b, 1, 1);
      assert MergeFrom(a, b, 0, 0);
      assert !FoundFrom(a, 0, b[0]);
      assert IsRegion(a) && Over(a, {d, e}) && Over(b, {d, e});
      assert MergeFrom(a, b, 0, 0) != Pointwise(a, b);
    } else {
      var a := [at, ae];
      assert !MergeFrom(a, b, 0, 0);
      forall h | 0 <= h < |b| ensures FoundFrom(a, 0, b[h]) {
        assert a[1].dim == b[h].dim && EntrySmaller(a[1], b[h]);
      }
      assert IsRegion(a) && Over(a, {d, e}) && Over(b, {d, e});
      assert MergeFrom(a, b, 0, 0) != Pointwise(a, b);
    }
  }

  /**
   The two-iterator merge is the rule for each dimension, on all regions over some dimensions,
   exactly if truncation keeps the order of those dimensions.
   */
  lemma MergeIsPointwiseExactly(dims: set<Dim>)
    ensures KeepsOrder(dims) <==>
            forall a, b :: IsRegion(a) && IsRegion(b) && Over(a, dims) && Over(b, dims) ==>
              (MergeFrom(a, b, 0, 0) <==> Pointwise(a, b))
  {
    if KeepsOrder(dims) {
      forall a, b | IsRegion(a) && IsRegion(b) && Over(a, dims) && Over(b, dims)
        ensures MergeFrom(a, b, 0, 0) <==> Pointwise(a, b)
      {
        MergeIsPointwiseFrom(a, b, 0, 0, dims);
      }
    } else {
      var d, e :| d in dims && e in dims && d < e && Trunc16(d) >= Trunc16(e);
      TruncationSpoils(d, e);
      var a, b :| IsRegion(a) && IsRegion(b) && Over(a, {d, e}) && Over(b, {d, e}) &&
            MergeFrom(a, b, 0, 0) != Pointwise(a, b);
      assert Over(a, dims) && Over(b, dims);
    }
  }

  /** Dimensions that fit in 16 bits keep their order. */
  lemma SmallDimensionsKeepOrder(dims: set<Dim>)
    requires forall d :: d in dims ==> -32768 <= d <= 32767
    ensures KeepsOrder(dims)
  {
    forall d | d in dims ensures Trunc16(d) == d {
    }
  }

  // ---------------------------------------------------------------------------------------------
  // The rule is inclusion

  /** A range with an integer in it. */
  predicate HoldsInteger(c: Constant) {
    c.Range? && (c.lower.None? || c.upper.None? || c.lower.value <= c.upper.value)
  }

  /**
   The one way refinement fails to be transitive: integers refine a range, ranges refine their type,
   integers do not.
   */
  predicate RangeAgainstType(a: Entry, b: Entry) {
    a.spec.IN? && b.spec.IN? && HoldsInteger(a.ordinate) && b.ordinate == TypeName(RANGE_TYPE)
  }

  lemma RefinesTransitive(x: Constant, a: Constant, b: Constant)
    requires ValueRefines(x, a) && ValueRefines(a, b)
    ensures ValueRefines(x, b) || (x.Intmp? && HoldsInteger(a) && b == TypeName(RANGE_TYPE))
  {
  }

  ghost predicate NoRangeAgainstType(a: Region, b: Region) {
    forall i, j :: 0 <= i < |a| && 0 <= j < |b| && a[i].dim == b[j].dim ==> !RangeAgainstType(a[i], b[j])
  }

  function IntegerOf(c: Constant): (n: int)
    requires HoldsInteger(c)
    ensures WithinRange(n, c.lower, c.upper)
  {
    if c.lower.Some? then c.lower.value else if c.upper.Some? then c.upper.value else 0
  }

  /** One dimension: what is inside the smaller entry is inside the bigger one, given that something is inside both. */
  lemma EntryIncluded(a: Entry, b: Entry, x: Constant, common: Constant)
    requires EntrySmaller(a, b) && !RangeAgainstType(a, b)
    requires ValueInside(common, a.spec, a.ordinate) && ValueInside(common, b.spec, b.ordinate)
    requires ValueInside(x, a.spec, a.ordinate)
    ensures ValueInside(x, b.spec, b.ordinate)
  {
    if a.spec.IN? && b.spec.IN? {
      RefinesTransitive(x, a.ordinate, b.ordinate);
    }
  }

  /**
   Under the assumption the source states, that some context is inside both regions, the rule means
   inclusion exactly if no range of integers in `a` meets the type of ranges in `b`.
   */
  lemma PointwiseIsInclusionExactly(a: Region, b: Region, common: Context)
    requires IsRegion(a) && IsRegion(b) && Pointwise(a, b)
    requires Applicable(a, common) && Applicable(b, common)
    ensures NoRangeAgainstType(a, b) <==> forall k :: Applicable(a, k) ==> Applicable(b, k)
  {
    if NoRangeAgainstType(a, b) {
      forall k, j | Applicable(a, k) && 0 <= j < |b| ensures ValueInside(k.Lookup(b[j].dim), b[j].spec, b[j].ordinate) {
        assert FoundFrom(a, 0, b[j]);
        var i :| 0 <= i < |a| && a[i].dim == b[j].dim && EntrySmaller(a[i], b[j]);
        EntryIncluded(a[i], b[j], k.Lookup(a[i].dim), common.Lookup(a[i].dim));
      }
    } else {
      var i, j :| 0 <= i < |a| && 0 <= j < |b| && a[i].dim == b[j].dim && RangeAgainstType(a[i], b[j]);
      var k := Context(common.values[a[i].dim := Intmp(IntegerOf(a[i].ordinate))]);
      forall h | 0 <= h < |a| ensures ValueInside(k.Lookup(a[h].dim), a[h].spec, a[h].ordinate) {
        assert h != i ==> k.Lookup(a[h].dim) == common.Lookup(a[h].dim);
      }
      assert Applicable(a, k);
      assert !ValueInside(k.Lookup(b[j].dim), b[j].spec, b[j].ordinate);
    }
  }

  /**
   A region of a range is called smaller than one of the type of ranges, yet an integer in the range
   is only in the first.
   */
  lemma RangeTypeSpoils(d: Dim)
    ensures var a := [Entry(d, IN, Range(Some(0), Some(1)))];
            var b := [Entry(d, IN, TypeName(RANGE_TYPE))];
            && IsRegion(a) && IsRegion(b) && MergeFrom(a, b, 0, 0)
            && (exists common :: Applicable(a, common) && Applicable(b, common))
            && Applicable(a, Context(map[d := Intmp(0)])) && !Applicable(b, Context(map[d := Intmp(0)]))
  {
    var a, b := [Entry(d, IN, Range(Some(0), Some(1)))], [Entry(d, IN, TypeName(RANGE_TYPE))];
    var common := Context(map[d := Range(Some(0), Some(1))]);
    assert Applicable(a, common) && Applicable(b, common);
    assert MergeFrom(a, b, 1, 1);
    assert !ValueInside(Intmp(0), b[0].spec, b[0].ordinate);
  }

  /** `regionSubset` is sound. */
  lemma RegionSubsetSound(a: Region, b: Region, common: Context, dims: set<Dim>)
    requires IsRegion(a) && IsRegion(b) && Over(a, dims) && Over(b, dims) && KeepsOrder(dims)
    requires Applicable(a, common) && Applicable(b, common) && MergeFrom(a, b, 0, 0) && NoRangeAgainstType(a, b)
    ensures forall k :: Applicable(a, k) ==> Applicable(b, k)
  {
    MergeIsPointwiseFrom(a, b, 0, 0, dims);
    PointwiseIsInclusionExactly(a, b, common);
  }

  // ---------------------------------------------------------------------------------------------
  // Inclusion is the rule

  /** Specifiers of which the first can ask for less: the same, or "is" against the others. */
  predicate Comparable(a: Entry, b: Entry) {
    a.spec == b.spec || (a.spec.IS? && !b.spec.IS?)
  }

  ghost predicate Included(a: Entry, b: Entry) {
    forall x :: ValueInside(x, a.spec, a.ordinate) ==> ValueInside(x, b.spec, b.ordinate)
  }

  /** An entry that asks for no more is smaller, given that the specifiers compare and something meets both. */
  lemma IncludedIsSmaller(a: Entry, b: Entry, common: Constant)
    requires ValueInside(common, a.spec, a.ordinate) && ValueInside(common, b.spec, b.ordinate)
    requires Comparable(a, b) && Included(a, b)
    ensures EntrySmaller(a, b)
  {
    if !a.spec.IMP? {
      assert ValueInside(a.ordinate, a.spec, a.ordinate);
      assert ValueInside(a.ordinate, b.spec, b.ordinate);
    }
  }

  lemma EntryIsInclusionExactly(a: Entry, b: Entry, common: Constant)
    requires ValueInside(common, a.spec, a.ordinate) && ValueInside(common, b.spec, b.ordinate)
    requires !RangeAgainstType(a, b)
    ensures EntrySmaller(a, b) <==> Comparable(a, b) && Included(a, b)
  {
    if EntrySmaller(a, b) {
      forall x | ValueInside(x, a.spec, a.ordinate) ensures ValueInside(x, b.spec, b.ordinate) {
        EntryIncluded(a, b, x, common);
      }
    }
    if Comparable(a, b) && Included(a, b) { IncludedIsSmaller(a, b, common); }
  }

  /**
   Under the same specifier an entry is smaller exactly if it asks for no more, whether or not
   anything meets both; it is enough that something meets the first.
   */
  lemma SameSpecifierExactly(a: Entry, b: Entry, x: Constant)
    requires a.spec == b.spec && ValueInside(x, a.spec, a.ordinate) && !RangeAgainstType(a, b)
    ensures EntrySmaller(a, b) <==> Included(a, b)
  {
    if EntrySmaller(a, b) {
      forall y | ValueInside(y, a.spec, a.ordinate) ensures ValueInside(y, b.spec, b.ordinate) {
        if a.spec.IN? { RefinesTransitive(y, a.ordinate, b.ordinate); }
      }
    }
    if Included(a, b) {
      assert ValueInside(x, b.spec, b.ordinate);
      IncludedIsSmaller(a, b, x);
    }
  }

  /**
   An "is" against another specifier is smaller without a look; it asks for no more exactly if its
   value is asked for.
   */
  lemma IsAgainstOthers(a: Entry, b: Entry)
    requires a.spec.IS? && !b.spec.IS?
    ensures EntrySmaller(a, b) && (Included(a, b) <==> ValueInside(a.ordinate, b.spec, b.ordinate))
  {
    if Included(a, b) { assert ValueInside(a.ordinate, a.spec, a.ordinate); }
  }

  /** A value that an entry does not ask for. */
  function OutsideOf(e: Entry): (x: Constant)
    ensures !ValueInside(x, e.spec, e.ordinate)
  {
    if ValueInside(Intmp(0), e.spec, e.ordinate) then
      if ValueInside(Atom(AtomBool, 0), e.spec, e.ordinate) then Intmp(1) else Atom(AtomBool, 0)
    else Intmp(0)
  }

  ghost predicate ComparableEntries(a: Region, b: Region) {
    forall i, j :: 0 <= i < |a| && 0 <= j < |b| && a[i].dim == b[j].dim ==> Comparable(a[i], b[j])
  }

  ghost predicate RegionIncluded(a: Region, b: Region) {
    forall k :: Applicable(a, k) ==> Applicable(b, k)
  }

  /** A context of a region remains one when the ordinate of one dimension is replaced as its entry allows. */
  lemma Replaced(a: Region, common: Context, d: Dim, x: Constant)
    requires Applicable(a, common)
    requires forall i :: 0 <= i < |a| && a[i].dim == d ==> ValueInside(x, a[i].spec, a[i].ordinate)
    ensures Applicable(a, Context(common.values[d := x]))
    ensures Context(common.values[d := x]).Lookup(d) == x
  {
    var k := Context(common.values[d := x]);
    forall i | 0 <= i < |a| ensures ValueInside(k.Lookup(a[i].dim), a[i].spec, a[i].ordinate) {
      assert a[i].dim != d ==> k.Lookup(a[i].dim) == common.Lookup(a[i].dim);
    }
  }

  lemma InclusionIsFound(a: Region, b: Region, common: Context, j: nat)
    requires IsRegion(a) && IsRegion(b) && Applicable(a, common) && Applicable(b, common)
    requires ComparableEntries(a, b) && RegionIncluded(a, b) && j < |b|
    ensures FoundFrom(a, 0, b[j])
  {
    var d := b[j].dim;
    if i :| 0 <= i < |a| && a[i].dim == d {
      forall x | ValueInside(x, a[i].spec, a[i].ordinate) ensures ValueInside(x, b[j].spec, b[j].ordinate) {
        Replaced(a, common, d, x);
        assert Applicable(b, Context(common.values[d := x]));
      }
      IncludedIsSmaller(a[i], b[j], common.Lookup(d));
    } else {
      var x := OutsideOf(b[j]);
      Replaced(a, common, d, x);
      assert false;
    }
  }

  /** The rule holds of every region that is included, if the specifiers compare. */
  lemma InclusionIsPointwise(a: Region, b: Region, common: Context)
    requires IsRegion(a) && IsRegion(b) && Applicable(a, common) && Applicable(b, common)
    requires ComparableEntries(a, b) && RegionIncluded(a, b)
    ensures Pointwise(a, b)
  {
    forall j: nat | j < |b| ensures FoundFrom(a, 0, b[j]) {
      InclusionIsFound(a, b, common, j);
    }
  }

  /**
   `regionSubset` is sound and complete: given a context in both, and no range against the type of
   ranges, it answers true exactly if the specifiers compare and every context of the first region
   is one of the second.
   */
  lemma RegionSubsetExactly(a: Region, b: Region, common: Context, dims: set<Dim>)
    requires IsRegion(a) && IsRegion(b) && Over(a, dims) && Over(b, dims) && KeepsOrder(dims)
    requires Applicable(a, common) && Applicable(b, common) && NoRangeAgainstType(a, b)
    ensures MergeFrom(a, b, 0, 0) <==> ComparableEntries(a, b) && RegionIncluded(a, b)
  {
    MergeIsPointwiseFrom(a, b, 0, 0, dims);
    if Pointwise(a, b) {
      PointwiseIsInclusionExactly(a, b, common);
      forall i, j | 0 <= i < |a| && 0 <= j < |b| && a[i].dim == b[j].dim ensures Comparable(a[i], b[j]) {
        assert FoundFrom(a, 0, b[j]);
      }
    }
    if ComparableEntries(a, b) && RegionIncluded(a, b) { InclusionIsPointwise(a, b, common); }
  }

  // ---------------------------------------------------------------------------------------------
  // Choosing

  /** An applicable equation: its evaluated region, when it was added, and which it is. */
  datatype Candidate = Candidate(region: Region, provenance: int, id: nat)

  datatype Choice = Undefined | MultiplyDefined | RunEquation(chosen: Candidate)

  ghost predicate OldestFirst(cs: seq<Candidate>) {
    forall i, j :: 0 <= i < j < |cs| ==> cs[i].provenance <= cs[j].provenance
  }

  /** The region of an equation is included in that of every other one. */
  ghost predicate IsBest(cs: seq<Candidate>, i: nat)
    requires i < |cs|
  {
    forall j :: 0 <= j < |cs| && j != i ==> MergeFrom(cs[i].region, cs[j].region, 0, 0)
  }

  ghost predicate IsNewestBest(cs: seq<Candidate>, i: nat)
    requires i < |cs|
  {
    IsBest(cs, i) && forall j :: 0 <= j < |cs| && IsBest(cs, j) ==> cs[j].provenance <= cs[i].provenance
  }

  /** What best fitting is meant to choose. */
  ghost predicate Chosen(cs: seq<Candidate>, choice: Choice) {
    match choice
    case Undefined => forall i :: 0 <= i < |cs| ==> !IsBest(cs, i)
    case MultiplyDefined =>
      exists i, j :: 0 <= i < |cs| && 0 <= j < |cs| && i != j && IsNewestBest(cs, i) && IsNewestBest(cs, j)
    case RunEquation(c) =>
      exists i ::
        && 0 <= i < |cs| && c == cs[i] && IsNewestBest(cs, i)
        && forall j :: 0 <= j < |cs| && IsNewestBest(cs, j) ==> j == i
  }

  lemma ChoiceIsUnique(cs: seq<Candidate>, x: Choice, y: Choice)
    requires Chosen(cs, x) && Chosen(cs, y)
    ensures x == y
  {
  }

  /** The positions, in order, of the equations whose region is included in every other. */
  method BestPositions(applicable: seq<Candidate>) returns (best: seq<nat>)
    ensures forall h :: 0 <= h < |best| ==> best[h] < |applicable| && IsBest(applicable, best[h])
    ensures forall g, h :: 0 <= g < h < |best| ==> best[g] < best[h]
    ensures forall i :: 0 <= i < |applicable| && IsBest(applicable, i) ==> i in best
  {
    best := [];
    for i := 0 to |applicable|
      invariant forall h :: 0 <= h < |best| ==> best[h] < i && IsBest(applicable, best[h])
      invariant forall g, h :: 0 <= g < h < |best| ==> best[g] < best[h]
      invariant forall h :: 0 <= h < i && IsBest(applicable, h) ==> h in best
    {
      var isBest := true;
      for j := 0 to |applicable|
        invariant isBest <==> forall h :: 0 <= h < j && h != i ==>
                  MergeFrom(applicable[i].region, applicable[h].region, 0, 0)
      {
        if i != j {
          var subset := RegionSubset(applicable[i].region, applicable[j].region, true);
          if !subset {
            isBest := false;
          }
        }
      }
      if isBest {
        best := best + [i];
      }
    }
  }

  /** Of the positions from the back, those with the same provenance as the last. */
  method NewestOf(applicable: seq<Candidate>, best: seq<nat>) returns (newest: seq<nat>)
    requires best != [] && forall h :: 0 <= h < |best| ==> best[h] < |applicable|
    ensures 1 <= |newest| <= |best|
    ensures forall h :: 0 <= h < |newest| ==> newest[h] == best[|best| - 1 - h]
    ensures forall h :: 0 <= h < |newest| ==>
            applicable[newest[h]].provenance == applicable[best[|best| - 1]].provenance
    ensures |newest| < |best| ==>
              applicable[best[|best| - 1 - |newest|]].provenance != applicable[best[|best| - 1]].provenance
  {
    newest := [];
    var iter := |best| - 1;
    var latest := applicable[best[iter]].provenance;
    while iter >= 0 && latest == applicable[best[iter]].provenance
      invariant -1 <= iter < |best| && |newest| == |best| - 1 - iter
      invariant iter == |best| - 1 ==> latest == applicable[best[iter]].provenance
      invariant forall h :: 0 <= h < |newest| ==>
                  newest[h] == best[|best| - 1 - h] && applicable[newest[h]].provenance == latest
      decreases iter
    {
      newest := newest + [best[iter]];
      iter := iter - 1;
    }
  }

  /** Chooses among the applicable equations, which are listed from the oldest to the newest. */
  method Bestfit(applicable: seq<Candidate>) returns (choice: Choice)
    requires OldestFirst(applicable)
    ensures Chosen(applicable, choice)
  {
    if |applicable| == 0 {
      return Undefined;
    } else if |applicable| == 1 {
      OnlyOne(applicable);
      return RunEquation(applicable[0]);
    }
    var best := BestPositions(applicable);
    if |best| >= 1 {
      var newest := NewestOf(applicable, best);
      NewestAreNewest(applicable, best, newest);
      if |newest| == 1 {
        choice := RunEquation(applicable[newest[0]]);
      } else {
        assert newest[1] < newest[0];
        assert newest[0] in newest && newest[1] in newest;
        assert IsNewestBest(applicable, newest[1]) && IsNewestBest(applicable, newest[0]);
        choice := MultiplyDefined;
      }
    } else {
      choice := Undefined;
    }
  }

  lemma OnlyOne(cs: seq<Candidate>)
    requires |cs| == 1
    ensures Chosen(cs, RunEquation(cs[0]))
  {
    assert IsBest(cs, 0);
    assert IsNewestBest(cs, 0);
  }

  /** Because the list is in order, the run at the back is exactly the newest of the best. */
  lemma NewestAreNewest(cs: seq<Candidate>, best: seq<nat>, newest: seq<nat>)
    requires OldestFirst(cs) && best != []
    requires forall h :: 0 <= h < |best| ==> best[h] < |cs| && IsBest(cs, best[h])
    requires forall g, h :: 0 <= g < h < |best| ==> best[g] < best[h]
    requires forall i :: 0 <= i < |cs| && IsBest(cs, i) ==> i in best
    requires 1 <= |newest| <= |best|
    requires forall h :: 0 <= h < |newest| ==> newest[h] == best[|best| - 1 - h]
    requires forall h :: 0 <= h < |newest| ==> cs[newest[h]].provenance == cs[best[|best| - 1]].provenance
    requires |newest| < |best| ==> cs[best[|best| - 1 - |newest|]].provenance != cs[best[|best| - 1]].provenance
    ensures forall i :: 0 <= i < |cs| ==> (IsNewestBest(cs, i) <==> i in newest)
  {
    var last := best[|best| - 1];
    forall i | 0 <= i < |cs| && IsBest(cs, i) ensures cs[i].provenance <= cs[last].provenance {
      var h :| 0 <= h < |best| && best[h] == i;
      assert h < |best| - 1 ==> best[h] < last;
    }
    assert IsNewestBest(cs, last);
    var older := |best| - |newest|;
    forall h | 0 <= h < older ensures cs[best[h]].provenance < cs[last].provenance {
      assert cs[best[older - 1]].provenance < cs[last].provenance;
      assert best[h] <= best[older - 1];
    }
    forall i | 0 <= i < |cs| && IsNewestBest(cs, i) ensures i in newest {
      var h :| 0 <= h < |best| && best[h] == i;
      assert h >= older;
      assert newest[|best| - 1 - h] == i;
    }
  }

  // ---------------------------------------------------------------------------------------------
  // What the choice means

  /** One list is a rearrangement of another. */
  ghost predicate Rearranged(cs: seq<Candidate>, ds: seq<Candidate>, to: seq<nat>, from: seq<nat>) {
    && |cs| == |ds| == |to| == |from|
    && (forall i :: 0 <= i < |cs| ==> to[i] < |ds| && from[to[i]] == i && ds[to[i]] == cs[i])
    && (forall i :: 0 <= i < |ds| ==> from[i] < |cs| && to[from[i]] == i)
  }

  lemma RearrangedBest(cs: seq<Candidate>, ds: seq<Candidate>, to: seq<nat>, from: seq<nat>, i: nat)
    requires Rearranged(cs, ds, to, from) && i < |cs|
    ensures IsBest(cs, i) <==> IsBest(ds, to[i])
  {
    forall j | 0 <= j < |ds| && j != to[i] && IsBest(cs, i)
      ensures MergeFrom(ds[to[i]].region, ds[j].region, 0, 0)
    {
      assert to[from[j]] == j && from[j] != i;
    }
    forall j | 0 <= j < |cs| && j != i && IsBest(ds, to[i])
      ensures MergeFrom(cs[i].region, cs[j].region, 0, 0)
    {
      assert from[to[j]] == j && to[j] != to[i];
    }
  }

  lemma RearrangedNewest(cs: seq<Candidate>, ds: seq<Candidate>, to: seq<nat>, from: seq<nat>, i: nat)
    requires Rearranged(cs, ds, to, from) && i < |cs|
    ensures IsNewestBest(cs, i) <==> IsNewestBest(ds, to[i])
  {
    forall j | 0 <= j < |cs| ensures IsBest(cs, j) <==> IsBest(ds, to[j]) {
      RearrangedBest(cs, ds, to, from, j);
    }
    forall j | 0 <= j < |ds| ensures IsBest(ds, j) <==> IsBest(cs, from[j]) {
      RearrangedBest(cs, ds, to, from, from[j]);
    }
    if IsNewestBest(cs, i) {
      forall j | 0 <= j < |ds| && IsBest(ds, j) ensures ds[j].provenance <= ds[to[i]].provenance {
        assert ds[to[from[j]]] == cs[from[j]];
      }
    }
  }

  /** Reordering definitions, for instance those of equal provenance, does not change the outcome. */
  lemma OrderDoesNotMatter(cs: seq<Candidate>, ds: seq<Candidate>, to: seq<nat>, from: seq<nat>, x: Choice, y: Choice)
    requires Rearranged(cs, ds, to, from) && Chosen(cs, x) && Chosen(ds, y)
    ensures x == y
  {
    forall i | 0 <= i < |cs| ensures IsNewestBest(cs, i) <==> IsNewestBest(ds, to[i]) {
      RearrangedNewest(cs, ds, to, from, i);
    }
    forall i | 0 <= i < |cs| ensures IsBest(cs, i) <==> IsBest(ds, to[i]) {
      RearrangedBest(cs, ds, to, from, i);
    }
    RearrangedChoice(cs, ds, to, from, x);
    ChoiceIsUnique(ds, x, y);
  }

  lemma RearrangedChoice(cs: seq<Candidate>, ds: seq<Candidate>, to: seq<nat>, from: seq<nat>, x: Choice)
    requires Rearranged(cs, ds, to, from) && Chosen(cs, x)
    requires forall i :: 0 <= i < |cs| ==> (IsNewestBest(cs, i) <==> IsNewestBest(ds, to[i]))
    requires forall i :: 0 <= i < |cs| ==> (IsBest(cs, i) <==> IsBest(ds, to[i]))
    ensures Chosen(ds, x)
  {
    forall j | 0 <= j < |ds|
      ensures IsNewestBest(ds, j) <==> IsNewestBest(cs, from[j])
      ensures IsBest(ds, j) <==> IsBest(cs, from[j])
    {
      assert to[from[j]] == j;
    }
    match x
    case Undefined =>
    case MultiplyDefined => RearrangedMultiple(cs, ds, to, from);
    case RunEquation(c) => RearrangedRun(cs, ds, to, from, c);
  }

  lemma RearrangedMultiple(cs: seq<Candidate>, ds: seq<Candidate>, to: seq<nat>, from: seq<nat>)
    requires Rearranged(cs, ds, to, from) && Chosen(cs, MultiplyDefined)
    requires forall i :: 0 <= i < |cs| ==> (IsNewestBest(cs, i) <==> IsNewestBest(ds, to[i]))
    ensures Chosen(ds, MultiplyDefined)
  {
    var i, j :| 0 <= i < |cs| && 0 <= j < |cs| && i != j && IsNewestBest(cs, i) && IsNewestBest(cs, j);
    assert to[i] != to[j] && IsNewestBest(ds, to[i]) && IsNewestBest(ds, to[j]);
  }

  lemma RearrangedRun(cs: seq<Candidate>, ds: seq<Candidate>, to: seq<nat>, from: seq<nat>, c: Candidate)
    requires Rearranged(cs, ds, to, from) && Chosen(cs, RunEquation(c))
    requires forall i :: 0 <= i < |cs| ==> (IsNewestBest(cs, i) <==> IsNewestBest(ds, to[i]))
    requires forall j :: 0 <= j < |ds| ==> (IsNewestBest(ds, j) <==> IsNewestBest(cs, from[j]))
    ensures Chosen(ds, RunEquation(c))
  {
    var i :|
      && 0 <= i < |cs| && c == cs[i] && IsNewestBest(cs, i)
      && forall j :: 0 <= j < |cs| && IsNewestBest(cs, j) ==> j == i;
    forall j | 0 <= j < |ds| && IsNewestBest(ds, j) ensures j == to[i] {
      assert from[j] == i;
    }
    assert c == ds[to[i]] && IsNewestBest(ds, to[i]);
  }

  /** Every context inside the region of the chosen equation is inside the region of every other applicable equation. */
  lemma ChosenIsMostSpecific(cs: seq<Candidate>, chosen: Candidate, k: Context, dims: set<Dim>, j: nat)
    requires Chosen(cs, RunEquation(chosen)) && KeepsOrder(dims) && j < |cs|
    requires forall i :: 0 <= i < |cs| ==>
             IsRegion(cs[i].region) && Over(cs[i].region, dims) && Applicable(cs[i].region, k)
    requires forall i :: 0 <= i < |cs| ==> NoRangeAgainstType(chosen.region, cs[i].region)
    ensures forall other :: Applicable(chosen.region, other) ==> Applicable(cs[j].region, other)
  {
    var i :| 0 <= i < |cs| && chosen == cs[i] && IsNewestBest(cs, i);
    if i != j {
      RegionSubsetSound(cs[i].region, cs[j].region, k, dims);
    }
  }

  // ---------------------------------------------------------------------------------------------
  // The choice, told from the contexts

  /**
   Regions as best fitting meets them: over dimensions that keep their order, and with the current
   context in each.
   */
  ghost predicate AllApplicable(cs: seq<Candidate>, k: Context, dims: set<Dim>) {
    && KeepsOrder(dims)
    && forall i :: 0 <= i < |cs| ==>
         IsRegion(cs[i].region) && Over(cs[i].region, dims) && Applicable(cs[i].region, k)
  }

  /** The region is included in every other, with specifiers that compare. */
  ghost predicate IncludedInAll(cs: seq<Candidate>, i: nat)
    requires i < |cs|
  {
    forall j :: 0 <= j < |cs| && j != i ==>
      ComparableEntries(cs[i].region, cs[j].region) && RegionIncluded(cs[i].region, cs[j].region)
  }

  /** An equation whose region is included in every other one is never passed over. */
  lemma NeverPassedOver(cs: seq<Candidate>, i: nat, k: Context, dims: set<Dim>, choice: Choice)
    requires AllApplicable(cs, k, dims) && i < |cs| && IncludedInAll(cs, i) && Chosen(cs, choice)
    ensures !choice.Undefined?
    ensures choice.RunEquation? ==> cs[i].provenance <= choice.chosen.provenance
  {
    forall j | 0 <= j < |cs| && j != i ensures MergeFrom(cs[i].region, cs[j].region, 0, 0) {
      InclusionIsPointwise(cs[i].region, cs[j].region, k);
      MergeIsPointwiseFrom(cs[i].region, cs[j].region, 0, 0, dims);
    }
    assert IsBest(cs, i);
  }

  /** No range of one region meets the type of ranges in another. */
  ghost predicate NoRangesAgainstTypes(cs: seq<Candidate>) {
    forall i, j :: 0 <= i < |cs| && 0 <= j < |cs| && i != j ==> NoRangeAgainstType(cs[i].region, cs[j].region)
  }

  lemma BestIsIncludedExactly(cs: seq<Candidate>, i: nat, k: Context, dims: set<Dim>)
    requires AllApplicable(cs, k, dims) && NoRangesAgainstTypes(cs) && i < |cs|
    ensures IsBest(cs, i) <==> IncludedInAll(cs, i)
  {
    forall j | 0 <= j < |cs| && j != i
      ensures MergeFrom(cs[i].region, cs[j].region, 0, 0) <==>
              ComparableEntries(cs[i].region, cs[j].region) && RegionIncluded(cs[i].region, cs[j].region)
    {
      RegionSubsetExactly(cs[i].region, cs[j].region, k, dims);
    }
  }

  ghost predicate IsNewestIncluded(cs: seq<Candidate>, i: nat)
    requires i < |cs|
  {
    IncludedInAll(cs, i) && forall j :: 0 <= j < |cs| && IncludedInAll(cs, j) ==> cs[j].provenance <= cs[i].provenance
  }

  /** The choice in terms of contexts: the newest of the equations whose region is included in every other. */
  ghost predicate ChosenByInclusion(cs: seq<Candidate>, choice: Choice) {
    match choice
    case Undefined => forall i :: 0 <= i < |cs| ==> !IncludedInAll(cs, i)
    case MultiplyDefined =>
      exists i, j :: 0 <= i < |cs| && 0 <= j < |cs| && i != j && IsNewestIncluded(cs, i) && IsNewestIncluded(cs, j)
    case RunEquation(c) =>
      exists i ::
        && 0 <= i < |cs| && c == cs[i] && IsNewestIncluded(cs, i)
        && forall j :: 0 <= j < |cs| && IsNewestIncluded(cs, j) ==> j == i
  }

  /** What is chosen is told by the contexts of the regions alone. */
  lemma ChosenByInclusionExactly(cs: seq<Candidate>, k: Context, dims: set<Dim>, choice: Choice)
    requires AllApplicable(cs, k, dims) && NoRangesAgainstTypes(cs)
    ensures Chosen(cs, choice) <==> ChosenByInclusion(cs, choice)
  {
    forall i | 0 <= i < |cs| ensures IsBest(cs, i) <==> IncludedInAll(cs, i) {
      BestIsIncludedExactly(cs, i, k, dims);
    }
    assert forall i :: 0 <= i < |cs| ==> (IsNewestBest(cs, i) <==> IsNewestIncluded(cs, i));
  }
}
