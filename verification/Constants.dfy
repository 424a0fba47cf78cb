/** The values, contexts and dimension sets that every part of the run-time system passes around. */
module Constants {

  datatype Option<+T> = None | Some(value: T)

  /** A dimension index; the source stores it in a signed 32-bit integer. */
  type Dim = int

  /** The special constants that the modelled code creates or tests for. */
  datatype SpecialKind = SpDimension | SpUndef | SpMultidef | SpLoop | SpOther(code: nat)

  /** Types whose values are only ever compared for equality. */
  datatype AtomKind = AtomError | AtomBool | AtomUchar | AtomUstring | AtomFloatmp
                    | AtomDimension | AtomInfinity | AtomUuid

  /** A TransLucid constant. An absent bound of a range is infinite. */
  datatype Constant =
    | Special(kind: SpecialKind)
    | Intmp(n: int)
    | Atom(atom: AtomKind, id: int)
    | TypeName(named: int)
    | Range(lower: Option<int>, upper: Option<int>)
    | Calc
    | Demand(dims: set<Dim>)

  /** What a dimension that nobody set evaluates to. */
  const UNSET: Constant := Special(SpDimension)

  /** A context seen as a value: the dimensions that are set, and what they are set to. */
  datatype Context = Context(values: map<Dim, Constant>) {
    function Lookup(d: Dim): Constant {
      if d in values then values[d] else UNSET
    }
  }

  /** The dimensions a caller has supplied; with `all` every dimension counts as supplied. */
  datatype Delta = Delta(dims: set<Dim>, all: bool) {
    predicate Contains(d: Dim) {
      all || d in dims
    }
  }

  lemma SomeMember(s: set<Dim>)
    requires s != {}
    ensures exists y :: y in s
  {
    if forall y :: y !in s { assert false; }
  }

  /** Every finite non-empty set of dimensions has a least element. */
  lemma {:induction false} LeastExists(s: set<Dim>)
    requires s != {}
    ensures exists m :: m in s && forall x :: x in s ==> m <= x
  {
    SomeMember(s);
    var y :| y in s;
    if s != {y} {
      var t := s - {y};
      assert t == {} ==> s == {y};
      LeastExists(t);
      var m :| m in t && forall x :: x in t ==> m <= x;
      var least := if y <= m then y else m;
      assert least in s;
      forall x | x in s ensures least <= x { if x != y { assert x in t; } }
    }
  }

  function DimSet(dims: seq<Dim>): set<Dim> {
    set d | d in dims
  }

  ghost predicate Distinct(dims: seq<Dim>) {
    forall i, j :: 0 <= i < j < |dims| ==> dims[i] != dims[j]
  }

  /** A std::set<dimension_index> read from begin to end. */
  function Ascending(s: set<Dim>): (r: seq<Dim>)
    ensures DimSet(r) == s
    ensures forall i, j :: 0 <= i < j < |r| ==> r[i] < r[j]
  {
    if s == {} then [] else
      LeastExists(s);
      var m :| m in s && forall x :: x in s ==> m <= x;
      var rest := Ascending(s - {m});
      AscendingFrom(s, m, rest);
      [m] + rest
  }

  lemma AscendingFrom(s: set<Dim>, m: Dim, rest: seq<Dim>)
    requires m in s && (forall x :: x in s ==> m <= x) && DimSet(rest) == s - {m}
    requires forall i, j :: 0 <= i < j < |rest| ==> rest[i] < rest[j]
    ensures DimSet([m] + rest) == s
    ensures forall i, j :: 0 <= i < j < |[m] + rest| ==> ([m] + rest)[i] < ([m] + rest)[j]
  {
    forall i | 0 <= i < |rest| ensures m < rest[i] {
      assert rest[i] in DimSet(rest);
    }
    assert DimSet([m] + rest) == {m} + DimSet(rest);
  }
}
