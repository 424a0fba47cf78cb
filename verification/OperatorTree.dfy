/** Building the tree of an expression whose operators bring their own precedence and associativity. */
module OperatorTree {

  datatype Assoc = AssocLeft | AssocRight | AssocNon

  datatype Operator = Operator(name: string, precedence: int, assoc: Assoc)

  /** An operand is anything but a bare binary operation. The nodes of the source have value semantics. */
  datatype Expr = Operand(id: nat) | BinaryOp(op: Operator, lhs: Expr, rhs: Expr)

  /** The tree so far, or what the parser throws. */
  datatype Outcome = Built(tree: Expr) | MixedAssociativity | MultipleNonAssociative

  /** Adds an operator and its right operand to the tree of everything to the left. */
  function Insert(op: Operator, lhs: Expr, rhs: Expr): Outcome
    decreases lhs, 1
  {
    match lhs
    case Operand(_) => Built(BinaryOp(op, lhs, rhs))
    case BinaryOp(top, _, _) =>
      if top.precedence > op.precedence then Built(BinaryOp(op, lhs, rhs))
      else if top.precedence < op.precedence then AddRight(lhs, op, rhs)
      else if top.assoc != op.assoc then MixedAssociativity
      else match top.assoc
        case AssocNon => MultipleNonAssociative
        case AssocLeft => Built(BinaryOp(op, lhs, rhs))
        case AssocRight => AddRight(lhs, op, rhs)
  }

  function AddRight(node: Expr, op: Operator, rhs: Expr): Outcome
    requires node.BinaryOp?
    decreases node, 0
  {
    match Insert(op, node.rhs, rhs)
    case Built(tree) => Built(node.(rhs := tree))
    case error => error
  }

  // ---------------------------------------------------------------------------------------------
  // What the tree should be

  /** The operators of an expression, from left to right. */
  function Operators(e: Expr): seq<Operator> {
    match e
    case Operand(_) => []
    case BinaryOp(op, l, r) => Operators(l) + [op] + Operators(r)
  }

  /** The operands of an expression, from left to right. */
  function Operands(e: Expr): (r: seq<nat>)
    ensures |r| == |Operators(e)| + 1
  {
    match e
    case Operand(id) => [id]
    case BinaryOp(op, l, r) => Operands(l) + Operands(r)
  }

  /**
   An operator may stand in the left operand of another if it binds tighter, or as tightly and both
   group to the left.
   */
  predicate MayStandLeft(inner: Operator, outer: Operator) {
    inner.precedence > outer.precedence
    || (inner.precedence == outer.precedence && inner.assoc.AssocLeft? && outer.assoc.AssocLeft?)
  }

  predicate MayStandRight(inner: Operator, outer: Operator) {
    inner.precedence > outer.precedence
    || (inner.precedence == outer.precedence && inner.assoc.AssocRight? && outer.assoc.AssocRight?)
  }

  /** The tree respects precedence and associativity. */
  ghost predicate Respects(e: Expr) {
    match e
    case Operand(_) => true
    case BinaryOp(op, l, r) =>
      && Respects(l) && Respects(r)
      && (forall i :: 0 <= i < |Operators(l)| ==> MayStandLeft(Operators(l)[i], op))
      && (forall i :: 0 <= i < |Operators(r)| ==> MayStandRight(Operators(r)[i], op))
  }

  /** Two operators of equal precedence that cannot be grouped, with nothing looser between them to keep them apart. */
  ghost predicate Conflict(ops: seq<Operator>, i: nat, j: nat) {
    && i < j < |ops|
    && ops[i].precedence == ops[j].precedence
    && (ops[i].assoc != ops[j].assoc || ops[i].assoc.AssocNon?)
    && forall k :: i < k < j ==> ops[k].precedence >= ops[i].precedence
  }

  /** How the operators of a respectful tree stand to its root. */
  lemma StandsTo(e: Expr, q: nat)
    requires e.BinaryOp? && Respects(e) && q < |Operators(e)|
    ensures Operators(e)[|Operators(e.lhs)|] == e.op
    ensures q < |Operators(e.lhs)| ==> MayStandLeft(Operators(e)[q], e.op)
    ensures q > |Operators(e.lhs)| ==> MayStandRight(Operators(e)[q], e.op)
  {
    var k := |Operators(e.lhs)|;
    if q < k {
      assert Operators(e)[q] == Operators(e.lhs)[q];
    } else if q > k {
      assert Operators(e)[q] == Operators(e.rhs)[q - k - 1];
    }
  }

  lemma ConflictInside(ops: seq<Operator>, i: nat, j: nat, lo: nat, hi: nat)
    requires Conflict(ops, i, j) && lo <= i && j < hi <= |ops|
    ensures Conflict(ops[lo..hi], i - lo, j - lo)
  {
  }

  /** An expression in which two operators conflict has no tree that respects them. */
  lemma {:induction false} ConflictHasNoTree(e: Expr, i: nat, j: nat)
    requires Conflict(Operators(e), i, j)
    ensures !Respects(e)
  {
    var ops, k := Operators(e), |Operators(e.lhs)|;
    if j < k {
      ConflictInside(ops, i, j, 0, k);
      assert ops[0..k] == Operators(e.lhs);
      ConflictHasNoTree(e.lhs, i, j);
    } else if i > k {
      ConflictInside(ops, i, j, k + 1, |ops|);
      assert ops[k + 1..|ops|] == Operators(e.rhs);
      ConflictHasNoTree(e.rhs, i - k - 1, j - k - 1);
    } else if Respects(e) {
      StandsTo(e, i);
      StandsTo(e, j);
    }
  }

  /** At most one tree has a given reading and respects its operators. */
  lemma {:induction false} RespectfulTreeIsUnique(a: Expr, b: Expr)
    requires Respects(a) && Respects(b)
    requires Operators(a) == Operators(b) && Operands(a) == Operands(b)
    ensures a == b
  {
    if a.BinaryOp? {
      assert |Operators(a)| > 0;
      assert b.BinaryOp?;
      RootsAgree(a, b);
      RootsAgree(b, a);
      var k := |Operators(a.lhs)|;
      assert Operators(a.lhs) == Operators(a)[..k] && Operators(b.lhs) == Operators(b)[..k];
      assert Operators(a.rhs) == Operators(a)[k + 1..] && Operators(b.rhs) == Operators(b)[k + 1..];
      assert Operands(a.lhs) == Operands(a)[..k + 1] && Operands(b.lhs) == Operands(b)[..k + 1];
      assert Operands(a.rhs) == Operands(a)[k + 1..] && Operands(b.rhs) == Operands(b)[k + 1..];
      assert Operators(a)[k] == a.op && Operators(b)[k] == b.op;
      RespectfulTreeIsUnique(a.lhs, b.lhs);
      RespectfulTreeIsUnique(a.rhs, b.rhs);
    } else {
      assert |Operators(b)| == 0;
    }
  }

  lemma RootsAgree(a: Expr, b: Expr)
    requires a.BinaryOp? && b.BinaryOp? && Respects(a) && Respects(b) && Operators(a) == Operators(b)
    ensures |Operators(a.lhs)| >= |Operators(b.lhs)|
  {
    StandsTo(a, |Operators(b.lhs)|);
    StandsTo(b, |Operators(a.lhs)|);
  }

  // ---------------------------------------------------------------------------------------------
  // What insertion builds

  /** The root of a respectful tree binds loosest, and groups like everything that binds equally. */
  lemma RootIsLoosest(e: Expr)
    requires e.BinaryOp? && Respects(e)
    ensures forall i :: 0 <= i < |Operators(e)| ==>
              Operators(e)[i].precedence > e.op.precedence
              || (Operators(e)[i].precedence == e.op.precedence && Operators(e)[i].assoc == e.op.assoc)
  {
    forall i | 0 <= i < |Operators(e)|
      ensures Operators(e)[i].precedence > e.op.precedence
              || (Operators(e)[i].precedence == e.op.precedence && Operators(e)[i].assoc == e.op.assoc)
    {
      StandsTo(e, i);
    }
  }

  /**
   What an insertion may come to: the reading grows by the operator and the tree stays respectful,
   or the operator conflicts with an earlier one.
   */
  ghost predicate Appended(outcome: Outcome, op: Operator, lhs: Expr, rhs: nat) {
    var all := Operators(lhs) + [op];
    match outcome
    case Built(tree) => Respects(tree) && Operators(tree) == all && Operands(tree) == Operands(lhs) + [rhs]
    case MixedAssociativity => exists i: nat :: Conflict(all, i, |all| - 1) && all[i].assoc != op.assoc
    case MultipleNonAssociative => exists i: nat :: Conflict(all, i, |all| - 1) && all[i].assoc == op.assoc == AssocNon
  }

  lemma {:induction false} InsertIsRight(op: Operator, lhs: Expr, rhs: nat)
    requires Respects(lhs)
    ensures Appended(Insert(op, lhs, Operand(rhs)), op, lhs, rhs)
  {
    if lhs.BinaryOp? {
      RootIsLoosest(lhs);
      StandsTo(lhs, |Operators(lhs.lhs)|);
      var top, all := lhs.op, Operators(lhs) + [op];
      if top.precedence == op.precedence && (top.assoc != op.assoc || top.assoc.AssocNon?) {
        assert Conflict(all, |Operators(lhs.lhs)|, |all| - 1);
      } else if top.precedence < op.precedence || (top.precedence == op.precedence && top.assoc.AssocRight?) {
        InsertIsRight(op, lhs.rhs, rhs);
        AddRightIsRight(op, lhs, rhs);
      }
    }
  }

  lemma AddRightIsRight(op: Operator, lhs: Expr, rhs: nat)
    requires lhs.BinaryOp? && Respects(lhs) && MayStandRight(op, lhs.op)
    requires Appended(Insert(op, lhs.rhs, Operand(rhs)), op, lhs.rhs, rhs)
    ensures Appended(AddRight(lhs, op, Operand(rhs)), op, lhs, rhs)
  {
    var outcome := Insert(op, lhs.rhs, Operand(rhs));
    var before, inner := Operators(lhs.lhs) + [lhs.op], Operators(lhs.rhs) + [op];
    assert Operators(lhs) + [op] == before + inner;
    if outcome.Built? {
      assert Operands(lhs) + [rhs] == Operands(lhs.lhs) + (Operands(lhs.rhs) + [rhs]);
    } else {
      var i: nat :| Conflict(inner, i, |inner| - 1)
                    && (outcome.MixedAssociativity? ==> inner[i].assoc != op.assoc)
                    && (outcome.MultipleNonAssociative? ==> inner[i].assoc == op.assoc == AssocNon);
      ConflictFurtherRight(before, inner, i, |inner| - 1);
      assert (before + inner)[i + |before|] == inner[i];
    }
  }

  lemma ConflictFurtherRight(before: seq<Operator>, ops: seq<Operator>, i: nat, j: nat)
    requires Conflict(ops, i, j)
    ensures Conflict(before + ops, i + |before|, j + |before|)
  {
    var all := before + ops;
    assert forall k :: 0 <= k < |ops| ==> all[k + |before|] == ops[k];
    forall k | i + |before| < k < j + |before| ensures all[k].precedence >= all[i + |before|].precedence {
      assert all[k] == ops[k - |before|];
    }
  }

  /** An expression that was given so far: an operand, then operators with their right operands. */
  function GivenOperators(rest: seq<(Operator, nat)>): seq<Operator> {
    seq(|rest|, i requires 0 <= i < |rest| => rest[i].0)
  }

  function GivenOperands(first: nat, rest: seq<(Operator, nat)>): seq<nat> {
    [first] + seq(|rest|, i requires 0 <= i < |rest| => rest[i].1)
  }

  /** The tree of an expression: it has the given reading and respects the operators. */
  ghost predicate IsTreeOf(e: Expr, first: nat, rest: seq<(Operator, nat)>) {
    Operators(e) == GivenOperators(rest) && Operands(e) == GivenOperands(first, rest) && Respects(e)
  }

  lemma ConflictExtends(rest: seq<(Operator, nat)>, n: nat, i: nat, j: nat)
    requires n <= |rest| && Conflict(GivenOperators(rest[..n]), i, j)
    ensures Conflict(GivenOperators(rest), i, j)
  {
    assert forall k :: 0 <= k < n ==> GivenOperators(rest)[k] == GivenOperators(rest[..n])[k];
  }

  /**
   The parser's loop: inserts the operators one after the other. It builds the one tree that has
   the given reading and respects every operator, and throws exactly when there is no such tree,
   that is, when two operators conflict.
   */
  method ParseBinaryOps(first: nat, rest: seq<(Operator, nat)>) returns (result: Outcome)
    ensures result.Built? <==> !exists i: nat, j: nat :: Conflict(GivenOperators(rest), i, j)
    ensures result.Built? <==> exists e :: IsTreeOf(e, first, rest)
    ensures result.Built? ==> forall e :: IsTreeOf(e, first, rest) <==> e == result.tree
    ensures result.MixedAssociativity? ==>
              exists i: nat, j: nat ::
                && Conflict(GivenOperators(rest), i, j)
                && GivenOperators(rest)[i].assoc != GivenOperators(rest)[j].assoc
    ensures result.MultipleNonAssociative? ==>
              exists i: nat, j: nat ::
                && Conflict(GivenOperators(rest), i, j)
                && GivenOperators(rest)[i].assoc == GivenOperators(rest)[j].assoc == AssocNon
  {
    var app := Operand(first);
    for n := 0 to |rest|
      invariant IsTreeOf(app, first, rest[..n])
    {
      OneMore(first, rest, n, app);
      match Insert(rest[n].0, app, Operand(rest[n].1)) {
        case Built(tree) => app := tree;
        case error => return error;
      }
    }
    assert rest[..|rest|] == rest;
    OnlyTree(app, first, rest);
    result := Built(app);
  }

  /** Nothing in the whole expression can be a tree of it, for these reasons. */
  ghost predicate Hopeless(error: Outcome, first: nat, rest: seq<(Operator, nat)>) {
    && !error.Built?
    && (exists i: nat, j: nat :: Conflict(GivenOperators(rest), i, j))
    && (!exists e :: IsTreeOf(e, first, rest))
    && (error.MixedAssociativity? ==>
          exists i: nat, j: nat ::
            && Conflict(GivenOperators(rest), i, j)
            && GivenOperators(rest)[i].assoc != GivenOperators(rest)[j].assoc)
    && (error.MultipleNonAssociative? ==>
          exists i: nat, j: nat ::
            && Conflict(GivenOperators(rest), i, j)
            && GivenOperators(rest)[i].assoc == GivenOperators(rest)[j].assoc == AssocNon)
  }

  /** One more operator leaves a tree of one more operator, or shows that there is none for the whole. */
  lemma OneMore(first: nat, rest: seq<(Operator, nat)>, n: nat, app: Expr)
    requires n < |rest| && IsTreeOf(app, first, rest[..n])
    ensures match Insert(rest[n].0, app, Operand(rest[n].1))
            case Built(tree) => IsTreeOf(tree, first, rest[..n + 1])
            case error => Hopeless(error, first, rest)
  {
    var outcome := Insert(rest[n].0, app, Operand(rest[n].1));
    InsertIsRight(rest[n].0, app, rest[n].1);
    var ops := GivenOperators(rest[..n + 1]);
    assert ops == GivenOperators(rest[..n]) + [rest[n].0];
    assert GivenOperands(first, rest[..n + 1]) == GivenOperands(first, rest[..n]) + [rest[n].1];
    if !outcome.Built? {
      var i: nat :| Conflict(ops, i, n)
                    && (outcome.MixedAssociativity? ==> ops[i].assoc != ops[n].assoc)
                    && (outcome.MultipleNonAssociative? ==> ops[i].assoc == ops[n].assoc == AssocNon);
      ConflictExtends(rest, n + 1, i, n);
      NoTree(first, rest, i, n);
      assert GivenOperators(rest)[i] == ops[i] && GivenOperators(rest)[n] == ops[n];
    }
  }

  lemma OnlyTree(tree: Expr, first: nat, rest: seq<(Operator, nat)>)
    requires IsTreeOf(tree, first, rest)
    ensures forall e :: IsTreeOf(e, first, rest) <==> e == tree
    ensures forall i: nat, j: nat :: !Conflict(GivenOperators(rest), i, j)
  {
    forall e | IsTreeOf(e, first, rest) ensures e == tree {
      RespectfulTreeIsUnique(e, tree);
    }
    forall i: nat, j: nat ensures !Conflict(GivenOperators(rest), i, j) {
      if Conflict(GivenOperators(rest), i, j) { ConflictHasNoTree(tree, i, j); }
    }
  }

  lemma NoTree(first: nat, rest: seq<(Operator, nat)>, i: nat, j: nat)
    requires Conflict(GivenOperators(rest), i, j)
    ensures !exists e :: IsTreeOf(e, first, rest)
  {
    forall e ensures !IsTreeOf(e, first, rest) {
      if Operators(e) == GivenOperators(rest) { ConflictHasNoTree(e, i, j); }
    }
  }
}
