/** Sets of characters kept as sorted vectors of ranges that are edited in place. */
module RangeSets {

  datatype Range = Range(first: nat, second: nat) {
    predicate Contains(c: nat) {
      first <= c <= second
    }
  }

  /** Sorted, disjoint and not even adjacent, within the character type. */
  ghost predicate Canonical(rs: seq<Range>, max: nat) {
    && (forall i :: 0 <= i < |rs| ==> rs[i].first <= rs[i].second <= max)
    && (forall i, j :: 0 <= i < j < |rs| ==> rs[i].second + 1 < rs[j].first)
  }

  ghost predicate Has(rs: seq<Range>, c: nat) {
    exists i :: 0 <= i < |rs| && rs[i].Contains(c)
  }

  lemma HasAppend(a: seq<Range>, b: seq<Range>, c: nat)
    ensures Has(a + b, c) <==> Has(a, c) || Has(b, c)
  {
    if Has(a, c) {
      var i :| 0 <= i < |a| && a[i].Contains(c);
      assert (a + b)[i].Contains(c);
    }
    if Has(b, c) {
      var i :| 0 <= i < |b| && b[i].Contains(c);
      assert (a + b)[|a| + i].Contains(c);
    }
  }

  lemma HasOne(r: Range, c: nat)
    ensures Has([r], c) <==> r.Contains(c)
  {
    if r.Contains(c) { assert [r][0].Contains(c); }
  }

  /** What a vector holds, told from its parts. */
  lemma HasParts(a: seq<Range>, r: Range, b: seq<Range>, c: nat)
    ensures Has(a + [r] + b, c) <==> Has(a, c) || r.Contains(c) || Has(b, c)
  {
    HasAppend(a + [r], b, c);
    HasAppend(a, [r], c);
    HasOne(r, c);
  }

  /** A set of characters has one canonical vector. */
  lemma {:induction false} CanonicalUnique(a: seq<Range>, b: seq<Range>, max: nat)
    requires Canonical(a, max) && Canonical(b, max)
    requires forall c :: Has(a, c) <==> Has(b, c)
    ensures a == b
    decreases |a|
  {
    if a == [] {
      if b != [] {
        assert b[0].Contains(b[0].first);
        assert Has(b, b[0].first);
        assert false;
      }
    } else {
      assert a[0].Contains(a[0].first) && Has(a, a[0].first);
      FirstAgrees(a, b, max);
      forall c ensures Has(a[1..], c) <==> Has(b[1..], c) {
        assert a == [a[0]] + a[1..] && b == [b[0]] + b[1..];
        HasAppend([a[0]], a[1..], c);
        HasAppend([b[0]], b[1..], c);
        HasOne(a[0], c);
        if Has(a[1..], c) {
          var i :| 0 <= i < |a[1..]| && a[1..][i].Contains(c);
          assert a[i + 1].Contains(c) && a[0].second + 1 < a[i + 1].first;
        }
        if Has(b[1..], c) {
          var i :| 0 <= i < |b[1..]| && b[1..][i].Contains(c);
          assert b[i + 1].Contains(c) && b[0].second + 1 < b[i + 1].first;
        }
      }
      CanonicalUnique(a[1..], b[1..], max);
    }
  }

  /** Vectors of the same set start with the same range. */
  lemma FirstAgrees(a: seq<Range>, b: seq<Range>, max: nat)
    requires Canonical(a, max) && Canonical(b, max) && a != []
    requires forall c :: Has(a, c) <==> Has(b, c)
    ensures b != [] && a[0] == b[0]
  {
    assert a[0].Contains(a[0].first) && Has(a, a[0].first) && Has(b, a[0].first);
    assert b[0].Contains(b[0].first) && Has(b, b[0].first) && Has(a, b[0].first);
    StartsAtFirst(a, b[0].first, max);
    StartsAtFirst(b, a[0].first, max);
    EndsAtSecond(a, max);
    EndsAtSecond(b, max);
    InFirst(a, b[0].second + 1);
    InFirst(b, a[0].second + 1);
  }

  lemma StartsAtFirst(a: seq<Range>, c: nat, max: nat)
    requires Canonical(a, max) && Has(a, c)
    ensures a != [] && a[0].first <= c
  {
    var i :| 0 <= i < |a| && a[i].Contains(c);
    assert i > 0 ==> a[0].second + 1 < a[i].first;
  }

  lemma EndsAtSecond(a: seq<Range>, max: nat)
    requires Canonical(a, max) && a != []
    ensures !Has(a, a[0].second + 1)
  {
    forall i | 0 <= i < |a| ensures !a[i].Contains(a[0].second + 1) {
      assert i > 0 ==> a[0].second + 1 < a[i].first;
    }
  }

  lemma InFirst(a: seq<Range>, c: nat)
    requires a != []
    ensures a[0].Contains(c) ==> Has(a, c)
  {
  }

  /** One vector holds exactly the characters the other lacks. */
  ghost predicate Complement(a: seq<Range>, b: seq<Range>, max: nat) {
    forall c: nat :: Has(b, c) <==> c <= max && !Has(a, c)
  }

  /** Complementing twice gives back the identical vector. */
  lemma ComplementTwice(a: seq<Range>, b: seq<Range>, c: seq<Range>, max: nat)
    requires Canonical(a, max) && Canonical(b, max) && Canonical(c, max)
    requires Complement(a, b, max) && Complement(b, c, max)
    ensures c == a
  {
    forall x ensures Has(a, x) <==> Has(c, x) {
      if Has(a, x) {
        var i :| 0 <= i < |a| && a[i].Contains(x);
      }
    }
    CanonicalUnique(c, a, max);
  }

  // ---------------------------------------------------------------------------------------------
  // Splitting a range

  /** What is left of a range when a part of it is taken out. */
  function Left(r: Range, taken: Range): seq<Range> {
    if taken.first > r.first then [Range(r.first, taken.first - 1)] else []
  }

  function Right(r: Range, taken: Range): seq<Range> {
    if taken.second < r.second then [Range(taken.second + 1, r.second)] else []
  }

  /** The vector with a part of its range at `k` taken out. */
  function Cut(rs: seq<Range>, k: nat, taken: Range): seq<Range>
    requires k < |rs|
  {
    rs[..k] + Left(rs[k], taken) + Right(rs[k], taken) + rs[k + 1..]
  }

  ghost predicate PartOf(taken: Range, r: Range) {
    r.first <= taken.first <= taken.second <= r.second
  }

  lemma CutCanonical(rs: seq<Range>, k: nat, taken: Range, max: nat)
    requires k < |rs| && Canonical(rs, max) && PartOf(taken, rs[k])
    ensures Canonical(Cut(rs, k, taken), max)
  {
    var l, r := Left(rs[k], taken), Right(rs[k], taken);
    PiecesInside(rs[k], taken);
    ReplacedCanonical(rs, k, l + r, max);
    assert rs[..k] + l + r + rs[k + 1..] == rs[..k] + (l + r) + rs[k + 1..];
  }

  /** The vector is sorted and its ranges lie between two bounds. */
  ghost predicate Between(rs: seq<Range>, low: nat, high: nat) {
    && (forall i :: 0 <= i < |rs| ==> low <= rs[i].first <= rs[i].second <= high)
    && (forall i, j :: 0 <= i < j < |rs| ==> rs[i].second + 1 < rs[j].first)
  }

  lemma PiecesInside(r: Range, taken: Range)
    requires r.first <= r.second && PartOf(taken, r)
    ensures Between(Left(r, taken) + Right(r, taken), r.first, r.second)
  {
    var left, right := Left(r, taken), Right(r, taken);
    if left != [] && right != [] { assert left + right == [left[0], right[0]]; }
  }

  /** A range may be replaced by ranges inside it. */
  lemma ReplacedCanonical(rs: seq<Range>, k: nat, mid: seq<Range>, max: nat)
    requires k < |rs| && Canonical(rs, max)
    requires Between(mid, rs[k].first, rs[k].second)
    ensures Canonical(rs[..k] + mid + rs[k + 1..], max)
  {
  }

  lemma CutHas(rs: seq<Range>, k: nat, taken: Range, max: nat, c: nat)
    requires k < |rs| && Canonical(rs, max) && PartOf(taken, rs[k])
    ensures Has(Cut(rs, k, taken), c) <==> Has(rs, c) && !taken.Contains(c)
  {
    var l, r := Left(rs[k], taken), Right(rs[k], taken);
    HasAppend(rs[..k] + l + r, rs[k + 1..], c);
    HasAppend(rs[..k] + l, r, c);
    HasAppend(rs[..k], l, c);
    if l != [] { HasOne(l[0], c); }
    if r != [] { HasOne(r[0], c); }
    assert rs == rs[..k] + [rs[k]] + rs[k + 1..];
    HasParts(rs[..k], rs[k], rs[k + 1..], c);
    if Has(rs[..k], c) {
      var i :| 0 <= i < |rs[..k]| && rs[..k][i].Contains(c);
      assert rs[i].second + 1 < rs[k].first;
    }
    if Has(rs[k + 1..], c) {
      var i :| 0 <= i < |rs[k + 1..]| && rs[k + 1..][i].Contains(c);
      assert rs[k].second + 1 < rs[k + 1 + i].first;
    }
  }

  /** The number of characters in a vector. */
  ghost function Size(rs: seq<Range>): nat {
    if rs == [] then 0
    else (if rs[0].first <= rs[0].second then rs[0].second - rs[0].first + 1 else 0) + Size(rs[1..])
  }

  // ---------------------------------------------------------------------------------------------
  // The token

  class StringToken {
    /** The largest character. */
    const max: nat
    var ranges: seq<Range>

    ghost predicate Valid()
      reads this
    {
      Canonical(ranges, max)
    }

    constructor (max: nat)
      ensures Valid() && this.max == max && ranges == []
    {
      this.max := max;
      ranges := [];
    }

    /**
     Adds a range, merging what it overlaps or touches; answers where it now stands, or the end if
     it was there already. A range that touches nothing is put in whole, in its place.
     */
    method Insert(range: Range) returns (iter: nat)
      requires Valid() && range.first <= range.second <= max
      modifies this`ranges
      ensures Valid()
      ensures forall c :: Has(ranges, c) <==> old(Has(ranges, c)) || range.Contains(c)
      ensures iter <= |ranges|
      ensures Apart(old(ranges), range) ==>
                && iter < |ranges| && iter <= |old(ranges)|
                && ranges == old(ranges)[..iter] + [range] + old(ranges)[iter..]
    {
      var rhs := range;
      iter := 0;
      ghost var gone := 0;
      ghost var was := ranges;
      InsertFirst(was, range, max);
      while iter < |ranges|
        invariant Inserting(was, range, ranges, rhs, iter, gone, max)
        decreases |ranges| - iter
      {
        var verdict;
        verdict, rhs, iter, gone := InsertTurn(was, range, rhs, iter, gone);
        if verdict.Precedes? {
          break;
        } else if verdict.Subset? {
          iter := |ranges|;
          return;
        }
      }
      InsertLast(was, range, ranges, rhs, iter, gone, max);
      ranges := ranges[..iter] + [rhs] + ranges[iter..];
    }

    /** One turn of the insertion loop: pass the current range, stop, or erase it. */
    method InsertTurn(ghost was: seq<Range>, ghost range: Range, rhs: Range, iter: nat, ghost gone: nat)
      returns (verdict: Verdict, rhs': Range, iter': nat, ghost gone': nat)
      requires Canonical(was, max) && Inserting(was, range, ranges, rhs, iter, gone, max) && iter < |ranges|
      modifies this`ranges
      ensures Canonical(ranges, max)
      ensures verdict.Follows? || verdict.Touches? ==>
                Inserting(was, range, ranges, rhs', iter', gone', max) && |ranges| - iter' < old(|ranges|) - iter
      ensures verdict.Precedes? || verdict.Subset? ==>
              ranges == old(ranges) && rhs' == rhs && iter' == iter && gone' == gone
      ensures verdict.Precedes? ==> rhs.second + 1 < ranges[iter].first
      ensures verdict.Subset? ==>
                (forall c :: Has(ranges, c) <==> Has(was, c) || range.Contains(c)) && !Apart(was, range)
    {
      TurnKeeps(was, range, ranges, rhs, iter, gone, max);
      rhs', iter', gone' := rhs, iter, gone;
      var grown;
      verdict, grown := Compare(rhs, ranges[iter]);
      if verdict.Follows? {
        iter' := iter + 1;
      } else if verdict.Touches? {
        rhs' := grown;
        ranges := ranges[..iter] + ranges[iter + 1..];
        gone' := gone + 1;
      }
    }

    /** Adds every range of another token. */
    method InsertAll(rhs: StringToken)
      requires Valid() && rhs.Valid() && rhs.max == max
      modifies this`ranges
      ensures Valid()
      ensures rhs != this ==> forall c :: Has(ranges, c) <==> old(Has(ranges, c)) || Has(rhs.ranges, c)
      ensures rhs == this ==> ranges == old(ranges)
    {
      var todo := rhs.ranges;
      ghost var was := ranges;
      for i := 0 to |todo|
        invariant Valid()
        invariant forall c :: Has(ranges, c) <==> Has(was, c) || Has(todo[..i], c)
      {
        var _ := Insert(todo[i]);
        forall c ensures Has(todo[..i + 1], c) <==> Has(todo[..i], c) || todo[i].Contains(c) {
          assert todo[..i + 1] == todo[..i] + [todo[i]];
          HasAppend(todo[..i], [todo[i]], c);
          HasOne(todo[i], c);
        }
      }
      assert todo[..|todo|] == todo;
      if rhs == this { CanonicalUnique(ranges, was, max); }
    }

    /** Replaces the set by its complement. */
    method Negate()
      requires Valid()
      modifies this`ranges
      ensures Valid()
      ensures Complement(old(ranges), ranges, max)
    {
      var next: nat := 0;
      var temp := new StringToken(max);
      var finished := false;
      var i := 0;
      while i < |ranges| && !finished
        invariant fresh(temp) && temp.max == max && temp.Valid() && Valid() && ranges == old(ranges)
        invariant i <= |ranges|
        invariant if finished then Complement(ranges, temp.ranges, max) else Negating(ranges, temp.ranges, next, i, max)
        decreases |ranges| - i
      {
        next, finished := NegateOne(temp, next, i);
        i := i + 1;
      }
      if !finished {
        NegateRest(temp, next);
      }
      ranges := temp.ranges;
    }

    /** What lies after the last range is in the complement. */
    method NegateRest(temp: StringToken, next: nat)
      requires Valid() && temp != this && temp.max == max && temp.Valid()
      requires Negating(ranges, temp.ranges, next, |ranges|, max)
      modifies temp`ranges
      ensures temp.Valid() && Complement(ranges, temp.ranges, max)
    {
      assert ranges[..|ranges|] == ranges;
      var _ := temp.Insert(Range(next, max));
    }

    /** One turn of the negation loop: what lies before the current range is in the complement. */
    method NegateOne(temp: StringToken, start: nat, i: nat) returns (next: nat, finished: bool)
      requires Valid() && temp != this && temp.max == max && temp.Valid()
      requires i < |ranges| && Negating(ranges, temp.ranges, start, i, max)
      modifies temp`ranges
      ensures temp.Valid()
      ensures if finished then Complement(ranges, temp.ranges, max) else Negating(ranges, temp.ranges, next, i + 1, max)
    {
      NegateTurn(ranges, temp.ranges, start, i, max);
      if start < ranges[i].first {
        var _ := temp.Insert(Range(start, ranges[i].first - 1));
      }
      finished := ranges[i].second >= max;
      next := ranges[i].second + 1;
      if finished {
        NegateLast(ranges, temp.ranges, i, max);
      } else {
        NegateOn(ranges, temp.ranges, i, max);
      }
    }

    /** Takes a part out of the current range, which may split in two; answers where to go on. */
    method Adjust(range: Range, iter: nat) returns (iter': nat)
      requires Valid() && iter < |ranges| && PartOf(range, ranges[iter])
      modifies this`ranges
      ensures Valid() && ranges == Cut(old(ranges), iter, range)
      ensures iter' == GoOn(old(ranges), iter, range)
    {
      ghost var was := ranges;
      CutCanonical(ranges, iter, range, max);
      CutShapes(ranges, iter, range);
      iter' := iter;
      var second := ranges[iter].second;
      if range.first > ranges[iter].first {
        ranges := ranges[iter := Range(ranges[iter].first, range.first - 1)];
        if range.second < second {
          ghost var shrunk := ranges;
          iter' := Insert(Range(range.second + 1, second));
          PlaceUnique(shrunk, Range(range.second + 1, second), iter, iter', max);
        }
      } else if range.second < ranges[iter].second {
        ranges := ranges[iter := Range(range.second + 1, ranges[iter].second)];
      } else {
        ranges := ranges[..iter] + ranges[iter + 1..];
      }
    }

    /** Moves what two sets have in common into a third. */
    method Intersect(rhs: StringToken, overlap: StringToken)
      requires this != rhs && this != overlap && rhs != overlap && max == rhs.max == overlap.max
      requires Valid() && rhs.Valid() && overlap.Valid()
      modifies this`ranges, rhs`ranges, overlap`ranges
      ensures Valid() && rhs.Valid() && overlap.Valid()
      ensures forall c :: Has(overlap.ranges, c) <==>
              old(Has(overlap.ranges, c)) || (old(Has(ranges, c)) && old(Has(rhs.ranges, c)))
      ensures forall c :: Has(ranges, c) <==> old(Has(ranges, c)) && !old(Has(rhs.ranges, c))
      ensures forall c :: Has(rhs.ranges, c) <==> old(Has(rhs.ranges, c)) && !old(Has(ranges, c))
    {
      var lhsIter: nat, rhsIter: nat := 0, 0;
      ghost var l, r, o := ranges, rhs.ranges, overlap.ranges;
      while lhsIter < |ranges| && rhsIter < |rhs.ranges|
        invariant overlap.Valid()
        invariant Clear(ranges, rhs.ranges, lhsIter, rhsIter, max)
        invariant Moved(l, r, o, ranges, rhs.ranges, overlap.ranges)
        decreases Size(ranges[lhsIter..]) + Size(rhs.ranges[rhsIter..])
      {
        if rhs.ranges[rhsIter].first > ranges[lhsIter].second {
          SkipLeft(ranges, rhs.ranges, lhsIter, rhsIter, max);
          lhsIter := lhsIter + 1;
        } else if rhs.ranges[rhsIter].second < ranges[lhsIter].first {
          SkipLeft(rhs.ranges, ranges, rhsIter, lhsIter, max);
          rhsIter := rhsIter + 1;
        } else {
          var range := Common(ranges[lhsIter], rhs.ranges[rhsIter]);
          CutBoth(ranges, rhs.ranges, lhsIter, rhsIter, max);
          CutSize(ranges, lhsIter, range, max);
          CutSize(rhs.ranges, rhsIter, range, max);
          ghost var l1, r1, o1 := ranges, rhs.ranges, overlap.ranges;
          var li, ri := lhsIter, rhsIter;
          lhsIter := Adjust(range, lhsIter);
          rhsIter := rhs.Adjust(range, rhsIter);
          var _ := overlap.Insert(range);
          MovedMore(l, r, o, l1, r1, o1, li, ri, overlap.ranges, max);
        }
      }
      ClearMeansDisjoint(ranges, rhs.ranges, lhsIter, rhsIter, max);
      MovedAll(l, r, o, ranges, rhs.ranges, overlap.ranges);
    }

    /** Takes another set out of this one. */
    method Remove(rhs: StringToken)
      requires this != rhs && max == rhs.max && Valid() && rhs.Valid()
      modifies this`ranges
      ensures Valid()
      ensures forall c :: Has(ranges, c) <==> old(Has(ranges, c)) && !Has(rhs.ranges, c)
    {
      var lhsIter: nat, rhsIter: nat := 0, 0;
      ghost var l := ranges;
      while lhsIter < |ranges| && rhsIter < |rhs.ranges|
        invariant Clear(ranges, rhs.ranges, lhsIter, rhsIter, max)
        invariant forall c :: Has(ranges, c) ==> Has(l, c)
        invariant forall c :: Has(l, c) && !Has(ranges, c) ==> Has(rhs.ranges, c)
        decreases Size(ranges[lhsIter..]) + Size(rhs.ranges[rhsIter..])
      {
        if rhs.ranges[rhsIter].first > ranges[lhsIter].second {
          SkipLeft(ranges, rhs.ranges, lhsIter, rhsIter, max);
          lhsIter := lhsIter + 1;
        } else if rhs.ranges[rhsIter].second < ranges[lhsIter].first {
          SkipLeft(rhs.ranges, ranges, rhsIter, lhsIter, max);
          rhsIter := rhsIter + 1;
        } else {
          var range := Common(ranges[lhsIter], rhs.ranges[rhsIter]);
          CutLeft(ranges, rhs.ranges, lhsIter, rhsIter, max);
          CutSize(ranges, lhsIter, range, max);
          RemovedMore(ranges, rhs.ranges, lhsIter, rhsIter, max);
          lhsIter := Adjust(range, lhsIter);
        }
      }
      ClearMeansDisjoint(ranges, rhs.ranges, lhsIter, rhsIter, max);
    }
  }

  // ---------------------------------------------------------------------------------------------
  // Walking two vectors side by side

  /** Where a walk goes on after a cut: past the left part, if both parts are left. */
  function GoOn(rs: seq<Range>, k: nat, taken: Range): nat
    requires k < |rs|
  {
    if taken.first > rs[k].first && taken.second < rs[k].second then k + 1 else k
  }

  /** What two overlapping ranges have in common. */
  function Common(a: Range, b: Range): Range {
    Range(if b.first > a.first then b.first else a.first, if b.second < a.second then b.second else a.second)
  }

  /** A range placed in a canonical vector lies clear of every range before and after it. */
  lemma PlacedOrder(rs: seq<Range>, r: Range, p: nat, q: nat, max: nat)
    requires p <= |rs| && q < |rs| && Canonical(rs[..p] + [r] + rs[p..], max)
    ensures r.first <= r.second
    ensures if q < p then rs[q].second < r.first else r.second < rs[q].first
  {
    var placed := rs[..p] + [r] + rs[p..];
    assert placed[p] == r;
    if q < p { assert placed[q] == rs[q]; } else { assert placed[q + 1] == rs[q]; }
  }

  lemma PlaceUnique(rs: seq<Range>, r: Range, k: nat, p: nat, max: nat)
    requires k < |rs| && p <= |rs| && rs[k].second < r.first && (k + 1 < |rs| ==> r.second < rs[k + 1].first)
    requires Canonical(rs[..p] + [r] + rs[p..], max) && Canonical(rs, max)
    ensures p == k + 1
  {
    PlacedOrder(rs, r, p, k, max);
    if k + 1 < |rs| { PlacedOrder(rs, r, p, k + 1, max); }
  }

  /** The shapes a cut can take. */
  lemma CutShapes(rs: seq<Range>, k: nat, taken: Range)
    requires k < |rs| && PartOf(taken, rs[k])
    ensures taken.first > rs[k].first && taken.second < rs[k].second ==>
              var shrunk := rs[k := Range(rs[k].first, taken.first - 1)];
              Cut(rs, k, taken) == shrunk[..k + 1] + [Range(taken.second + 1, rs[k].second)] + shrunk[k + 1..]
    ensures taken.first > rs[k].first && taken.second == rs[k].second ==>
              Cut(rs, k, taken) == rs[k := Range(rs[k].first, taken.first - 1)]
    ensures taken.first == rs[k].first && taken.second < rs[k].second ==>
              Cut(rs, k, taken) == rs[k := Range(taken.second + 1, rs[k].second)]
    ensures taken == rs[k] ==> Cut(rs, k, taken) == rs[..k] + rs[k + 1..]
  {
  }

  /**
   Two canonical vectors walked side by side: what has been passed on one side has nothing in common
   with the other.
   */
  ghost predicate Clear(a: seq<Range>, b: seq<Range>, i: nat, j: nat, max: nat) {
    && Canonical(a, max) && Canonical(b, max) && i <= |a| && j <= |b|
    && (forall c :: Has(a[..i], c) ==> !Has(b, c))
    && (forall c :: Has(b[..j], c) ==> !Has(a, c))
  }

  /** A character below the current range can only be among those passed. */
  lemma BelowIsPassed(rs: seq<Range>, k: nat, c: nat, max: nat)
    requires Canonical(rs, max) && k < |rs| && c < rs[k].first && Has(rs, c)
    ensures Has(rs[..k], c)
  {
    var i :| 0 <= i < |rs| && rs[i].Contains(c);
    assert rs[..k][i].Contains(c);
  }

  lemma SkipLeft(a: seq<Range>, b: seq<Range>, i: nat, j: nat, max: nat)
    requires Clear(a, b, i, j, max) && i < |a| && j < |b| && b[j].first > a[i].second
    ensures Clear(a, b, i + 1, j, max)
    ensures Size(a[i + 1..]) < Size(a[i..])
  {
    forall c: nat | Has(a[..i + 1], c) ensures !Has(b, c) {
      HasNext(a, i, c);
      if a[i].Contains(c) && Has(b, c) {
        BelowIsPassed(b, j, c, max);
        assert Has(a, c);
        assert false;
      }
    }
    assert a[i..][1..] == a[i + 1..];
  }

  lemma CutPrefix(a: seq<Range>, k: nat, taken: Range, c: nat, max: nat)
    requires Canonical(a, max) && k < |a| && PartOf(taken, a[k])
    requires GoOn(a, k, taken) <= |Cut(a, k, taken)|
    ensures Has(Cut(a, k, taken)[..GoOn(a, k, taken)], c) ==>
            Has(a[..k], c) || (a[k].Contains(c) && c < taken.first && a[k].first < taken.first)
  {
    var after, g := Cut(a, k, taken), GoOn(a, k, taken);
    if g == k {
      assert after[..g] == a[..k];
    } else {
      assert after[..g] == a[..k] + Left(a[k], taken);
      HasAppend(a[..k], Left(a[k], taken), c);
      HasOne(Left(a[k], taken)[0], c);
    }
  }

  /** Cutting the common part out of one side keeps the walk clear. */
  lemma CutLeft(a: seq<Range>, b: seq<Range>, i: nat, j: nat, max: nat)
    requires Clear(a, b, i, j, max) && i < |a| && j < |b| && b[j].first <= a[i].second && a[i].first <= b[j].second
    ensures PartOf(Common(a[i], b[j]), a[i])
    ensures var taken := Common(a[i], b[j]);
            Clear(Cut(a, i, taken), b, GoOn(a, i, taken), j, max)
  {
    var taken := Common(a[i], b[j]);
    var after := Cut(a, i, taken);
    CutCanonical(a, i, taken, max);
    forall c: nat | Has(after[..GoOn(a, i, taken)], c) ensures !Has(b, c) {
      CutPrefix(a, i, taken, c, max);
      if Has(b, c) && a[i].Contains(c) && c < taken.first && a[i].first < taken.first {
        BelowIsPassed(b, j, c, max);
        assert Has(a, c);
        assert false;
      }
    }
    forall c: nat | Has(b[..j], c) ensures !Has(after, c) {
      CutHas(a, i, taken, max, c);
    }
  }

  /** So does cutting it out of both. */
  lemma CutBoth(a: seq<Range>, b: seq<Range>, i: nat, j: nat, max: nat)
    requires Clear(a, b, i, j, max) && i < |a| && j < |b| && b[j].first <= a[i].second && a[i].first <= b[j].second
    ensures var taken := Common(a[i], b[j]);
            && PartOf(taken, a[i]) && PartOf(taken, b[j])
            && Clear(Cut(a, i, taken), Cut(b, j, taken), GoOn(a, i, taken), GoOn(b, j, taken), max)
  {
    var taken := Common(a[i], b[j]);
    assert Common(b[j], a[i]) == taken;
    CutLeft(a, b, i, j, max);
    CutLeft(b, a, j, i, max);
    var a', b' := Cut(a, i, taken), Cut(b, j, taken);
    forall c: nat | Has(a'[..GoOn(a, i, taken)], c) ensures !Has(b', c) { CutHas(b, j, taken, max, c); }
    forall c: nat | Has(b'[..GoOn(b, j, taken)], c) ensures !Has(a', c) { CutHas(a, i, taken, max, c); }
  }

  lemma CutSize(rs: seq<Range>, k: nat, taken: Range, max: nat)
    requires Canonical(rs, max) && k < |rs| && PartOf(taken, rs[k])
    ensures GoOn(rs, k, taken) <= |Cut(rs, k, taken)|
    ensures Size(Cut(rs, k, taken)[GoOn(rs, k, taken)..]) < Size(rs[k..])
  {
    var after, g := Cut(rs, k, taken), GoOn(rs, k, taken);
    assert rs[k..][1..] == rs[k + 1..];
    var l, r := Left(rs[k], taken), Right(rs[k], taken);
    var head := if g == k then l + r else r;
    assert after[g..] == head + rs[k + 1..];
    if head == [] {
      assert after[g..] == rs[k + 1..];
    } else {
      assert after[g..][1..] == rs[k + 1..];
    }
  }

  /** When one side is used up, the two have nothing in common. */
  lemma ClearMeansDisjoint(a: seq<Range>, b: seq<Range>, i: nat, j: nat, max: nat)
    requires Clear(a, b, i, j, max) && (i == |a| || j == |b|)
    ensures forall c :: !(Has(a, c) && Has(b, c))
  {
    assert i == |a| ==> a[..i] == a;
    assert j == |b| ==> b[..j] == b;
  }

  /** What has left one side has left the other, and is in the overlap. */
  ghost predicate Moved(l: seq<Range>, r: seq<Range>, o: seq<Range>, l1: seq<Range>, r1: seq<Range>, o1: seq<Range>) {
    forall c {:trigger Has(l1, c)} {:trigger Has(r1, c)} {:trigger Has(o1, c)} {:trigger Has(l, c)}
      {:trigger Has(r, c)} ::
      && (Has(l1, c) ==> Has(l, c)) && (Has(r1, c) ==> Has(r, c))
      && (Has(l, c) && !Has(l1, c) <==> Has(r, c) && !Has(r1, c))
      && (Has(o1, c) <==> Has(o, c) || (Has(l, c) && !Has(l1, c)))
  }

  lemma MovedMore(l: seq<Range>, r: seq<Range>, o: seq<Range>, l1: seq<Range>, r1: seq<Range>, o1: seq<Range>,
                  i: nat, j: nat, o2: seq<Range>, max: nat)
    requires Moved(l, r, o, l1, r1, o1)
    requires Canonical(l1, max) && Canonical(r1, max) && i < |l1| && j < |r1|
    requires r1[j].first <= l1[i].second && l1[i].first <= r1[j].second
    requires forall c :: Has(o2, c) <==> Has(o1, c) || Common(l1[i], r1[j]).Contains(c)
    ensures Moved(l, r, o, Cut(l1, i, Common(l1[i], r1[j])), Cut(r1, j, Common(l1[i], r1[j])), o2)
  {
    var taken := Common(l1[i], r1[j]);
    var l2, r2 := Cut(l1, i, taken), Cut(r1, j, taken);
    forall c
      ensures (Has(l2, c) ==> Has(l, c)) && (Has(r2, c) ==> Has(r, c))
      ensures Has(l, c) && !Has(l2, c) <==> Has(r, c) && !Has(r2, c)
      ensures Has(o2, c) <==> Has(o, c) || (Has(l, c) && !Has(l2, c))
    {
      CutHas(l1, i, taken, max, c);
      CutHas(r1, j, taken, max, c);
      if taken.Contains(c) {
        assert l1[i].Contains(c) && r1[j].Contains(c);
        assert Has(l1, c) && Has(r1, c);
      }
    }
  }

  lemma MovedAll(l: seq<Range>, r: seq<Range>, o: seq<Range>, l1: seq<Range>, r1: seq<Range>, o1: seq<Range>)
    requires Moved(l, r, o, l1, r1, o1) && forall c :: !(Has(l1, c) && Has(r1, c))
    ensures forall c :: Has(o1, c) <==> Has(o, c) || (Has(l, c) && Has(r, c))
    ensures forall c :: Has(l1, c) <==> Has(l, c) && !Has(r, c)
    ensures forall c :: Has(r1, c) <==> Has(r, c) && !Has(l, c)
  {
  }

  lemma RemovedMore(a: seq<Range>, b: seq<Range>, i: nat, j: nat, max: nat)
    requires Canonical(a, max) && Canonical(b, max) && i < |a| && j < |b|
    requires b[j].first <= a[i].second && a[i].first <= b[j].second
    ensures forall c :: Has(Cut(a, i, Common(a[i], b[j])), c) ==> Has(a, c)
    ensures forall c :: Has(a, c) && !Has(Cut(a, i, Common(a[i], b[j])), c) ==> Has(b, c)
  {
    var taken := Common(a[i], b[j]);
    forall c ensures Has(Cut(a, i, taken), c) <==> Has(a, c) && !taken.Contains(c) {
      CutHas(a, i, taken, max, c);
    }
    assert forall c :: taken.Contains(c) ==> b[j].Contains(c);
  }

  /** The negation loop: below `next` the complement is complete, and nothing of it lies beyond. */
  ghost predicate Negating(rs: seq<Range>, temp: seq<Range>, next: nat, i: nat, max: nat)
    requires i <= |rs|
  {
    && next <= max
    && (forall j :: 0 <= j < i ==> rs[j].second < next)
    && (i > 0 ==> next == rs[i - 1].second + 1)
    && (i == 0 ==> next == 0)
    && (forall c: nat :: Has(temp, c) <==> c < next && !Has(rs[..i], c))
  }

  /** The complement is complete up to a range. */
  ghost predicate NegatedBefore(rs: seq<Range>, temp: seq<Range>, i: nat)
    requires i < |rs|
  {
    forall c: nat :: Has(temp, c) <==> c < rs[i].first && !Has(rs[..i], c)
  }

  lemma NegateTurn(rs: seq<Range>, temp: seq<Range>, next: nat, i: nat, max: nat)
    requires Canonical(rs, max) && i < |rs| && Negating(rs, temp, next, i, max)
    ensures next <= rs[i].first
    ensures next == rs[i].first ==> NegatedBefore(rs, temp, i)
    ensures next < rs[i].first ==>
              forall more :: (forall c: nat :: Has(more, c) <==>
                  Has(temp, c) || Range(next, rs[i].first - 1).Contains(c)) ==>
                NegatedBefore(rs, more, i)
  {
    forall c: nat | next <= c ensures !Has(rs[..i], c) {
    }
  }

  lemma HasNext(rs: seq<Range>, i: nat, c: nat)
    requires i < |rs|
    ensures Has(rs[..i + 1], c) <==> Has(rs[..i], c) || rs[i].Contains(c)
  {
    assert rs[..i + 1] == rs[..i] + [rs[i]];
    HasAppend(rs[..i], [rs[i]], c);
    HasOne(rs[i], c);
  }

  lemma NegateOn(rs: seq<Range>, temp: seq<Range>, i: nat, max: nat)
    requires Canonical(rs, max) && i < |rs| && rs[i].second < max && NegatedBefore(rs, temp, i)
    ensures Negating(rs, temp, rs[i].second + 1, i + 1, max)
  {
    forall c: nat ensures Has(temp, c) <==> c < rs[i].second + 1 && !Has(rs[..i + 1], c) {
      HasNext(rs, i, c);
    }
  }

  lemma NegateLast(rs: seq<Range>, temp: seq<Range>, i: nat, max: nat)
    requires Canonical(rs, max) && i < |rs| && rs[i].second >= max && NegatedBefore(rs, temp, i)
    ensures Complement(rs, temp, max)
  {
    assert rs[|rs| - 1].second <= max;
    assert |rs| == i + 1;
    assert rs[..i + 1] == rs;
    forall c: nat ensures Has(temp, c) <==> c <= max && !Has(rs, c) {
      HasNext(rs, i, c);
    }
  }

  datatype Verdict = Follows | Precedes | Subset | Touches

  /** Where a range to insert lies against a current one, and what becomes of it if the current one is absorbed. */
  method Compare(range: Range, current: Range) returns (verdict: Verdict, rhs: Range)
    requires range.first <= range.second && current.first <= current.second
    ensures verdict.Follows? <==> range.first > current.second + 1
    ensures verdict.Precedes? <==> range.second + 1 < current.first
    ensures verdict.Subset? <==> current.first <= range.first && range.second <= current.second
    ensures verdict.Touches? ==> rhs == Merge(range, current)
  {
    rhs := range;
    if rhs.first > current.second {
      if rhs.first == current.second + 1 {
        rhs := rhs.(first := current.first);
      } else {
        return Follows, rhs;
      }
    } else if rhs.second < current.first {
      if rhs.second == current.first - 1 {
        rhs := rhs.(second := current.second);
      } else {
        return Precedes, rhs;
      }
    } else {
      if rhs.first < current.first {
        if rhs.second < current.second {
          rhs := rhs.(second := current.second);
        }
      } else if rhs.second > current.second {
        if rhs.first > current.first {
          rhs := rhs.(first := current.first);
        }
      } else {
        return Subset, rhs;
      }
    }
    verdict := Touches;
  }

  /**
   The insertion loop: everything before `iter` lies clear of the range to insert, which has grown
   over the `gone` ranges erased so far.
   */
  ghost predicate Inserting(was: seq<Range>, range: Range, now: seq<Range>, rhs: Range, iter: nat, gone: nat,
                            max: nat) {
    && Canonical(now, max) && iter <= |now| && iter + gone <= |was|
    && rhs.first <= range.first <= range.second <= rhs.second <= max
    && now == was[..iter] + was[iter + gone..]
    && (forall i :: 0 <= i < iter ==> now[i].second + 1 < rhs.first)
    && (gone > 0 ==> rhs.first <= was[iter + gone - 1].second)
    && (Apart(was, range) ==> gone == 0 && rhs == range)
    && (forall c :: Has(now, c) || rhs.Contains(c) <==> Has(was, c) || range.Contains(c))
  }

  lemma InsertFirst(was: seq<Range>, range: Range, max: nat)
    requires Canonical(was, max) && range.first <= range.second <= max
    ensures Inserting(was, range, was, range, 0, 0, max)
  {
  }

  /** What each branch of the loop does to the account. */
  lemma TurnKeeps(was: seq<Range>, range: Range, now: seq<Range>, rhs: Range, iter: nat, gone: nat, max: nat)
    requires Canonical(was, max) && Inserting(was, range, now, rhs, iter, gone, max) && iter < |now|
    ensures now[iter].first <= rhs.first && rhs.second <= now[iter].second ==>
              (forall c :: Has(now, c) <==> Has(was, c) || range.Contains(c)) && !Apart(was, range)
    ensures rhs.first > now[iter].second + 1 ==> Inserting(was, range, now, rhs, iter + 1, gone, max)
    ensures var current := now[iter];
            && rhs.first <= current.second + 1 && current.first <= rhs.second + 1
            && !(current.first <= rhs.first && rhs.second <= current.second) ==>
              Inserting(was, range, now[..iter] + now[iter + 1..], Merge(rhs, current), iter, gone + 1, max)
  {
    var current := now[iter];
    assert current == was[iter + gone];
    if current.first <= rhs.first && rhs.second <= current.second {
      assert forall c :: rhs.Contains(c) ==> current.Contains(c);
    } else if rhs.first > current.second + 1 {
      TurnPasses(was, range, now, rhs, iter, gone, max);
    } else if current.first <= rhs.second + 1 {
      TurnAbsorbs(was, range, now, rhs, iter, gone, max);
    }
  }

  lemma TurnPasses(was: seq<Range>, range: Range, now: seq<Range>, rhs: Range, iter: nat, gone: nat, max: nat)
    requires Canonical(was, max) && Inserting(was, range, now, rhs, iter, gone, max) && iter < |now|
    requires rhs.first > now[iter].second + 1
    ensures Inserting(was, range, now, rhs, iter + 1, gone, max)
  {
    assert now[iter] == was[iter + gone];
    assert now == was[..iter + 1] + was[iter + 1 + gone..];
  }

  lemma TurnAbsorbs(was: seq<Range>, range: Range, now: seq<Range>, rhs: Range, iter: nat, gone: nat, max: nat)
    requires Canonical(was, max) && Inserting(was, range, now, rhs, iter, gone, max) && iter < |now|
    requires rhs.first <= now[iter].second + 1 && now[iter].first <= rhs.second + 1
    requires !(now[iter].first <= rhs.first && rhs.second <= now[iter].second)
    ensures Inserting(was, range, now[..iter] + now[iter + 1..], Merge(rhs, now[iter]), iter, gone + 1, max)
  {
    assert now[iter] == was[iter + gone];
    MergeKeeps(now, iter, rhs, max);
    assert now[..iter] + now[iter + 1..] == was[..iter] + was[iter + gone + 1..];
  }

  /** Putting the grown range in at the end of the loop. */
  lemma InsertLast(was: seq<Range>, range: Range, now: seq<Range>, rhs: Range, iter: nat, gone: nat, max: nat)
    requires Inserting(was, range, now, rhs, iter, gone, max)
    requires iter < |now| ==> rhs.second + 1 < now[iter].first
    ensures var last := now[..iter] + [rhs] + now[iter..];
            && Canonical(last, max)
            && (forall c :: Has(last, c) <==> Has(was, c) || range.Contains(c))
            && (Apart(was, range) ==> last == was[..iter] + [range] + was[iter..])
  {
    PlacedCanonical(now, rhs, iter, max);
    forall c ensures Has(now[..iter] + [rhs] + now[iter..], c) <==> Has(was, c) || range.Contains(c) {
      PlacedHas(now, rhs, iter, c);
    }
    if Apart(was, range) {
      assert now == was;
    }
  }

  lemma PlacedCanonical(rs: seq<Range>, r: Range, k: nat, max: nat)
    requires Canonical(rs, max) && k <= |rs| && r.first <= r.second <= max
    requires forall i :: 0 <= i < k ==> rs[i].second + 1 < r.first
    requires k < |rs| ==> r.second + 1 < rs[k].first
    ensures Canonical(rs[..k] + [r] + rs[k..], max)
  {
  }

  lemma PlacedHas(rs: seq<Range>, r: Range, k: nat, c: nat)
    requires k <= |rs|
    ensures Has(rs[..k] + [r] + rs[k..], c) <==> Has(rs, c) || r.Contains(c)
  {
    HasParts(rs[..k], r, rs[k..], c);
    HasAppend(rs[..k], rs[k..], c);
    assert rs == rs[..k] + rs[k..];
  }

  /** The range neither overlaps nor touches anything. */
  ghost predicate Apart(rs: seq<Range>, r: Range) {
    forall i :: 0 <= i < |rs| ==> rs[i].second + 1 < r.first || r.second + 1 < rs[i].first
  }

  /** The smallest range that covers two. */
  function Merge(rhs: Range, current: Range): Range {
    Range(if rhs.first < current.first then rhs.first else current.first,
          if rhs.second > current.second then rhs.second else current.second)
  }

  lemma MergeKeeps(rs: seq<Range>, k: nat, rhs: Range, max: nat)
    requires Canonical(rs, max) && k < |rs| && rhs.first <= rhs.second
    requires rhs.first <= rs[k].second + 1 && rs[k].first <= rhs.second + 1
    requires !(rs[k].first <= rhs.first && rhs.second <= rs[k].second)
    requires forall i :: 0 <= i < k ==> rs[i].second + 1 < rhs.first
    ensures var merged, rest := Merge(rhs, rs[k]), rs[..k] + rs[k + 1..];
            && merged.first <= rhs.first && rhs.second <= merged.second
            && Canonical(rest, max)
            && (forall i :: 0 <= i < k ==> rest[i].second + 1 < merged.first)
            && (forall c :: Has(rest, c) || merged.Contains(c) <==> Has(rs, c) || rhs.Contains(c))
  {
    var merged, rest := Merge(rhs, rs[k]), rs[..k] + rs[k + 1..];
    forall c ensures Has(rest, c) || merged.Contains(c) <==> Has(rs, c) || rhs.Contains(c) {
      assert rs == rs[..k] + [rs[k]] + rs[k + 1..];
      HasParts(rs[..k], rs[k], rs[k + 1..], c);
      HasAppend(rs[..k], rs[k + 1..], c);
      assert merged.Contains(c) <==> rhs.Contains(c) || rs[k].Contains(c);
    }
  }
}
