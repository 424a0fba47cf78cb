/**
 The tables of the generated lexer, and their minimisation.

 A table is a vector of rows. Row 0 is the jam state, whose first cell is the state to start from at
 the beginning of a line; row 1 is the start state. Rows refer to each other by number.
 */
module DfaTables {

  // The columns of a row.
  const END_STATE := 0
  const ID := 1
  const USER_ID := 2
  const PUSH_DFA := 3
  const NEXT_DFA := 4
  const EOL := 5
  const DEAD := 6
  const TRANSITIONS := 7

  /** The largest id: no such row, no such token. */
  const NPOS: nat := 0xFFFF_FFFF_FFFF_FFFF

  type Row = seq<nat>
  type Table = seq<Row>

  ghost predicate WellFormedRow(row: Row, alphabet: nat, rows: nat) {
    |row| == alphabet && forall c :: EOL <= c < alphabet ==> row[c] < rows
  }

  ghost predicate WellFormed(t: Table, alphabet: nat) {
    && TRANSITIONS <= alphabet
    && 1 <= |t| <= NPOS
    && |t[0]| == alphabet && t[0][0] < |t|
    && forall r :: 1 <= r < |t| ==> WellFormedRow(t[r], alphabet, |t|)
  }

  /** The cells that characters outside every character class lead through. */
  ghost predicate DeadZero(t: Table, alphabet: nat)
    requires WellFormed(t, alphabet)
  {
    forall r :: 1 <= r < |t| ==> t[r][DEAD] == 0
  }

  ghost predicate NoTwins(t: Table) {
    forall i, j :: 1 <= i < j < |t| ==> t[i] != t[j]
  }

  // ---------------------------------------------------------------------------------------------
  // Renumbering

  /** A numbering of rows: the jam row and the start row keep their numbers, and nothing else becomes the jam row. */
  ghost predicate Numbering(f: seq<nat>, rows: nat, newRows: nat) {
    && |f| == rows >= 1 && f[0] == 0
    && (rows > 1 ==> f[1] == 1)
    && forall i :: 1 <= i < rows ==> 1 <= f[i] < newRows
  }

  /** The row that minimisation writes: references renumbered, except that the dead column is left as it was resized. */
  function RenumberRow(row: Row, f: seq<nat>): Row
    requires WellFormedRow(row, |row|, |f|)
  {
    seq(|row|, c requires 0 <= c < |row| =>
      if c < EOL then row[c] else if c == DEAD then 0 else f[row[c]])
  }

  /**
   A row is the image of another: the same data, and references that follow the numbering. The dead
   column needs to follow only if it is ever read.
   */
  ghost predicate RowImage(row: Row, image: Row, f: seq<nat>, deadRead: bool) {
    && |image| == |row|
    && (forall c :: 0 <= c < EOL && c < |row| ==> image[c] == row[c])
    && (forall c :: EOL <= c < |row| ==> row[c] < |f| && (c != DEAD || deadRead ==> image[c] == f[row[c]]))
  }

  /** A table is the image of another under a numbering, beginning-of-line and end-of-line entries included. */
  ghost predicate Image(t: Table, u: Table, alphabet: nat, f: seq<nat>, deadRead: bool)
    requires WellFormed(t, alphabet) && WellFormed(u, alphabet)
  {
    && Numbering(f, |t|, |u|) && |u| <= |t|
    && u[0][0] == f[t[0][0]]
    && forall r :: 1 <= r < |t| ==> RowImage(t[r], u[f[r]], f, deadRead)
  }

  ghost predicate Attained(f: seq<nat>, v: nat) {
    exists i :: 1 <= i < |f| && f[i] == v
  }

  /** What one pass over a table achieves. */
  ghost predicate Merged(t: Table, u: Table, alphabet: nat, f: seq<nat>)
    requires WellFormed(t, alphabet)
  {
    && WellFormed(u, alphabet) && Numbering(f, |t|, |u|)
    && |u| <= |t|
    && u[0][0] == f[t[0][0]]
    && (forall i, j :: 1 <= i < |t| && 1 <= j < |t| ==> (f[i] == f[j] <==> t[i] == t[j]))
    && (|u| == |t| <==> NoTwins(t))
    && (|u| == |t| ==> u == t && forall i :: 0 <= i < |t| ==> f[i] == i)
    && (|u| < |t| ==> forall i :: 1 <= i < |t| ==> u[f[i]] == RenumberRow(t[i], f))
    && (forall v :: 1 <= v < |u| ==> Attained(f, v))
  }

  /**
   When minimising leaves an image of a table: it has no equal rows, nothing is referred to from its
   dead column, or that is never read.
   */
  ghost predicate Follows(t: Table, alphabet: nat, deadRead: bool)
    requires WellFormed(t, alphabet)
  {
    NoTwins(t) || DeadZero(t, alphabet) || !deadRead
  }

  /** One pass gives an image exactly under that condition. */
  lemma MergedIsImage(t: Table, u: Table, alphabet: nat, f: seq<nat>, deadRead: bool)
    requires WellFormed(t, alphabet) && Merged(t, u, alphabet, f)
    ensures Image(t, u, alphabet, f, deadRead) <==> Follows(t, alphabet, deadRead)
  {
    if |u| == |t| {
      assert forall r :: 1 <= r < |t| ==> RowImage(t[r], u[f[r]], f, deadRead);
    } else if DeadZero(t, alphabet) || !deadRead {
      forall r | 1 <= r < |t| ensures RowImage(t[r], u[f[r]], f, deadRead) {
        assert u[f[r]] == RenumberRow(t[r], f);
        assert WellFormedRow(t[r], alphabet, |t|);
      }
    } else {
      var r :| 1 <= r < |t| && t[r][DEAD] != 0;
      assert u[f[r]] == RenumberRow(t[r], f) && u[f[r]][DEAD] == 0;
      assert WellFormedRow(t[r], alphabet, |t|);
      assert f[t[r][DEAD]] != 0;
      assert !RowImage(t[r], u[f[r]], f, deadRead);
    }
  }

  /** After a pass that removed something, the dead column is zero. */
  lemma MergedDeadZero(t: Table, u: Table, alphabet: nat, f: seq<nat>)
    requires WellFormed(t, alphabet) && Merged(t, u, alphabet, f)
    requires |u| < |t| || DeadZero(t, alphabet)
    ensures DeadZero(u, alphabet)
  {
    if |u| < |t| {
      forall v | 1 <= v < |u| ensures u[v][DEAD] == 0 {
        assert Attained(f, v);
        var i :| 1 <= i < |t| && f[i] == v;
        assert u[f[i]] == RenumberRow(t[i], f);
        assert WellFormedRow(t[i], alphabet, |t|);
      }
    }
  }

  function Compose(f: seq<nat>, g: seq<nat>): seq<nat>
    requires forall i :: 0 <= i < |f| ==> f[i] < |g|
  {
    seq(|f|, i requires 0 <= i < |f| => g[f[i]])
  }

  lemma ImageCompose(t: Table, u: Table, v: Table, alphabet: nat, f: seq<nat>, g: seq<nat>, deadRead: bool)
    requires WellFormed(t, alphabet) && WellFormed(u, alphabet) && WellFormed(v, alphabet)
    requires Numbering(f, |t|, |u|) && Image(u, v, alphabet, g, deadRead)
    ensures Numbering(Compose(f, g), |t|, |v|)
    ensures Image(t, u, alphabet, f, deadRead) ==> Image(t, v, alphabet, Compose(f, g), deadRead)
  {
    var h := Compose(f, g);
    if Image(t, u, alphabet, f, deadRead) {
      forall r | 1 <= r < |t| ensures RowImage(t[r], v[h[r]], h, deadRead) {
        assert RowImage(t[r], u[f[r]], f, deadRead);
        assert RowImage(u[f[r]], v[g[f[r]]], g, deadRead);
      }
    }
  }

  // ---------------------------------------------------------------------------------------------
  // Which rows are kept

  /** The first row after the jam row that is equal to a given one. */
  ghost function First(t: Table, i: nat): (r: nat)
    requires 1 <= i < |t|
    ensures 1 <= r <= i
  {
    FirstFrom(t, i, 1)
  }

  ghost function FirstFrom(t: Table, i: nat, j: nat): (r: nat)
    requires 1 <= j <= i < |t|
    ensures j <= r <= i
    decreases i - j
  {
    if j == i || t[j] == t[i] then j else FirstFrom(t, i, j + 1)
  }

  lemma {:induction false} FirstFromIs(t: Table, i: nat, j: nat)
    requires 1 <= j <= i < |t|
    ensures t[FirstFrom(t, i, j)] == t[i]
    ensures forall h :: j <= h < FirstFrom(t, i, j) ==> t[h] != t[i]
    decreases i - j
  {
    if j != i && t[j] != t[i] { FirstFromIs(t, i, j + 1); }
  }

  lemma FirstOfEqual(t: Table, i: nat, j: nat)
    requires 1 <= i < |t| && 1 <= j < |t|
    ensures First(t, i) == First(t, j) <==> t[i] == t[j]
    ensures First(t, First(t, i)) == First(t, i)
    ensures t[First(t, i)] == t[i]
  {
    FirstFromIs(t, i, 1);
    FirstFromIs(t, j, 1);
    FirstFromIs(t, First(t, i), 1);
  }

  /** How many rows up to and including `i` are kept: the new number of `i`, if it is kept itself. */
  ghost function Rank(t: Table, i: nat): (r: nat)
    requires i < |t|
    ensures r <= i
  {
    if i == 0 then 0 else Rank(t, i - 1) + if First(t, i) == i then 1 else 0
  }

  lemma {:induction false} RankIncreases(t: Table, i: nat, j: nat)
    requires 0 <= i < j < |t|
    ensures Rank(t, i) <= Rank(t, j)
    ensures First(t, j) == j ==> Rank(t, i) < Rank(t, j)
    decreases j
  {
    if i < j - 1 { RankIncreases(t, i, j - 1); }
  }

  /** Every number up to the last is the rank of a kept row. */
  lemma {:induction false} RankAttained(t: Table, v: nat, m: nat) returns (i: nat)
    requires m < |t| && 1 <= v <= Rank(t, m)
    ensures 1 <= i <= m && First(t, i) == i && Rank(t, i) == v
    decreases m
  {
    if First(t, m) == m && Rank(t, m) == v {
      i := m;
    } else {
      i := RankAttained(t, v, m - 1);
    }
  }

  /** The rows below `m` that repeat an earlier one. */
  ghost function Repeats(t: Table, m: nat): (r: set<nat>)
    requires 1 <= m <= |t|
    ensures forall i :: i in r <==> 1 <= i < m && First(t, i) < i
    ensures |r| + Rank(t, m - 1) == m - 1
    decreases m
  {
    if m == 1 then {} else
      var s := Repeats(t, m - 1);
      if First(t, m - 1) < m - 1 then s + {m - 1} else s
  }

  // ---------------------------------------------------------------------------------------------
  // The pass

  /**
   Row `i` is known to repeat an earlier row, when the rows below `index` have met all later ones
   and row `index` those below `curr`.
   */
  ghost predicate Known(t: Table, i: nat, index: nat, curr: nat) {
    1 <= i < |t| && First(t, i) < i && (First(t, i) < index || (First(t, i) == index && i < curr))
  }

  ghost predicate Scanned(t: Table, index: nat, curr: nat, lookup: seq<nat>, dups: set<nat>) {
    && |lookup| == |t| && (|t| > 0 ==> lookup[0] == 0)
    && (forall i :: i in dups <==> Known(t, i, index, curr))
    && (forall i :: 1 <= i < |t| ==>
          lookup[i] == if i < index || Known(t, i, index, curr) then Rank(t, First(t, i)) else NPOS)
  }

  /** Row `index` meets row `curr`. */
  lemma CompareNext(t: Table, index: nat, curr: nat, lookup: seq<nat>, dups: set<nat>)
    requires 1 <= index < curr < |t| && Scanned(t, index, curr, lookup, dups)
    ensures curr in dups || t[index] != t[curr] ==> Scanned(t, index, curr + 1, lookup, dups)
    ensures curr !in dups && t[index] == t[curr] ==>
              Scanned(t, index, curr + 1, lookup[curr := Rank(t, index)], dups + {curr}) && First(t, index) == index
  {
    FirstOfEqual(t, index, curr);
    FirstOfEqual(t, curr, index);
    forall i: nat | i != curr ensures Known(t, i, index, curr + 1) == Known(t, i, index, curr) {
      KnownOneMore(t, i, index, curr);
    }
    if curr !in dups && t[index] == t[curr] {
      assert First(t, curr) == index;
    }
  }

  lemma KnownOneMore(t: Table, i: nat, index: nat, curr: nat)
    requires 1 <= index < curr < |t| && i != curr
    ensures Known(t, i, index, curr + 1) == Known(t, i, index, curr)
  {
  }

  /** Compares one row with the later rows that are not duplicates yet. */
  method CompareRow(t: Table, index: nat, lookup: seq<nat>, dups: set<nat>, newIndex: nat)
    returns (lookup': seq<nat>, dups': set<nat>)
    requires 1 <= index < |t| && Scanned(t, index, index + 1, lookup, dups) && newIndex == Rank(t, index - 1) + 1
    ensures Scanned(t, index, |t|, lookup', dups')
  {
    lookup', dups' := lookup, dups;
    var curr := index + 1;
    while curr < |t|
      invariant index < curr <= |t|
      invariant Scanned(t, index, curr, lookup', dups')
    {
      CompareNext(t, index, curr, lookup', dups');
      if curr !in dups' {
        if t[index] == t[curr] {
          dups' := dups' + {curr};
          lookup' := lookup'[curr := newIndex];
        }
      }
      curr := curr + 1;
    }
  }

  /** Finds the duplicate rows and gives all rows their new numbers. */
  method ScanRows(dfa: Table) returns (lookup: seq<nat>, indexSet: set<nat>)
    requires 1 <= |dfa| <= NPOS
    ensures Scanned(dfa, |dfa|, |dfa| + 1, lookup, indexSet)
  {
    var size := |dfa|;
    var index, newIndex := 1, 1;
    lookup := seq(size, _ => NPOS);
    indexSet := {};
    lookup := lookup[0 := 0];
    while index < size
      invariant 1 <= index <= size
      invariant Scanned(dfa, index, index + 1, lookup, indexSet)
      invariant newIndex == Rank(dfa, index - 1) + 1
    {
      lookup, indexSet := CompareRow(dfa, index, lookup, indexSet, newIndex);
      RowScanned(dfa, index, lookup, indexSet, newIndex);
      if lookup[index] == NPOS {
        lookup := lookup[index := newIndex];
        newIndex := newIndex + 1;
      }
      index := index + 1;
    }
  }

  /** One pass: finds duplicate rows, renumbers, and rebuilds the table without them. */
  method MinimiseDfa(alphabet: nat, dfa: Table) returns (result: Table, ghost f: seq<nat>)
    requires WellFormed(dfa, alphabet)
    ensures Merged(dfa, result, alphabet, f)
  {
    var lookup, indexSet := ScanRows(dfa);
    f := lookup;
    assert indexSet == Repeats(dfa, |dfa|);
    ScanNumbers(dfa, lookup, indexSet);
    if indexSet == {} {
      NothingMerged(dfa, lookup);
      result := dfa;
    } else {
      result := Rebuild(alphabet, dfa, lookup, indexSet);
      RebuiltIsMerged(dfa, result, alphabet, lookup, indexSet);
    }
  }

  /** When a row has met all later rows and has its own number, the next row is to be compared. */
  lemma ScannedNext(t: Table, index: nat, lookup: seq<nat>, dups: set<nat>)
    requires 1 <= index < |t| == |lookup| && lookup[0] == 0
    requires forall i :: i in dups <==> Known(t, i, index, |t|)
    requires forall i :: 1 <= i < |t| ==>
               lookup[i] == if i <= index || Known(t, i, index, |t|) then Rank(t, First(t, i)) else NPOS
    ensures Scanned(t, index + 1, index + 2, lookup, dups)
  {
    forall i: nat ensures Known(t, i, index + 1, index + 2) == Known(t, i, index, |t|) {
      KnownNext(t, i, index);
    }
    forall i: nat | 1 <= i < |t|
      ensures lookup[i] == if i < index + 1 || Known(t, i, index + 1, index + 2) then Rank(t, First(t, i)) else NPOS
    {
      assert i < index + 1 <==> i <= index;
    }
  }

  /** Having met all later rows is the same as the next row having met none. */
  lemma KnownNext(t: Table, i: nat, index: nat)
    requires 1 <= index < |t|
    ensures Known(t, i, index + 1, index + 2) == Known(t, i, index, |t|)
  {
  }

  lemma ScanNumbersRow(t: Table, lookup: seq<nat>, dups: set<nat>, i: nat)
    requires Scanned(t, |t|, |t| + 1, lookup, dups) && 1 <= i < |t|
    ensures lookup[i] == Rank(t, First(t, i)) && 1 <= lookup[i] <= Rank(t, |t| - 1)
  {
    RankOfFirst(t, i);
  }

  lemma RankOfFirst(t: Table, i: nat)
    requires 1 <= i < |t|
    ensures 1 <= Rank(t, First(t, i)) <= Rank(t, |t| - 1)
  {
    FirstOfEqual(t, i, i);
    RankWithin(t, First(t, i), |t| - 1);
  }

  lemma RankWithin(t: Table, i: nat, j: nat)
    requires 1 <= i <= j < |t| && First(t, i) == i
    ensures 1 <= Rank(t, i) <= Rank(t, j)
  {
    RankIncreases(t, 0, i);
    if i < j { RankIncreases(t, i, j); }
  }

  lemma ScanNumbersAlike(t: Table, lookup: seq<nat>, dups: set<nat>, i: nat, j: nat)
    requires Scanned(t, |t|, |t| + 1, lookup, dups) && 1 <= i < |t| && 1 <= j < |t|
    ensures lookup[i] == lookup[j] <==> t[i] == t[j]
  {
    ScanNumbersRow(t, lookup, dups, i);
    ScanNumbersRow(t, lookup, dups, j);
    FirstOfEqual(t, i, j);
    FirstOfEqual(t, j, i);
    var a, b := First(t, i), First(t, j);
    if a < b { RankIncreases(t, a, b); }
    if b < a { RankIncreases(t, b, a); }
  }

  /** A row without a number gets the next one. */
  lemma RowScanned(t: Table, index: nat, lookup: seq<nat>, dups: set<nat>, newIndex: nat)
    requires 1 <= index < |t| <= NPOS && Scanned(t, index, |t|, lookup, dups) && newIndex == Rank(t, index - 1) + 1
    ensures |lookup| == |t|
    ensures lookup[index] == NPOS ==>
            Scanned(t, index + 1, index + 2, lookup[index := newIndex], dups) && Rank(t, index) == newIndex
    ensures lookup[index] != NPOS ==> Scanned(t, index + 1, index + 2, lookup, dups) && Rank(t, index) + 1 == newIndex
  {
    RankOfRow(t, index, lookup, dups);
    if lookup[index] == NPOS {
      RowNumbered(t, index, lookup, dups);
    } else {
      RowRepeats(t, index, lookup, dups);
    }
  }

  lemma RowRepeats(t: Table, index: nat, lookup: seq<nat>, dups: set<nat>)
    requires 1 <= index < |t| <= NPOS && Scanned(t, index, |t|, lookup, dups) && lookup[index] != NPOS
    ensures Scanned(t, index + 1, index + 2, lookup, dups)
  {
    ScannedNext(t, index, lookup, dups);
  }

  lemma RowNumbered(t: Table, index: nat, lookup: seq<nat>, dups: set<nat>)
    requires 1 <= index < |t| <= NPOS && Scanned(t, index, |t|, lookup, dups) && First(t, index) == index
    ensures Scanned(t, index + 1, index + 2, lookup[index := Rank(t, index)], dups)
  {
    ScannedNext(t, index, lookup[index := Rank(t, index)], dups);
  }

  /** A row is without a number exactly if it is the first of its kind. */
  lemma RankOfRow(t: Table, index: nat, lookup: seq<nat>, dups: set<nat>)
    requires 1 <= index < |t| <= NPOS && Scanned(t, index, |t|, lookup, dups)
    ensures lookup[index] == NPOS <==> First(t, index) == index
    ensures Rank(t, index) == Rank(t, index - 1) + if lookup[index] == NPOS then 1 else 0
    ensures forall i :: i in dups <==> Known(t, i, index, |t|)
  {
  }

  /** What a finished scan numbers alike. */
  lemma ScanNumbers(t: Table, lookup: seq<nat>, dups: set<nat>)
    requires 1 <= |t| <= NPOS && Scanned(t, |t|, |t| + 1, lookup, dups)
    ensures Numbering(lookup, |t|, Rank(t, |t| - 1) + 1)
    ensures forall i, j :: 1 <= i < |t| && 1 <= j < |t| ==> (lookup[i] == lookup[j] <==> t[i] == t[j])
    ensures forall v :: 1 <= v <= Rank(t, |t| - 1) ==> Attained(lookup, v)
  {
    forall i: nat | 1 <= i < |t| ensures 1 <= lookup[i] <= Rank(t, |t| - 1) {
      ScanNumbersRow(t, lookup, dups, i);
    }
    if |t| > 1 {
      assert First(t, 1) == 1;
    }
    forall i: nat, j: nat | 1 <= i < |t| && 1 <= j < |t| ensures lookup[i] == lookup[j] <==> t[i] == t[j] {
      ScanNumbersAlike(t, lookup, dups, i, j);
    }
    forall v | 1 <= v <= Rank(t, |t| - 1) ensures Attained(lookup, v) {
      var i := RankAttained(t, v, |t| - 1);
      assert lookup[i] == v;
    }
  }

  /** Without duplicates every row keeps its number. */
  lemma NothingMerged(t: Table, lookup: seq<nat>)
    requires 1 <= |t| <= NPOS && Scanned(t, |t|, |t| + 1, lookup, {})
    ensures NoTwins(t)
    ensures forall i :: 0 <= i < |t| ==> lookup[i] == i
    ensures Rank(t, |t| - 1) == |t| - 1
  {
    forall i: nat | 1 <= i < |t| ensures First(t, i) == i {
      assert !Known(t, i, |t|, |t| + 1);
    }
    NothingRepeated(t);
    forall i: nat | 1 <= i < |t| ensures lookup[i] == i {
      assert Rank(t, i) == i;
    }
  }

  /** If every row is the first of its kind there are no twins, and every row keeps its rank. */
  lemma NothingRepeated(t: Table)
    requires 1 <= |t| && forall i: nat :: 1 <= i < |t| ==> First(t, i) == i
    ensures NoTwins(t) && forall i: nat :: i < |t| ==> Rank(t, i) == i
  {
    forall i: nat, j: nat | 1 <= i < j < |t| ensures t[i] != t[j] {
      FirstOfEqual(t, i, j);
    }
    forall i: nat | i < |t| ensures Rank(t, i) == i {
      RankIsPlace(t, i);
    }
  }

  lemma {:induction false} RankIsPlace(t: Table, i: nat)
    requires i < |t| && forall j: nat :: 1 <= j < |t| ==> First(t, j) == j
    ensures Rank(t, i) == i
  {
    if i > 0 { RankIsPlace(t, i - 1); }
  }

  /** The kept rows below `index` stand renumbered at their ranks. */
  ghost predicate Copied(t: Table, u: Table, alphabet: nat, lookup: seq<nat>, index: nat)
    requires WellFormed(t, alphabet) && |lookup| == |t| && index <= |t|
  {
    forall i {:trigger Rank(t, i)} :: 1 <= i < index && First(t, i) == i ==>
      Rank(t, i) < |u| && u[Rank(t, i)] == Renumbered(t, alphabet, lookup, i)
  }

  function Renumbered(t: Table, alphabet: nat, lookup: seq<nat>, i: nat): Row
    requires WellFormed(t, alphabet) && |lookup| == |t| && 1 <= i < |t|
  {
    assert WellFormedRow(t[i], alphabet, |t|);
    RenumberRow(t[i], lookup)
  }

  lemma CopyNext(t: Table, u: Table, alphabet: nat, lookup: seq<nat>, index: nat)
    requires WellFormed(t, alphabet) && |lookup| == |t| && 1 <= index < |t| && First(t, index) == index
    requires Copied(t, u, alphabet, lookup, index) && |u| == Rank(t, |t| - 1) + 1
    ensures 1 <= Rank(t, index) < |u|
    ensures Copied(t, u[Rank(t, index) := Renumbered(t, alphabet, lookup, index)], alphabet, lookup, index + 1)
  {
    RankIncreases(t, 0, index);
    if index < |t| - 1 { RankIncreases(t, index, |t| - 1); }
    forall i | 1 <= i < index ensures Rank(t, i) < Rank(t, index) {
      RankIncreases(t, i, index);
    }
  }

  /** A new table with the old jam row and nothing else. */
  method Resized(alphabet: nat, dfa: Table, lookup: seq<nat>, rows: nat) returns (result: Table)
    requires WellFormed(dfa, alphabet) && |lookup| == |dfa| && rows >= 1
    ensures |result| == rows
    ensures lookup[0] == 0 ==> result[0] == dfa[0][0 := lookup[dfa[0][0]]]
  {
    result := [dfa[0]] + seq(rows - 1, _ => seq(alphabet, _ => 0));
    if dfa[0][0] != 0 {
      result := result[0 := dfa[0][0 := lookup[dfa[0][0]]]];
    }
  }

  /** Copies the rows that are kept, renumbered, into a table of the right size. */
  method Rebuild(alphabet: nat, dfa: Table, lookup: seq<nat>, indexSet: set<nat>) returns (result: Table)
    requires WellFormed(dfa, alphabet) && |lookup| == |dfa|
    requires forall i :: i in indexSet <==> 1 <= i < |dfa| && First(dfa, i) < i
    requires |indexSet| + Rank(dfa, |dfa| - 1) == |dfa| - 1
    ensures |result| == Rank(dfa, |dfa| - 1) + 1
    ensures lookup[0] == 0 ==> result[0] == dfa[0][0 := lookup[dfa[0][0]]]
    ensures Copied(dfa, result, alphabet, lookup, |dfa|)
  {
    result := Resized(alphabet, dfa, lookup, |dfa| - |indexSet|);
    ghost var jam := result[0];
    var next := 1;
    var index := 1;
    while index < |dfa|
      invariant 1 <= index <= |dfa| && |result| == Rank(dfa, |dfa| - 1) + 1
      invariant result[0] == jam && next == Rank(dfa, index - 1) + 1
      invariant Copied(dfa, result, alphabet, lookup, index)
    {
      if index !in indexSet {
        CopyNext(dfa, result, alphabet, lookup, index);
        result := result[next := Renumbered(dfa, alphabet, lookup, index)];
        next := next + 1;
      }
      index := index + 1;
    }
  }

  lemma RenumberWellFormed(row: Row, f: seq<nat>, alphabet: nat, rows: nat, newRows: nat)
    requires WellFormedRow(row, alphabet, rows) && Numbering(f, rows, newRows) && 1 <= newRows
    ensures WellFormedRow(RenumberRow(row, f), alphabet, newRows)
  {
  }

  lemma RebuiltRows(t: Table, u: Table, alphabet: nat, lookup: seq<nat>, dups: set<nat>)
    requires WellFormed(t, alphabet) && Scanned(t, |t|, |t| + 1, lookup, dups)
    requires Numbering(lookup, |t|, |u|)
    requires Copied(t, u, alphabet, lookup, |t|)
    ensures forall i :: 1 <= i < |t| ==> u[lookup[i]] == RenumberRow(t[i], lookup)
  {
    forall i | 1 <= i < |t| ensures u[lookup[i]] == RenumberRow(t[i], lookup) {
      FirstOfEqual(t, i, i);
      assert Rank(t, First(t, i)) == lookup[i];
    }
  }

  lemma RebuiltWellFormed(t: Table, u: Table, alphabet: nat, f: seq<nat>)
    requires WellFormed(t, alphabet) && 1 <= |u| <= |t| && Numbering(f, |t|, |u|)
    requires u[0] == t[0][0 := f[t[0][0]]]
    requires forall i :: 1 <= i < |t| ==> u[f[i]] == RenumberRow(t[i], f)
    requires forall v :: 1 <= v < |u| ==> Attained(f, v)
    ensures WellFormed(u, alphabet)
  {
    forall v | 1 <= v < |u| ensures WellFormedRow(u[v], alphabet, |u|) {
      assert Attained(f, v);
      var i :| 1 <= i < |f| && f[i] == v;
      RenumberWellFormed(t[i], f, alphabet, |t|, |u|);
    }
  }

  /** A repeated row has a twin. */
  lemma RepeatIsTwin(t: Table)
    requires 1 <= |t| && Repeats(t, |t|) != {}
    ensures !NoTwins(t)
  {
    var i :| i in Repeats(t, |t|);
    FirstOfEqual(t, i, i);
  }

  lemma RebuiltIsMerged(t: Table, u: Table, alphabet: nat, lookup: seq<nat>, dups: set<nat>)
    requires WellFormed(t, alphabet) && Scanned(t, |t|, |t| + 1, lookup, dups)
    requires dups == Repeats(t, |t|) && dups != {}
    requires |u| == Rank(t, |t| - 1) + 1 && u[0] == t[0][0 := lookup[t[0][0]]]
    requires Copied(t, u, alphabet, lookup, |t|)
    ensures Merged(t, u, alphabet, lookup)
  {
    ScanNumbers(t, lookup, dups);
    assert |dups| > 0;
    RepeatIsTwin(t);
    RebuiltRows(t, u, alphabet, lookup, dups);
    RebuiltWellFormed(t, u, alphabet, lookup);
  }

  // ---------------------------------------------------------------------------------------------
  // Passes until nothing changes

  /**
   Repeats the pass until the table keeps its size. No twins are left, and the result is an image
   exactly when there were no twins, the dead column was zero, or it is never read.
   */
  method MinimiseTable(alphabet: nat, dfa: Table) returns (result: Table, ghost f: seq<nat>)
    requires WellFormed(dfa, alphabet)
    ensures WellFormed(result, alphabet) && NoTwins(result) && |result| <= |dfa|
    ensures Numbering(f, |dfa|, |result|)
    ensures forall deadRead :: Image(dfa, result, alphabet, f, deadRead) <==> Follows(dfa, alphabet, deadRead)
    ensures |result| == |dfa| <==> NoTwins(dfa)
    ensures |result| == |dfa| ==> result == dfa
    ensures |result| < |dfa| ==> DeadZero(result, alphabet)
  {
    result := dfa;
    f := seq(|dfa|, i => i);
    ProgressStarts(dfa, alphabet, f);
    var size := |dfa| + 1;
    while |result| != size
      invariant WellFormed(result, alphabet) && Progress(dfa, result, alphabet, f) && |result| <= size
      invariant |result| == size ==> NoTwins(result)
      decreases size
    {
      size := |result|;
      ghost var before := result;
      ghost var g;
      result, g := MinimiseDfa(alphabet, result);
      ProgressNext(dfa, before, result, alphabet, f, g);
      f := Composed(f, g, |before|, |result|);
    }
  }

  /** Composition of numberings that fit. */
  ghost function Composed(f: seq<nat>, g: seq<nat>, rows: nat, newRows: nat): seq<nat>
    requires Numbering(f, |f|, rows) && Numbering(g, rows, newRows)
  {
    assert forall i :: 0 <= i < |f| ==> f[i] < rows;
    Compose(f, g)
  }

  ghost predicate Progress(t: Table, u: Table, alphabet: nat, f: seq<nat>)
    requires WellFormed(t, alphabet) && WellFormed(u, alphabet)
  {
    && Numbering(f, |t|, |u|)
    && |u| <= |t|
    && (forall deadRead ::
          Image(t, u, alphabet, f, deadRead) <==> |u| == |t| || DeadZero(t, alphabet) || !deadRead)
    && (NoTwins(t) ==> u == t)
    && (|u| == |t| ==> u == t && forall i :: 0 <= i < |f| ==> f[i] == i)
    && (|u| < |t| || DeadZero(t, alphabet) ==> DeadZero(u, alphabet))
    && (|u| < |t| ==> forall i :: 1 <= i < |t| ==> |t[i]| == |u[f[i]]|)
  }

  lemma ProgressStarts(t: Table, alphabet: nat, f: seq<nat>)
    requires WellFormed(t, alphabet) && |f| == |t| && forall i :: 0 <= i < |t| ==> f[i] == i
    ensures Progress(t, t, alphabet, f)
  {
    forall i, deadRead | 1 <= i < |t| ensures RowImage(t[i], t[f[i]], f, deadRead) {
      assert WellFormedRow(t[i], alphabet, |t|);
    }
  }

  /** One more pass keeps the account: what was removed first decides whether the whole is an image. */
  lemma ProgressNext(t: Table, u: Table, v: Table, alphabet: nat, f: seq<nat>, g: seq<nat>)
    requires WellFormed(t, alphabet) && WellFormed(u, alphabet)
    requires Progress(t, u, alphabet, f) && Merged(u, v, alphabet, g)
    ensures Progress(t, v, alphabet, Composed(f, g, |u|, |v|))
  {
    var h := Compose(f, g);
    if |v| < |u| || DeadZero(u, alphabet) { MergedDeadZero(u, v, alphabet, g); }
    if |u| == |t| { assert h == g; }
    forall deadRead
      ensures Image(t, v, alphabet, h, deadRead) <==> |v| == |t| || DeadZero(t, alphabet) || !deadRead
    {
      ProgressImage(t, u, v, alphabet, f, g, deadRead);
    }
  }

  lemma ProgressImage(t: Table, u: Table, v: Table, alphabet: nat, f: seq<nat>, g: seq<nat>, deadRead: bool)
    requires WellFormed(t, alphabet) && WellFormed(u, alphabet)
    requires Progress(t, u, alphabet, f) && Merged(u, v, alphabet, g)
    ensures Image(t, v, alphabet, Compose(f, g), deadRead) <==> |v| == |t| || DeadZero(t, alphabet) || !deadRead
  {
    MergedIsImage(u, v, alphabet, g, deadRead);
    if |u| == |t| {
      assert Compose(f, g) == g;
    } else {
      MergedDeadZero(u, v, alphabet, g);
      assert Image(t, u, alphabet, f, deadRead) <==> DeadZero(t, alphabet) || !deadRead;
      ImageCompose(t, u, v, alphabet, f, g, deadRead);
      if !DeadZero(t, alphabet) && deadRead { DeadReferenceLost(t, v, alphabet, Compose(f, g)); }
    }
  }

  /** A table whose dead column is zero is no image of one whose dead column is not, where that column is read. */
  lemma DeadReferenceLost(t: Table, v: Table, alphabet: nat, h: seq<nat>)
    requires WellFormed(t, alphabet) && WellFormed(v, alphabet) && DeadZero(v, alphabet) && !DeadZero(t, alphabet)
    requires Numbering(h, |t|, |v|)
    ensures !Image(t, v, alphabet, h, true)
  {
    var r :| 1 <= r < |t| && t[r][DEAD] != 0;
    assert WellFormedRow(t[r], alphabet, |t|);
    assert v[h[r]][DEAD] == 0 && h[t[r][DEAD]] != 0;
    assert !RowImage(t[r], v[h[r]], h, true);
  }
}
