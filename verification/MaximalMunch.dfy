/**
 What a call of the matcher finds, for every combination of its features: the longest match from
 where the last one ended, again and again as long as what it finds is to be skipped or asks to go on.
 */
module MaximalMunch {
  import opened DfaTables
  import opened Lexing

  // ---------------------------------------------------------------------------------------------
  // Rows

  predicate IsRow(m: Internals, d: nat, row: nat) {
    m.Has(d) && 1 <= row < |m.dfa[d]|
  }

  predicate AcceptingRow(m: Internals, d: nat, row: nat)
    requires m.WellFormed() && IsRow(m, d, row)
  {
    RowOf(m, d, row)[END_STATE] != 0
  }

  /** The row that is entered without reading anything at the end of a line; 0 if there is none. */
  function EolOf(m: Internals, d: nat, row: nat): (e: nat)
    requires m.WellFormed() && IsRow(m, d, row)
    ensures e < |m.dfa[d]|
  {
    if m.flags.eol then RowOf(m, d, row)[EOL] else 0
  }

  /** Following end-of-line entries comes to an end within so many rows. */
  predicate EolEnds(m: Internals, d: nat, row: nat, fuel: nat)
    requires m.WellFormed() && IsRow(m, d, row)
    decreases fuel
  {
    EolOf(m, d, row) == 0 || (fuel > 0 && EolEnds(m, d, EolOf(m, d, row), fuel - 1))
  }

  /** No end-of-line entries lead in a circle. */
  ghost predicate EolsEnd(m: Internals)
    requires m.WellFormed()
  {
    forall d: nat, row: nat :: IsRow(m, d, row) ==> EolEnds(m, d, row, |m.dfa[d]|)
  }

  /** The row a call starts in: at the beginning of a line it may be one of its own. */
  function StartRow(m: Internals, r: Results): (row: nat)
    requires m.WellFormed() && m.Has(r.state)
    ensures IsRow(m, r.state, row)
  {
    if m.flags.bol && r.bol && m.dfa[r.state][0][0] != 0 then m.dfa[r.state][0][0] else 1
  }

  // ---------------------------------------------------------------------------------------------
  // Tokens

  /** What is found at a place: nothing, an empty token because the start row accepts, or an accepting row. */
  datatype Found = Nothing | Initial | Recorded(row: nat)

  function Better(m: Internals, d: nat, row: nat, best: Found): Found
    requires m.WellFormed() && IsRow(m, d, row)
  {
    if AcceptingRow(m, d, row) then Recorded(row) else best
  }

  /** The end-of-line entries followed to their end, and the last accepting row met on the way. */
  function EolRun(m: Internals, d: nat, row: nat, best: Found, fuel: nat): (r: (nat, Found))
    requires m.WellFormed() && IsRow(m, d, row)
    ensures IsRow(m, d, r.0)
    ensures r.1 == best || (r.1.Recorded? && IsRow(m, d, r.1.row) && AcceptingRow(m, d, r.1.row))
    decreases fuel
  {
    var e := EolOf(m, d, row);
    if e == 0 || fuel == 0 then (row, best) else EolRun(m, d, e, Better(m, d, e, best), fuel - 1)
  }

  function Settle(m: Internals, d: nat, row: nat, best: Found): (r: (nat, Found))
    requires m.WellFormed() && IsRow(m, d, row)
    ensures IsRow(m, d, r.0)
    ensures r.1 == best || (r.1.Recorded? && IsRow(m, d, r.1.row) && AcceptingRow(m, d, r.1.row))
  {
    EolRun(m, d, row, best, |m.dfa[d]|)
  }

  /** Where the run ends does not depend on what was met before. */
  lemma {:induction false} EolRunRow(m: Internals, d: nat, row: nat, best: Found, other: Found, fuel: nat)
    requires m.WellFormed() && IsRow(m, d, row)
    ensures EolRun(m, d, row, best, fuel).0 == EolRun(m, d, row, other, fuel).0
    decreases fuel
  {
    var e := EolOf(m, d, row);
    if e != 0 && fuel > 0 { EolRunRow(m, d, e, Better(m, d, e, best), Better(m, d, e, other), fuel - 1); }
  }

  /** The row in which the next character is read. */
  ghost function Depart(m: Internals, d: nat, input: seq<nat>, j: nat, row: nat): (s: nat)
    requires m.WellFormed() && IsRow(m, d, row) && j < |input|
    ensures IsRow(m, d, s)
  {
    if input[j] == NEWLINE then Settle(m, d, row, Nothing).0 else row
  }

  /** The row reached by reading the input from `i` to `j`, before any end-of-line entry at `j`; 0 if there is none. */
  ghost function Arrive(m: Internals, d: nat, start: nat, input: seq<nat>, i: nat, j: nat): (row: nat)
    requires m.WellFormed() && IsRow(m, d, start) && i <= j <= |input|
    ensures row == 0 || IsRow(m, d, row)
    decreases j
  {
    if j == i then start else
      var q := Arrive(m, d, start, input, i, j - 1);
      if q == 0 then 0 else NextChar(m, d, Depart(m, d, input, j - 1, q), Bytes(m.width, input[j - 1])).1
  }

  /** What is found on arrival: at the start an empty token if the start row accepts, later the row itself. */
  ghost function FoundOnArrival(m: Internals, r: Results, j: nat, row: nat): Found
    requires m.WellFormed() && IsRow(m, r.state, row)
  {
    if j == r.end then (if AcceptingRow(m, r.state, 1) then Initial else Nothing) else Better(m, r.state, row, Nothing)
  }

  /** What is found at a place. Before a newline all end-of-line entries are followed, at the end of the input one. */
  ghost function TokenAt(m: Internals, input: seq<nat>, r: Results, j: nat): (f: Found)
    requires m.WellFormed() && m.Has(r.state) && r.end <= j <= |input|
    ensures f.Recorded? ==> IsRow(m, r.state, f.row) && AcceptingRow(m, r.state, f.row)
    ensures f.Initial? ==> AcceptingRow(m, r.state, 1)
  {
    var d := r.state;
    var q := Arrive(m, d, StartRow(m, r), input, r.end, j);
    if q == 0 then Nothing else
      var first := FoundOnArrival(m, r, j, q);
      if j == |input| then (if EolOf(m, d, q) != 0 then Better(m, d, EolOf(m, d, q), first) else first)
      else if input[j] == NEWLINE then Settle(m, d, q, first).1
      else first
  }

  ghost predicate NoToken(m: Internals, input: seq<nat>, r: Results, from: nat, to: nat)
    requires m.WellFormed() && m.Has(r.state) && r.end <= from && to <= |input|
  {
    forall j :: from <= j <= to ==> TokenAt(m, input, r, j) == Nothing
  }

  /** The longest match ends here. */
  ghost predicate Longest(m: Internals, input: seq<nat>, r: Results, end: nat)
    requires m.WellFormed() && m.Has(r.state) && r.end <= |input|
  {
    r.end <= end <= |input| && TokenAt(m, input, r, end) != Nothing && NoToken(m, input, r, end + 1, |input|)
  }

  lemma LongestIsUnique(m: Internals, input: seq<nat>, r: Results, end: nat)
    requires m.WellFormed() && m.Has(r.state) && r.end <= |input| && Longest(m, input, r, end)
    ensures forall other :: Longest(m, input, r, other) ==> other == end
    ensures !NoToken(m, input, r, r.end, |input|)
  {
    assert TokenAt(m, input, r, end) != Nothing;
  }

  // ---------------------------------------------------------------------------------------------
  // What a match means

  /** The row whose cells a match reports. */
  ghost function RowFound(m: Internals, d: nat, f: Found): (row: Row)
    requires m.WellFormed() && m.Has(d) && f != Nothing && (f.Recorded? ==> IsRow(m, d, f.row))
    ensures |row| >= TRANSITIONS
  {
    RowOf(m, d, if f.Initial? then 1 else f.row)
  }

  /** An accepting row leaves the lexer state by way of the stack. */
  predicate Pops(m: Internals, row: Row)
    requires |row| >= TRANSITIONS
  {
    m.flags.recursive && PopBit(row[END_STATE])
  }

  /** What an accepting row does to the stack of lexer states. */
  function StackAfter(m: Internals, row: Row, stack: seq<(nat, nat)>): seq<(nat, nat)>
    requires |row| >= TRANSITIONS && (Pops(m, row) ==> stack != [])
  {
    if Pops(m, row) then stack[..|stack| - 1]
    else if m.flags.recursive && row[PUSH_DFA] != NPOS then stack + [(row[PUSH_DFA], row[ID])]
    else stack
  }

  /**
   The lexer state after a match: where the stack says, or where the row says. The empty token of a
   start row stays.
   */
  function StateAfter(m: Internals, row: Row, r: Results, initial: bool): nat
    requires |row| >= TRANSITIONS && (Pops(m, row) ==> r.stack != [])
  {
    if !m.flags.multi then r.state
    else if Pops(m, row) then r.stack[|r.stack| - 1].0
    else if initial then r.state
    else row[NEXT_DFA]
  }

  /** Whether a line begins at a place. */
  function BolAt(m: Internals, input: seq<nat>, r: Results, j: nat): bool
    requires j <= |input|
  {
    if m.flags.bol && j > r.end then input[j - 1] == NEWLINE else r.bol
  }

  /** What a caller sees of the longest match. */
  ghost function Matched(m: Internals, input: seq<nat>, r: Results, end: nat): Results
    requires m.WellFormed() && m.Has(r.state) && r.end <= |input| && Longest(m, input, r, end)
    requires Pops(m, RowFound(m, r.state, TokenAt(m, input, r, end))) ==> r.stack != []
  {
    var f := TokenAt(m, input, r, end);
    var row := RowFound(m, r.state, f);
    r.(end := end, state := StateAfter(m, row, r, f.Initial?), stack := StackAfter(m, row, r.stack),
       bol := BolAt(m, input, r, end))
  }

  /** The matcher goes on behind a match that is skipped, or that says the input has ended when it has not. */
  ghost predicate SaysEnd(m: Internals, row: Row, stack: seq<(nat, nat)>)
    requires |row| >= TRANSITIONS
  {
    row[ID] == m.eoi || (Pops(m, row) && stack != [] && stack[|stack| - 1].1 == m.eoi)
  }

  /** One turn of the matcher: it is stuck on an empty stack, goes on, or reports. */
  datatype Turn = Stops | Goes(next: Results) | Reports(out: Results)

  ghost predicate Turns(m: Internals, input: seq<nat>, r: Results, t: Turn)
    requires m.WellFormed() && r.end <= |input|
  {
    if r.end == |input| then t == Reports(r.(id := m.eoi, userId := NPOS))
    else if !m.Has(r.state) then t == Stops
    else if NoToken(m, input, r, r.end, |input|) then
      t == Reports(r.(start := r.end, end := if m.flags.advance then r.end + 1 else r.end,
                      bol := input[r.end] == NEWLINE, id := NPOS, userId := NPOS))
    else exists end :: Longest(m, input, r, end) && TurnsAt(m, input, r, end, t)
  }

  ghost predicate TurnsAt(m: Internals, input: seq<nat>, r: Results, end: nat, t: Turn)
    requires m.WellFormed() && m.Has(r.state) && r.end <= |input| && Longest(m, input, r, end)
  {
    var row := RowFound(m, r.state, TokenAt(m, input, r, end));
    if Pops(m, row) && r.stack == [] then t == Stops
    else
      var out := Matched(m, input, r, end);
      if row[ID] == SKIP then t == Goes(out.(start := end))
      else if SaysEnd(m, row, out.stack) then t == Goes(out)
      else t == Reports(out.(id := row[ID], userId := row[USER_ID]))
  }

  // ---------------------------------------------------------------------------------------------
  // The scan in progress

  function Enter(r: Results): Config {
    Entering(r, r.end, r.end)
  }

  /** What was recorded is what was found at a place. */
  ghost predicate Recalls(m: Internals, input: seq<nat>, r: Results, look: Look, f: Found, j: nat)
    requires m.WellFormed() && m.Has(r.state) && j <= |input|
    requires f != Nothing && (f.Recorded? ==> IsRow(m, r.state, f.row))
  {
    var row := RowFound(m, r.state, f);
    && look.endState && look.id == row[ID] && look.uid == row[USER_ID]
    && look.pop == PopBit(row[END_STATE]) && look.pushDfa == row[PUSH_DFA]
    && (m.flags.multi ==> look.startState == if f.Initial? then r.state else row[NEXT_DFA])
    && (m.flags.bol ==> look.endBol == BolAt(m, input, r, j))
  }

  /** The last token up to a place was recorded, if there was one. */
  ghost predicate Seen(m: Internals, input: seq<nat>, r: Results, upTo: nat, endToken: nat, look: Look)
    requires m.WellFormed() && m.Has(r.state) && r.end <= upTo <= |input|
  {
    if look.endState then
      && r.end <= endToken <= upTo && TokenAt(m, input, r, endToken) != Nothing
      && Recalls(m, input, r, look, TokenAt(m, input, r, endToken), endToken)
      && NoToken(m, input, r, endToken + 1, upTo)
    else endToken == r.end && NoToken(m, input, r, r.end, upTo)
  }

  /** The last token before a place was recorded, if there was one. */
  ghost predicate SeenBefore(m: Internals, input: seq<nat>, r: Results, curr: nat, endToken: nat, look: Look)
    requires m.WellFormed() && m.Has(r.state) && r.end <= curr <= |input|
  {
    if curr == r.end then !look.endState && endToken == r.end else Seen(m, input, r, curr - 1, endToken, look)
  }

  /** The end-of-line entries followed so far at a place, with what was found on the way. */
  ghost predicate Following(m: Internals, input: seq<nat>, r: Results, look: Look, curr: nat, best: Found, fuel: nat)
    requires m.WellFormed() && m.Has(r.state) && r.end <= curr <= |input| && LegalLook(m, look) && look.dfa == r.state
  {
    var d := r.state;
    var q := Arrive(m, d, StartRow(m, r), input, r.end, curr);
    && q != 0
    && (best.Recorded? ==> IsRow(m, d, best.row))
    && if curr < |input| && input[curr] == NEWLINE then
         && Settle(m, d, q, FoundOnArrival(m, r, curr, q)) == EolRun(m, d, look.row, best, fuel)
         && EolEnds(m, d, look.row, fuel)
       else look.row == q && best == FoundOnArrival(m, r, curr, q)
  }

  ghost predicate Scans(m: Internals, input: seq<nat>, r: Results, look: Look, curr: nat, endToken: nat,
                        best: Found, fuel: nat)
    requires m.WellFormed() && m.Has(r.state) && r.end <= |input|
  {
    && r.end <= curr <= |input| && LegalLook(m, look) && look.dfa == r.state && look.eolState != NPOS
    && (m.flags.bol ==> look.bol == BolAt(m, input, r, curr))
    && Following(m, input, r, look, curr, best, fuel)
    && if best == Nothing then SeenBefore(m, input, r, curr, endToken, look)
       else endToken == curr && Recalls(m, input, r, look, best, curr)
  }

  /** The scan has ended; all that may be left to do is to follow an end-of-line entry at the end of the input. */
  ghost predicate Scanned(m: Internals, input: seq<nat>, r: Results, look: Look, curr: nat, endToken: nat)
    requires m.WellFormed() && m.Has(r.state) && r.end <= |input|
  {
    && LegalLook(m, look) && look.dfa == r.state
    && var (lu, token) := CheckEol(m, input, look, curr, endToken);
       Seen(m, input, r, |input|, token, lu)
  }

  lemma ScanStarts(m: Internals, input: seq<nat>, r: Results) returns (best: Found)
    requires m.WellFormed() && m.Has(r.state) && r.end < |input| && EolsEnd(m)
    ensures Scans(m, input, r, Init(m, r), r.end, r.end, best, |m.dfa[r.state]|)
  {
    best := FoundOnArrival(m, r, r.end, StartRow(m, r));
  }

  /** An end-of-line entry is followed: nothing is read. */
  lemma EolTurn(m: Internals, input: seq<nat>, r: Results, look: Look, curr: nat, endToken: nat, best: Found, fuel: nat)
    requires m.WellFormed() && m.Has(r.state) && r.end <= |input|
    requires Scans(m, input, r, look, curr, endToken, best, fuel)
    requires curr < |input| && input[curr] == NEWLINE && EolOf(m, r.state, look.row) != 0
    ensures fuel > 0
    ensures var e := EolOf(m, r.state, look.row);
            var (look', token) := EndState(m, look.(row := e, eolState := e), endToken, curr);
            Scans(m, input, r, look', curr, token, Better(m, r.state, e, best), fuel - 1)
  {
  }

  /** When there is none to follow, what was found on the way is the token at this place. */
  lemma EolDone(m: Internals, input: seq<nat>, r: Results, look: Look, curr: nat, endToken: nat, best: Found, fuel: nat)
    requires m.WellFormed() && m.Has(r.state) && r.end <= |input|
    requires Scans(m, input, r, look, curr, endToken, best, fuel)
    requires curr < |input| && (input[curr] != NEWLINE || EolOf(m, r.state, look.row) == 0)
    ensures TokenAt(m, input, r, curr) == best
    ensures look.row == Depart(m, r.state, input, curr, Arrive(m, r.state, StartRow(m, r), input, r.end, curr))
    ensures Seen(m, input, r, curr, endToken, look)
  {
    EolFound(m, input, r, look, curr, best, fuel);
    if best == Nothing && curr > r.end {
      SeenOneMore(m, input, r, curr, endToken, look);
    }
  }

  lemma EolFound(m: Internals, input: seq<nat>, r: Results, look: Look, curr: nat, best: Found, fuel: nat)
    requires m.WellFormed() && m.Has(r.state) && r.end <= curr < |input| && LegalLook(m, look) && look.dfa == r.state
    requires Following(m, input, r, look, curr, best, fuel)
    requires input[curr] != NEWLINE || EolOf(m, r.state, look.row) == 0
    ensures TokenAt(m, input, r, curr) == best
    ensures var q := Arrive(m, r.state, StartRow(m, r), input, r.end, curr);
            q != 0 && look.row == Depart(m, r.state, input, curr, q)
  {
    var d := r.state;
    var q := Arrive(m, d, StartRow(m, r), input, r.end, curr);
    if input[curr] == NEWLINE {
      EolRunRow(m, d, q, Nothing, FoundOnArrival(m, r, curr, q), |m.dfa[d]|);
    }
  }

  lemma SeenOneMore(m: Internals, input: seq<nat>, r: Results, curr: nat, endToken: nat, look: Look)
    requires m.WellFormed() && m.Has(r.state) && r.end < curr <= |input|
    requires Seen(m, input, r, curr - 1, endToken, look) && TokenAt(m, input, r, curr) == Nothing
    ensures Seen(m, input, r, curr, endToken, look)
  {
  }

  lemma {:induction false} JamStays(m: Internals, d: nat, start: nat, input: seq<nat>, i: nat, j: nat, j': nat)
    requires m.WellFormed() && IsRow(m, d, start) && i <= j <= j' <= |input|
    requires Arrive(m, d, start, input, i, j) == 0
    ensures Arrive(m, d, start, input, i, j') == 0
    decreases j'
  {
    if j < j' { JamStays(m, d, start, input, i, j, j' - 1); }
  }

  /** What Seen says of a scan does not depend on the current row. */
  lemma SeenAlike(m: Internals, input: seq<nat>, r: Results, upTo: nat, endToken: nat, look: Look, look': Look)
    requires m.WellFormed() && m.Has(r.state) && r.end <= upTo <= |input|
    requires Seen(m, input, r, upTo, endToken, look)
    requires look' == look.(row := look'.row, eolState := look'.eolState, bol := look'.bol)
    ensures Seen(m, input, r, upTo, endToken, look')
  {
  }

  /** A character is read that leads nowhere. */
  lemma JamTurn(m: Internals, input: seq<nat>, r: Results, look: Look, curr: nat, endToken: nat, best: Found, fuel: nat)
    requires m.WellFormed() && m.Has(r.state) && r.end <= |input|
    requires Scans(m, input, r, look, curr, endToken, best, fuel)
    requires curr < |input| && (input[curr] != NEWLINE || EolOf(m, r.state, look.row) == 0)
    requires NextChar(m, r.state, look.row, Bytes(m.width, input[curr])).1 == 0
    ensures var (moved, _) := Moved(m, look, input[curr] == NEWLINE, Bytes(m.width, input[curr]));
            Scanned(m, input, r, moved, curr + 1, endToken)
  {
    EolDone(m, input, r, look, curr, endToken, best, fuel);
    var d, start := r.state, StartRow(m, r);
    assert Arrive(m, d, start, input, r.end, curr + 1) == 0;
    forall j | curr + 1 <= j <= |input| ensures TokenAt(m, input, r, j) == Nothing {
      JamStays(m, d, start, input, r.end, curr + 1, j);
    }
    assert Seen(m, input, r, |input|, endToken, look);
    var (moved, _) := Moved(m, look, input[curr] == NEWLINE, Bytes(m.width, input[curr]));
    SeenAlike(m, input, r, |input|, endToken, look, moved);
  }

  /** A character is read. */
  lemma CharTurn(m: Internals, input: seq<nat>, r: Results, look: Look, curr: nat, endToken: nat, best: Found,
                 fuel: nat)
    requires m.WellFormed() && m.Has(r.state) && r.end <= |input| && EolsEnd(m)
    requires Scans(m, input, r, look, curr, endToken, best, fuel)
    requires curr < |input| && (input[curr] != NEWLINE || EolOf(m, r.state, look.row) == 0)
    requires NextChar(m, r.state, look.row, Bytes(m.width, input[curr])).1 != 0
    ensures var (moved, state) := Moved(m, look, input[curr] == NEWLINE, Bytes(m.width, input[curr]));
            var (look', token) := EndState(m, moved, endToken, curr + 1);
            && IsRow(m, r.state, state)
            && Scans(m, input, r, look', curr + 1, token, Better(m, r.state, state, Nothing), |m.dfa[r.state]|)
  {
    EolDone(m, input, r, look, curr, endToken, best, fuel);
    var d, start := r.state, StartRow(m, r);
    var (moved, state) := Moved(m, look, input[curr] == NEWLINE, Bytes(m.width, input[curr]));
    assert Arrive(m, d, start, input, r.end, curr + 1) == state == moved.row;
    assert FoundOnArrival(m, r, curr + 1, state) == Better(m, d, state, Nothing);
    SeenAlike(m, input, r, curr, endToken, look, moved);
  }

  /** The end of the input is reached. */
  lemma EndTurn(m: Internals, input: seq<nat>, r: Results, look: Look, endToken: nat, best: Found, fuel: nat)
    requires m.WellFormed() && m.Has(r.state) && r.end < |input|
    requires Scans(m, input, r, look, |input|, endToken, best, fuel)
    ensures Scanned(m, input, r, look, |input|, endToken)
  {
    var d := r.state;
    var q := Arrive(m, d, StartRow(m, r), input, r.end, |input|);
    var (lu, token) := CheckEol(m, input, look, |input|, endToken);
    assert TokenAt(m, input, r, |input|) == if EolOf(m, d, q) != 0 then Better(m, d, EolOf(m, d, q), best) else best;
    if TokenAt(m, input, r, |input|) == Nothing {
      SeenAlike(m, input, r, |input| - 1, endToken, look, lu);
    }
  }

  // ---------------------------------------------------------------------------------------------
  // One turn

  /** The scan after so many steps. */
  ghost predicate ScanAfter(m: Internals, input: seq<nat>, r: Results, c: Config, n: nat, jammed: bool, look: Look,
                            curr: nat, endToken: nat, best: Found, fuel: nat)
    requires m.WellFormed() && m.Has(r.state) && r.end <= |input| && Legal(m, input, c)
  {
    if jammed then
      Scanned(m, input, r, look, curr, endToken) && Steps(m, input, c, n) == Leaving(r, look, curr, endToken)
    else
      && Scans(m, input, r, look, curr, endToken, best, fuel)
      && Steps(m, input, c, n) == Scanning(r, look, curr, endToken)
  }

  lemma ScanBegins(m: Internals, input: seq<nat>, r: Results, c: Config, n: nat) returns (best: Found)
    requires m.WellFormed() && m.Has(r.state) && r.end < |input| && EolsEnd(m)
    requires Legal(m, input, c) && Steps(m, input, c, n) == Enter(r)
    ensures ScanAfter(m, input, r, c, n + 1, false, Init(m, r), r.end, r.end, best, |m.dfa[r.state]|)
  {
    best := ScanStarts(m, input, r);
    StepsNext(m, input, c, n + 1);
  }

  lemma ScanEnds(m: Internals, input: seq<nat>, r: Results, c: Config, n: nat, look: Look, endToken: nat,
                 best: Found, fuel: nat)
    requires m.WellFormed() && m.Has(r.state) && r.end < |input| && Legal(m, input, c)
    requires ScanAfter(m, input, r, c, n, false, look, |input|, endToken, best, fuel)
    ensures ScanAfter(m, input, r, c, n + 1, true, look, |input|, endToken, best, fuel)
  {
    EndTurn(m, input, r, look, endToken, best, fuel);
    StepsNext(m, input, c, n + 1);
  }

  /** The scanning loop. */
  method Scan(m: Internals, input: seq<nat>, r: Results, ghost c: Config, ghost before: nat)
    returns (look: Look, curr: nat, endToken: nat, ghost n: nat)
    requires m.WellFormed() && m.Has(r.state) && r.end < |input| && EolsEnd(m)
    requires Legal(m, input, c) && Steps(m, input, c, before) == Enter(r)
    ensures ScanAfter(m, input, r, c, n, true, look, curr, endToken, Nothing, 0)
  {
    ghost var best := ScanBegins(m, input, r, c, before);
    ghost var fuel: nat := |m.dfa[r.state]|;
    look, curr, endToken, n := Init(m, r), r.end, r.end, before + 1;
    var jammed := false;
    while !jammed && curr != |input|
      invariant ScanAfter(m, input, r, c, n, jammed, look, curr, endToken, best, fuel)
      invariant !jammed ==> curr <= |input|
      decreases !jammed, |input| - curr, fuel
    {
      jammed, look, curr, endToken, best, fuel := ScanTurn(m, input, r, c, n, look, curr, endToken, best, fuel);
      n := n + 1;
    }
    if !jammed {
      ScanEnds(m, input, r, c, n, look, endToken, best, fuel);
      n := n + 1;
    }
  }

  /** What one turn of the loop makes of the scan. */
  ghost predicate Turned(m: Internals, input: seq<nat>, r: Results, look: Look, curr: nat, endToken: nat, fuel: nat,
                         jammed: bool, look': Look, curr': nat, token: nat, best': Found, fuel': nat)
    requires m.WellFormed() && m.Has(r.state) && r.end <= |input| && curr < |input|
    requires IsRow(m, look.dfa, look.row)
  {
    && curr <= curr' && (curr == curr' ==> !jammed && fuel' < fuel)
    && (if jammed then
          && ScanStep(m, input, r, look, curr, endToken) == Leaving(r, look', curr', token)
          && Scanned(m, input, r, look', curr', token)
        else
          && ScanStep(m, input, r, look, curr, endToken) == Scanning(r, look', curr', token)
          && Scans(m, input, r, look', curr', token, best', fuel'))
  }

  lemma TurnedByEol(m: Internals, input: seq<nat>, r: Results, look: Look, curr: nat, endToken: nat,
                    best: Found, fuel: nat)
    requires m.WellFormed() && m.Has(r.state) && r.end <= |input| && curr < |input|
    requires Scans(m, input, r, look, curr, endToken, best, fuel)
    requires input[curr] == NEWLINE && EolOf(m, r.state, look.row) != 0
    ensures fuel > 0
    ensures var e := EolOf(m, r.state, look.row);
            var (look', token) := EndState(m, look.(row := e, eolState := e), endToken, curr);
            Turned(m, input, r, look, curr, endToken, fuel, false, look', curr, token,
                   Better(m, r.state, e, best), fuel - 1)
  {
    EolTurn(m, input, r, look, curr, endToken, best, fuel);
  }

  lemma TurnedByJam(m: Internals, input: seq<nat>, r: Results, look: Look, curr: nat, endToken: nat,
                    best: Found, fuel: nat)
    requires m.WellFormed() && m.Has(r.state) && r.end <= |input| && curr < |input|
    requires Scans(m, input, r, look, curr, endToken, best, fuel)
    requires input[curr] != NEWLINE || EolOf(m, r.state, look.row) == 0
    requires NextChar(m, r.state, look.row, Bytes(m.width, input[curr])).1 == 0
    ensures var moved := Moved(m, look, input[curr] == NEWLINE, Bytes(m.width, input[curr])).0;
            Turned(m, input, r, look, curr, endToken, fuel, true, moved, curr + 1, endToken, best, fuel)
  {
    JamTurn(m, input, r, look, curr, endToken, best, fuel);
  }

  lemma TurnedByChar(m: Internals, input: seq<nat>, r: Results, look: Look, curr: nat, endToken: nat,
                     best: Found, fuel: nat)
    requires m.WellFormed() && m.Has(r.state) && r.end <= |input| && curr < |input| && EolsEnd(m)
    requires Scans(m, input, r, look, curr, endToken, best, fuel)
    requires input[curr] != NEWLINE || EolOf(m, r.state, look.row) == 0
    requires NextChar(m, r.state, look.row, Bytes(m.width, input[curr])).1 != 0
    ensures var (moved, state) := Moved(m, look, input[curr] == NEWLINE, Bytes(m.width, input[curr]));
            && IsRow(m, r.state, state) && IsRow(m, moved.dfa, moved.row)
            && var (look', token) := EndState(m, moved, endToken, curr + 1);
               Turned(m, input, r, look, curr, endToken, fuel, false, look', curr + 1, token,
                      Better(m, r.state, state, Nothing), |m.dfa[r.state]|)
  {
    CharTurn(m, input, r, look, curr, endToken, best, fuel);
  }

  /** A turn that reads a character. */
  method ReadTurn(m: Internals, input: seq<nat>, r: Results, look: Look, curr: nat, endToken: nat,
                  ghost best: Found, ghost fuel: nat)
    returns (jammed: bool, look': Look, curr': nat, token: nat, ghost best': Found, ghost fuel': nat)
    requires m.WellFormed() && m.Has(r.state) && r.end <= |input| && curr < |input| && EolsEnd(m)
    requires Scans(m, input, r, look, curr, endToken, best, fuel)
    requires input[curr] != NEWLINE || EolOf(m, r.state, look.row) == 0
    ensures Turned(m, input, r, look, curr, endToken, fuel, jammed, look', curr', token, best', fuel')
  {
    var (moved, state) := Moved(m, look, input[curr] == NEWLINE, Bytes(m.width, input[curr]));
    curr' := curr + 1;
    if state == 0 {
      TurnedByJam(m, input, r, look, curr, endToken, best, fuel);
      jammed, look', token, best', fuel' := true, moved, endToken, best, fuel;
    } else {
      TurnedByChar(m, input, r, look, curr, endToken, best, fuel);
      var (recorded, end) := EndState(m, moved, endToken, curr + 1);
      jammed, look', token := false, recorded, end;
      best', fuel' := Better(m, r.state, state, Nothing), |m.dfa[r.state]|;
    }
  }

  /** One turn of the loop: an end-of-line entry, or a character. */
  method ScanTurn(m: Internals, input: seq<nat>, r: Results, ghost c: Config, ghost n: nat, look: Look, curr: nat,
                  endToken: nat, ghost best: Found, ghost fuel: nat)
    returns (jammed: bool, look': Look, curr': nat, token: nat, ghost best': Found, ghost fuel': nat)
    requires m.WellFormed() && m.Has(r.state) && r.end <= |input| && EolsEnd(m) && Legal(m, input, c)
    requires ScanAfter(m, input, r, c, n, false, look, curr, endToken, best, fuel) && curr < |input|
    ensures curr <= curr' && (curr == curr' ==> !jammed && fuel' < fuel) && (!jammed ==> curr' <= |input|)
    ensures ScanAfter(m, input, r, c, n + 1, jammed, look', curr', token, best', fuel')
  {
    var eol := RowOf(m, look.dfa, look.row)[EOL];
    if m.flags.eol && eol != 0 && input[curr] == NEWLINE {
      TurnedByEol(m, input, r, look, curr, endToken, best, fuel);
      var (recorded, end) := EndState(m, look.(row := eol, eolState := eol), endToken, curr);
      jammed, look', curr', token := false, recorded, curr, end;
      best', fuel' := Better(m, r.state, eol, best), fuel - 1;
    } else {
      jammed, look', curr', token, best', fuel' := ReadTurn(m, input, r, look, curr, endToken, best, fuel);
    }
    TurnedIsStep(m, input, r, c, n, look, curr, endToken, best, fuel, jammed, look', curr', token, best', fuel');
  }

  lemma TurnedIsStep(m: Internals, input: seq<nat>, r: Results, c: Config, n: nat, look: Look, curr: nat, endToken: nat,
                     best: Found, fuel: nat, jammed: bool, look': Look, curr': nat, token: nat,
                     best': Found, fuel': nat)
    requires m.WellFormed() && m.Has(r.state) && r.end <= |input| && curr < |input| && Legal(m, input, c)
    requires ScanAfter(m, input, r, c, n, false, look, curr, endToken, best, fuel)
    requires Turned(m, input, r, look, curr, endToken, fuel, jammed, look', curr', token, best', fuel')
    ensures ScanAfter(m, input, r, c, n + 1, jammed, look', curr', token, best', fuel')
    ensures curr <= curr' && (curr == curr' ==> !jammed && fuel' < fuel) && (!jammed ==> curr' <= |input|)
  {
    StepsNext(m, input, c, n + 1);
  }

  /** The configuration that a turn comes to. */
  function ConfigOf(t: Turn): Config {
    match t
    case Stops => Stuck
    case Goes(next) => Enter(next)
    case Reports(out) => Finished(out)
  }

  /** Leaving the scanning loop makes the turn. */
  lemma LeaveTurn(m: Internals, input: seq<nat>, r: Results, look: Look, curr: nat, endToken: nat) returns (t: Turn)
    requires m.WellFormed() && m.Has(r.state) && r.end < |input| && Scanned(m, input, r, look, curr, endToken)
    ensures Turns(m, input, r, t) && Leave(m, input, r, look, curr, endToken) == ConfigOf(t)
    ensures t.Goes? ==> t.next.end <= |input|
  {
    var (lu, token) := CheckEol(m, input, look, curr, endToken);
    if lu.endState {
      assert Longest(m, input, r, token);
      LongestIsUnique(m, input, r, token);
      t := TurnOf(m, input, r, token);
      assert TurnsAt(m, input, r, token, t);
      LeaveMatch(m, input, r, look, curr, endToken, t);
    } else {
      t := Reports(r.(start := r.end, end := if m.flags.advance then r.end + 1 else r.end,
                      bol := input[r.end] == NEWLINE, id := NPOS, userId := NPOS));
    }
  }

  /** The turn that the longest match makes. */
  ghost function TurnOf(m: Internals, input: seq<nat>, r: Results, end: nat): (t: Turn)
    requires m.WellFormed() && m.Has(r.state) && r.end <= |input| && Longest(m, input, r, end)
    ensures TurnsAt(m, input, r, end, t)
  {
    var row := RowFound(m, r.state, TokenAt(m, input, r, end));
    if Pops(m, row) && r.stack == [] then Stops
    else
      var out := Matched(m, input, r, end);
      if row[ID] == SKIP then Goes(out.(start := end))
      else if SaysEnd(m, row, out.stack) then Goes(out)
      else Reports(out.(id := row[ID], userId := row[USER_ID]))
  }

  lemma LeaveMatch(m: Internals, input: seq<nat>, r: Results, look: Look, curr: nat, endToken: nat, t: Turn)
    requires m.WellFormed() && m.Has(r.state) && r.end < |input| && Scanned(m, input, r, look, curr, endToken)
    requires var (lu, token) := CheckEol(m, input, look, curr, endToken);
             lu.endState && Longest(m, input, r, token) && TurnsAt(m, input, r, token, t)
    ensures Leave(m, input, r, look, curr, endToken) == ConfigOf(t)
    ensures t.Goes? ==> t.next.end <= |input|
  {
    var (lu, token) := CheckEol(m, input, look, curr, endToken);
    var row := RowFound(m, r.state, TokenAt(m, input, r, token));
    assert lu.id == row[ID] && lu.uid == row[USER_ID] && lu.pushDfa == row[PUSH_DFA];
    assert lu.pop == PopBit(row[END_STATE]);
  }

  /** The turn from where a scan has ended. */
  method LeaveScan(m: Internals, input: seq<nat>, r: Results, look: Look, curr: nat, endToken: nat,
                   ghost c: Config, ghost n: nat)
    returns (t: Turn)
    requires m.WellFormed() && m.Has(r.state) && r.end < |input| && Legal(m, input, c)
    requires ScanAfter(m, input, r, c, n, true, look, curr, endToken, Nothing, 0)
    ensures Turns(m, input, r, t) && (t.Goes? ==> t.next.end <= |input|)
    ensures Steps(m, input, c, n + 1) == ConfigOf(t)
  {
    ghost var turn := LeaveTurn(m, input, r, look, curr, endToken);
    StepsNext(m, input, c, n + 1);
    t := match Leave(m, input, r, look, curr, endToken)
         case Entering(next, _, _) => Goes(next)
         case Finished(out) => Reports(out)
         case _ => Stops;
    assert t == turn;
  }

  /** One turn: a scan, or the end of the input. */
  method OneTurn(m: Internals, input: seq<nat>, r: Results, ghost c: Config, ghost before: nat)
    returns (t: Turn, ghost n: nat)
    requires m.WellFormed() && r.end <= |input| && EolsEnd(m)
    requires Legal(m, input, c) && Steps(m, input, c, before) == Enter(r)
    ensures Turns(m, input, r, t) && (t.Goes? ==> t.next.end <= |input|)
    ensures Steps(m, input, c, n) == ConfigOf(t)
  {
    if r.end == |input| || !m.Has(r.state) {
      n := before + 1;
      StepsNext(m, input, c, n);
      t := if r.end == |input| then Reports(r.(id := m.eoi, userId := NPOS)) else Stops;
    } else {
      var look, curr, endToken;
      look, curr, endToken, n := Scan(m, input, r, c, before);
      t := LeaveScan(m, input, r, look, curr, endToken, c, n);
      n := n + 1;
    }
  }

  // ---------------------------------------------------------------------------------------------
  // A call

  /** A match with this row is reported, and not gone on behind because of its id. */
  ghost predicate ReportedIfFound(m: Internals, d: nat, f: Found)
    requires m.WellFormed() && m.Has(d) && (f.Recorded? ==> IsRow(m, d, f.row))
  {
    f != Nothing ==> RowFound(m, d, f)[ID] != SKIP && RowFound(m, d, f)[ID] != m.eoi
  }

  ghost predicate EmptyAtRow(m: Internals, d: nat, start: nat)
    requires m.WellFormed() && IsRow(m, d, start)
  {
    var first := if AcceptingRow(m, d, 1) then Initial else Nothing;
    ReportedIfFound(m, d, first) && ReportedIfFound(m, d, Settle(m, d, start, first).1)
  }

  /** What the empty token can be is neither skipped nor said to be the end of the input. */
  ghost predicate EmptyIsReported(m: Internals)
    requires m.WellFormed()
  {
    forall d: nat, start: nat :: IsRow(m, d, start) && (start == 1 || (m.flags.bol && start == m.dfa[d][0][0])) ==>
      EmptyAtRow(m, d, start)
  }

  /** Going on means to have read something, or to have popped a lexer state. */
  lemma GoesShrinks(m: Internals, input: seq<nat>, r: Results, next: Results)
    requires m.WellFormed() && r.end <= |input| && EmptyIsReported(m) && Turns(m, input, r, Goes(next))
    ensures r.end <= next.end <= |input| && (next.end == r.end ==> |next.stack| < |r.stack|)
  {
    var end :| Longest(m, input, r, end) && TurnsAt(m, input, r, end, Goes(next));
    if end == r.end {
      assert EmptyAtRow(m, r.state, StartRow(m, r));
    }
  }

  /** The turns of a call: it goes on from one to the next. */
  ghost predicate Trail(m: Internals, input: seq<nat>, trail: seq<Results>)
    requires m.WellFormed()
  {
    && trail != []
    && (forall h :: 0 <= h < |trail| ==> trail[h].end <= |input|)
    && (forall h :: 0 <= h < |trail| - 1 ==> Turns(m, input, trail[h], Goes(trail[h + 1])))
  }

  /** A call ends with this turn. */
  ghost predicate Lexes(m: Internals, input: seq<nat>, res: Results, trail: seq<Results>, t: Turn)
    requires m.WellFormed()
  {
    && Trail(m, input, trail) && trail[0] == res.(start := res.end)
    && Turns(m, input, trail[|trail| - 1], t) && !t.Goes?
  }

  /**
   A call of the matcher, whatever its features: longest matches, one behind the other, as long as
   they are skipped or say that the input has ended; then the longest match, the report that there
   is none, or the end of the input. It is stuck exactly where a match pops an empty stack or the
   lexer state has no table.
   */
  method Next(m: Internals, input: seq<nat>, res: Results)
    returns (stuck: bool, out: Results, ghost trail: seq<Results>)
    requires m.WellFormed() && res.end <= |input| && EolsEnd(m) && EmptyIsReported(m)
    ensures Lexes(m, input, res, trail, if stuck then Stops else Reports(out))
    ensures exists n :: Steps(m, input, Call(res), n) == if stuck then Stuck else Finished(out)
  {
    trail := [res.(start := res.end)];
    ghost var n := 0;
    var t := Goes(res.(start := res.end));
    while t.Goes?
      invariant CallAt(m, input, res, trail, t, n)
      decreases t.Goes?, if t.Goes? then |input| - t.next.end else 0, if t.Goes? then |t.next.stack| else 0
    {
      t, n, trail := GoOn(m, input, res, trail, t.next, n);
    }
    stuck := t.Stops?;
    out := if t.Reports? then t.out else res;
    assert Steps(m, input, Call(res), n) == if stuck then Stuck else Finished(out);
  }

  /** A call goes on, or has ended. */
  ghost predicate CallAt(m: Internals, input: seq<nat>, res: Results, trail: seq<Results>, t: Turn, n: nat)
    requires m.WellFormed() && res.end <= |input|
  {
    if t.Goes? then CalledTo(m, input, res, trail, t.next, n)
    else Lexes(m, input, res, trail, t) && Steps(m, input, Call(res), n) == ConfigOf(t)
  }

  method GoOn(m: Internals, input: seq<nat>, res: Results, ghost trail: seq<Results>, r: Results, ghost n: nat)
    returns (t: Turn, ghost n': nat, ghost trail': seq<Results>)
    requires m.WellFormed() && res.end <= |input| && EolsEnd(m) && EmptyIsReported(m)
    requires CalledTo(m, input, res, trail, r, n)
    ensures CallAt(m, input, res, trail', t, n')
    ensures t.Goes? ==> r.end <= t.next.end <= |input| && (t.next.end == r.end ==> |t.next.stack| < |r.stack|)
  {
    t, n' := OneTurn(m, input, r, Call(res), n);
    CalledFurther(m, input, res, trail, r, n, t, n');
    trail' := if t.Goes? then trail + [t.next] else trail;
  }

  /** A call has come to these results after so many steps. */
  ghost predicate CalledTo(m: Internals, input: seq<nat>, res: Results, trail: seq<Results>, r: Results, n: nat)
    requires m.WellFormed() && res.end <= |input|
  {
    && r.end <= |input| && Trail(m, input, trail) && trail[0] == res.(start := res.end) && trail[|trail| - 1] == r
    && Steps(m, input, Call(res), n) == Enter(r)
  }

  lemma CalledFurther(m: Internals, input: seq<nat>, res: Results, trail: seq<Results>, r: Results, n: nat,
                      t: Turn, n': nat)
    requires m.WellFormed() && res.end <= |input| && EmptyIsReported(m) && CalledTo(m, input, res, trail, r, n)
    requires Turns(m, input, r, t) && Steps(m, input, Call(res), n') == ConfigOf(t)
    ensures t.Goes? ==>
              && CalledTo(m, input, res, trail + [t.next], t.next, n')
              && r.end <= t.next.end <= |input| && (t.next.end == r.end ==> |t.next.stack| < |r.stack|)
    ensures !t.Goes? ==> Lexes(m, input, res, trail, t)
  {
    if t.Goes? {
      GoesShrinks(m, input, r, t.next);
      TrailMore(m, input, trail, t.next);
    }
  }

  lemma TrailMore(m: Internals, input: seq<nat>, trail: seq<Results>, next: Results)
    requires m.WellFormed() && Trail(m, input, trail) && next.end <= |input|
    requires Turns(m, input, trail[|trail| - 1], Goes(next))
    ensures Trail(m, input, trail + [next])
  {
    var all := trail + [next];
    forall h | 0 <= h < |all| - 1 ensures Turns(m, input, all[h], Goes(all[h + 1])) {
      if h < |trail| - 1 { assert all[h] == trail[h] && all[h + 1] == trail[h + 1]; }
    }
  }

  // ---------------------------------------------------------------------------------------------
  // What follows

  /** What is to be skipped is never reported. */
  lemma NeverReportsSkip(m: Internals, input: seq<nat>, r: Results, out: Results)
    requires m.WellFormed() && r.end < |input| && Turns(m, input, r, Reports(out))
    ensures out.id != SKIP
  {
  }

  /** No token is skipped, and none stands for the end of the input. */
  ghost predicate PlainIds(m: Internals)
    requires m.WellFormed()
  {
    forall d: nat, row: nat :: IsRow(m, d, row) && AcceptingRow(m, d, row) ==>
      RowOf(m, d, row)[ID] != SKIP && RowOf(m, d, row)[ID] != m.eoi
  }

  /** Nothing on the stack was pushed by a token that stands for the end of the input. */
  ghost predicate PlainStack(m: Internals, r: Results) {
    forall e :: e in r.stack ==> e.1 != m.eoi
  }

  lemma PlainEmptyIsReported(m: Internals)
    requires m.WellFormed() && PlainIds(m)
    ensures EmptyIsReported(m)
  {
  }

  /** With plain tokens a call makes one turn, and the stack stays plain. */
  lemma PlainIsOneTurn(m: Internals, input: seq<nat>, res: Results, trail: seq<Results>, t: Turn)
    requires m.WellFormed() && PlainIds(m) && PlainStack(m, res) && Lexes(m, input, res, trail, t)
    ensures |trail| == 1 && Turns(m, input, res.(start := res.end), t)
    ensures t.Reports? ==> PlainStack(m, t.out)
  {
    if |trail| > 1 {
      PlainReports(m, input, trail[0], Goes(trail[1]));
      assert false;
    }
    PlainReports(m, input, trail[0], t);
  }

  lemma PlainReports(m: Internals, input: seq<nat>, r: Results, t: Turn)
    requires m.WellFormed() && PlainIds(m) && PlainStack(m, r) && r.end <= |input| && Turns(m, input, r, t)
    ensures !t.Goes? && (t.Reports? ==> PlainStack(m, t.out))
  {
    if r.end < |input| && m.Has(r.state) && !NoToken(m, input, r, r.end, |input|) {
      var end :| Longest(m, input, r, end) && TurnsAt(m, input, r, end, t);
      PlainMatch(m, input, r, end);
    }
  }

  lemma PlainMatch(m: Internals, input: seq<nat>, r: Results, end: nat)
    requires m.WellFormed() && m.Has(r.state) && r.end <= |input| && Longest(m, input, r, end) && PlainStack(m, r)
    requires RowFound(m, r.state, TokenAt(m, input, r, end))[ID] != m.eoi || PlainIds(m)
    ensures var row := RowFound(m, r.state, TokenAt(m, input, r, end));
            && (PlainIds(m) ==> row[ID] != SKIP)
            && ((Pops(m, row) && r.stack == []) ||
                (!SaysEnd(m, row, Matched(m, input, r, end).stack) && PlainStack(m, Matched(m, input, r, end))))
  {
    var f := TokenAt(m, input, r, end);
    assert AcceptingRow(m, r.state, if f.Initial? then 1 else f.row);
  }

  /** No token stands for the end of the input; some may be skipped. */
  ghost predicate NoEnds(m: Internals)
    requires m.WellFormed()
  {
    forall d: nat, row: nat :: IsRow(m, d, row) && AcceptingRow(m, d, row) ==> RowOf(m, d, row)[ID] != m.eoi
  }

  /** A match that is skipped: the next one starts where it ends. */
  ghost predicate Skipped(m: Internals, input: seq<nat>, r: Results, next: Results)
    requires m.WellFormed() && r.end <= |input|
  {
    && m.Has(r.state) && Longest(m, input, r, next.end)
    && RowFound(m, r.state, TokenAt(m, input, r, next.end))[ID] == SKIP
    && next.start == next.end
  }

  /**
   If no token stands for the end of the input, the input from where the last call ended to where the
   reported match starts splits into longest matches that are to be skipped.
   */
  lemma SkippedInput(m: Internals, input: seq<nat>, res: Results, trail: seq<Results>, out: Results)
    requires m.WellFormed() && NoEnds(m) && PlainStack(m, res) && Lexes(m, input, res, trail, Reports(out))
    ensures forall h :: 0 <= h < |trail| - 1 ==> Skipped(m, input, trail[h], trail[h + 1])
    ensures trail[0].end == res.end && out.start == trail[|trail| - 1].end
  {
    PlainTrail(m, input, trail, |trail| - 1);
    forall h: nat | h < |trail| - 1 ensures Skipped(m, input, trail[h], trail[h + 1]) {
      PlainTrail(m, input, trail, h);
      PlainHop(m, input, trail[h], trail[h + 1]);
    }
  }

  lemma PlainHop(m: Internals, input: seq<nat>, r: Results, next: Results)
    requires m.WellFormed() && NoEnds(m) && PlainStack(m, r) && r.end <= |input| && Turns(m, input, r, Goes(next))
    ensures Skipped(m, input, r, next) && PlainStack(m, next)
  {
    var end :| Longest(m, input, r, end) && TurnsAt(m, input, r, end, Goes(next));
    var f := TokenAt(m, input, r, end);
    assert AcceptingRow(m, r.state, if f.Initial? then 1 else f.row);
    PlainMatch(m, input, r, end);
  }

  lemma {:induction false} PlainTrail(m: Internals, input: seq<nat>, trail: seq<Results>, h: nat)
    requires m.WellFormed() && NoEnds(m) && Trail(m, input, trail) && h < |trail|
    requires PlainStack(m, trail[0]) && trail[0].start == trail[0].end
    ensures PlainStack(m, trail[h]) && trail[h].start == trail[h].end
  {
    if h > 0 {
      PlainTrail(m, input, trail, h - 1);
      assert Turns(m, input, trail[h - 1], Goes(trail[h - 1 + 1]));
      PlainHop(m, input, trail[h - 1], trail[h]);
    }
  }

  // ---------------------------------------------------------------------------------------------
  // Machines that go wrong

  /** The second row accepts, and pops a lexer state. */
  const POP_TABLE: Table := [
    [0, 0, 0, 0, 0, 0, 0, 0],
    [0, 0, 0, 0, 0, 0, 0, 2],
    [3, 5, 0, 0, 0, 0, 0, 0]]

  const POP_MACHINE := Internals(0, [seq(256, _ => TRANSITIONS)], [8], [POP_TABLE],
                                 Flags(false, false, true, true, true), 1)

  /** With nothing pushed before, the matcher is stuck on the one character it is given. */
  lemma PopMachineIsStuck()
    ensures POP_MACHINE.WellFormed() && EolsEnd(POP_MACHINE) && PlainIds(POP_MACHINE)
    ensures Steps(POP_MACHINE, [0], Call(FRESH_RESULTS), 4) == Stuck
  {
    var t := POP_TABLE;
    assert |t| == 3;
    forall r | 1 <= r < |t| ensures WellFormedRow(t[r], 8, |t|) {
    }
    var m, input, c := POP_MACHINE, [0], Call(FRESH_RESULTS);
    assert Bytes(1, 0) == [0];
    assert NextChar(m, 0, 1, [0]) == (2, 2);
    FourSteps(m, input, c);
  }

  /** The start row accepts the empty token, which is to be skipped. */
  const EMPTY_TABLE: Table := [
    [0, 0, 0, 0, 0, 0, 0, 0],
    [1, SKIP, 0, NPOS, 0, 0, 0, 0]]

  const EMPTY_MACHINE := Internals(0, [seq(256, _ => TRANSITIONS)], [8], [EMPTY_TABLE], PLAIN_FLAGS, 1)

  lemma EmptyMachineIsWellFormed()
    ensures EMPTY_MACHINE.WellFormed() && EolsEnd(EMPTY_MACHINE) && !EmptyIsReported(EMPTY_MACHINE)
  {
    var m, t := EMPTY_MACHINE, EMPTY_TABLE;
    assert |t| == 2;
    forall r | 1 <= r < |t| ensures WellFormedRow(t[r], 8, |t|) {
    }
    assert AcceptingRow(m, 0, 1) && RowFound(m, 0, Initial)[ID] == SKIP;
    assert !EmptyAtRow(m, 0, 1);
  }

  /** Skipping the empty token never ends. */
  lemma EmptySkipNeverEnds(n: nat)
    ensures EMPTY_MACHINE.WellFormed() && EolsEnd(EMPTY_MACHINE) && !EmptyIsReported(EMPTY_MACHINE)
    ensures !Steps(EMPTY_MACHINE, [0], Call(FRESH_RESULTS), n).Finished?
  {
    var c0, c1, c2 := EmptyPeriod();
    Periodic(EMPTY_MACHINE, [0], c0, c1, c2, n);
  }

  ghost predicate OneOf(c: Config, c0: Config, c1: Config, c2: Config) {
    c == c0 || c == c1 || c == c2
  }

  /** Three configurations that follow each other in a circle. */
  ghost predicate Circle(m: Internals, input: seq<nat>, c0: Config, c1: Config, c2: Config)
    requires m.WellFormed()
  {
    && Legal(m, input, c0) && Legal(m, input, c1) && Legal(m, input, c2)
    && c1 == Step(m, input, c0) && c2 == Step(m, input, c1) && c0 == Step(m, input, c2)
  }

  /** What comes back to where it was never leaves the circle. */
  lemma {:induction false} Periodic(m: Internals, input: seq<nat>, c0: Config, c1: Config, c2: Config, n: nat)
    requires m.WellFormed() && Circle(m, input, c0, c1, c2) && Legal(m, input, c0)
    ensures OneOf(Steps(m, input, c0, n), c0, c1, c2)
    decreases n
  {
    if n > 0 {
      Periodic(m, input, c0, c1, c2, n - 1);
      PeriodicStep(m, input, c0, c1, c2, n);
    }
  }

  lemma PeriodicStep(m: Internals, input: seq<nat>, c0: Config, c1: Config, c2: Config, n: nat)
    requires m.WellFormed() && Circle(m, input, c0, c1, c2) && Legal(m, input, c0) && n > 0
    requires OneOf(Steps(m, input, c0, n - 1), c0, c1, c2)
    ensures OneOf(Steps(m, input, c0, n), c0, c1, c2)
  {
    var c := Steps(m, input, c0, n - 1);
    StepsNext(m, input, c0, n);
    CircleStep(m, input, c0, c1, c2, c);
  }

  lemma CircleStep(m: Internals, input: seq<nat>, c0: Config, c1: Config, c2: Config, c: Config)
    requires m.WellFormed() && Circle(m, input, c0, c1, c2) && OneOf(c, c0, c1, c2)
    ensures Legal(m, input, c) && OneOf(Step(m, input, c), c0, c1, c2)
  {
  }

  /** After three steps the matcher is where it was. */
  lemma EmptyPeriod() returns (c0: Config, c1: Config, c2: Config)
    ensures EMPTY_MACHINE.WellFormed() && EolsEnd(EMPTY_MACHINE) && !EmptyIsReported(EMPTY_MACHINE)
    ensures Legal(EMPTY_MACHINE, [0], c0) && Legal(EMPTY_MACHINE, [0], c1) && Legal(EMPTY_MACHINE, [0], c2)
    ensures c0 == Call(FRESH_RESULTS) && !c0.Finished? && !c1.Finished? && !c2.Finished?
    ensures c1 == Step(EMPTY_MACHINE, [0], c0) && c2 == Step(EMPTY_MACHINE, [0], c1)
    ensures c0 == Step(EMPTY_MACHINE, [0], c2)
  {
    EmptyMachineIsWellFormed();
    var m, input := EMPTY_MACHINE, [0];
    c0 := Call(FRESH_RESULTS);
    c1 := Step(m, input, c0);
    c2 := Step(m, input, c1);
    assert Bytes(1, 0) == [0];
    assert NextChar(m, 0, 1, [0]) == (1, 0);
  }

  lemma ThreeSteps(m: Internals, input: seq<nat>, c: Config)
    requires m.WellFormed() && Legal(m, input, c)
    ensures var c1 := Step(m, input, c);
            && Legal(m, input, c1) && Steps(m, input, c, 0) == c && Steps(m, input, c, 1) == c1
            && var c2 := Step(m, input, c1);
               Legal(m, input, c2) && Steps(m, input, c, 2) == c2 && Steps(m, input, c, 3) == Step(m, input, c2)
  {
    StepLegal(m, input, c);
    StepsNext(m, input, c, 1);
    StepsNext(m, input, c, 2);
    StepsNext(m, input, c, 3);
  }

  /** The end-of-line entry of the start row leads to that row again. */
  const CIRCLE_TABLE: Table := [
    [0, 0, 0, 0, 0, 0, 0, 0],
    [0, 0, 0, 0, 0, 1, 0, 0]]

  const CIRCLE_MACHINE := Internals(0, [seq(256, _ => TRANSITIONS)], [8], [CIRCLE_TABLE],
                                    Flags(false, true, false, false, true), 1)

  lemma CircleMachineIsWellFormed()
    ensures CIRCLE_MACHINE.WellFormed() && EmptyIsReported(CIRCLE_MACHINE) && !EolsEnd(CIRCLE_MACHINE)
  {
    var m, t := CIRCLE_MACHINE, CIRCLE_TABLE;
    assert |t| == 2;
    forall r | 1 <= r < |t| ensures WellFormedRow(t[r], 8, |t|) {
    }
    assert IsRow(m, 0, 1) && EolOf(m, 0, 1) == 1;
    assert !EolEnds(m, 0, 1, 0) && !EolEnds(m, 0, 1, 1) && !EolEnds(m, 0, 1, 2);
  }

  /** Following end-of-line entries in a circle never ends. */
  lemma {:induction false} EolCircleNeverEnds(n: nat)
    ensures CIRCLE_MACHINE.WellFormed() && EmptyIsReported(CIRCLE_MACHINE) && !EolsEnd(CIRCLE_MACHINE)
    ensures var c := Steps(CIRCLE_MACHINE, [NEWLINE], Call(FRESH_RESULTS), n);
            !c.Finished? && (n >= 2 ==> c == Steps(CIRCLE_MACHINE, [NEWLINE], Call(FRESH_RESULTS), 2))
    decreases n
  {
    CircleMachineIsWellFormed();
    var m, input, c := CIRCLE_MACHINE, [NEWLINE], Call(FRESH_RESULTS);
    ThreeSteps(m, input, c);
    if n > 2 {
      EolCircleNeverEnds(n - 1);
      StepsNext(m, input, c, n);
    }
  }
}
