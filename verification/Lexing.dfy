/**
 The matcher over the tables, as the steps it takes, and what minimising the tables does to it.

 The matcher can run for ever: on an end-of-line entry that leads to itself, or on an empty token
 that is skipped. So it is modelled by its steps, and two machines are compared step by step.
 */
module Lexing {
  import opened DfaTables

  const NEWLINE := 10
  const SKIP: nat := NPOS - 1
  const POP_DFA_BIT := 2

  /** The compile-time features of the matcher. */
  datatype Flags = Flags(bol: bool, eol: bool, multi: bool, recursive: bool, advance: bool)

  /**
   The tables of a lexer, one per lexer state, with the byte classes that index their rows.
   Characters are looked up byte by byte.
   */
  datatype Internals = Internals(eoi: nat, lookup: seq<seq<nat>>, alphabet: seq<nat>, dfa: seq<Table>,
                                 flags: Flags, width: nat) {

    /** A lexer state without rules has an empty table. */
    ghost predicate WellFormed() {
      && |lookup| == |alphabet| == |dfa|
      && forall d :: 0 <= d < |dfa| ==>
           if alphabet[d] == 0 then dfa[d] == []
           else
             && DfaTables.WellFormed(dfa[d], alphabet[d])
             && |lookup[d]| == 256
             && forall b :: 0 <= b < 256 ==> DEAD <= lookup[d][b] < alphabet[d]
    }

    /** A lexer state to match in: its table has a start row. */
    predicate Has(d: nat) {
      d < |dfa| && |dfa[d]| > 1
    }

    /** Some byte belongs to no character class, and leads through the dead column. */
    ghost predicate ReadsDead(d: nat)
      requires d < |lookup|
    {
      DEAD in lookup[d]
    }
  }

  /** What a caller sees of a match, and hands back for the next one. */
  datatype Results = Results(id: nat, userId: nat, start: nat, end: nat, bol: bool, state: nat, stack: seq<(nat, nat)>)

  /** The scan in progress: the current row, and what the last accepting row said. */
  datatype Look = Look(dfa: nat, row: nat, endState: bool, id: nat, uid: nat, bol: bool, endBol: bool,
                       eolState: nat, startState: nat, pop: bool, pushDfa: nat)

  datatype Config =
    | Entering(res: Results, curr: nat, endToken: nat)
    | Scanning(res: Results, look: Look, curr: nat, endToken: nat)
    | Leaving(res: Results, look: Look, curr: nat, endToken: nat)
    | Finished(res: Results)
    | Stuck

  type Byte = b: nat | b < 256

  function Bytes(width: nat, ch: nat): (r: seq<Byte>)
    ensures r != []
  {
    if width <= 1 then [ch % 256]
    else if width == 2 then [(ch / 256) % 256, ch % 256]
    else [(ch / 65536) % 256, (ch / 256) % 256, ch % 256]
  }

  function RowOf(m: Internals, d: nat, row: nat): Row
    requires m.WellFormed() && m.Has(d) && 1 <= row < |m.dfa[d]|
    ensures |RowOf(m, d, row)| == m.alphabet[d] >= TRANSITIONS
    ensures RowOf(m, d, row)[EOL] < |m.dfa[d]|
  {
    assert WellFormedRow(m.dfa[d][row], m.alphabet[d], |m.dfa[d]|);
    m.dfa[d][row]
  }

  /** Whether the pop bit of an end-state cell is set. */
  function PopBit(cell: nat): bool {
    (cell / POP_DFA_BIT) % 2 == 1
  }

  function Init(m: Internals, res: Results): Look
    requires m.WellFormed() && m.Has(res.state)
  {
    var row := RowOf(m, res.state, 1);
    var first := Look(res.state, 1, row[END_STATE] != 0, row[ID], row[USER_ID], res.bol, res.bol, 0, res.state,
                      PopBit(row[END_STATE]), row[PUSH_DFA]);
    var bolState := m.dfa[res.state][0][0];
    if m.flags.bol && res.bol && bolState != 0 then first.(row := bolState) else first
  }

  /** Follows the bytes of one character; the state is 0 when one of them leads nowhere. */
  function NextChar(m: Internals, d: nat, row: nat, bytes: seq<Byte>): (r: (nat, nat))
    requires m.WellFormed() && m.Has(d) && 1 <= row < |m.dfa[d]| && bytes != []
    ensures 1 <= r.0 < |m.dfa[d]| && (r.1 != 0 ==> r.1 == r.0)
    decreases |bytes|
  {
    assert WellFormedRow(m.dfa[d][row], m.alphabet[d], |m.dfa[d]|);
    var state := RowOf(m, d, row)[m.lookup[d][bytes[0]]];
    if state == 0 then (row, 0)
    else if |bytes| == 1 then (state, state)
    else NextChar(m, d, state, bytes[1..])
  }

  /** Records an accepting row. */
  function EndState(m: Internals, look: Look, endToken: nat, curr: nat): (Look, nat)
    requires m.WellFormed() && m.Has(look.dfa) && 1 <= look.row < |m.dfa[look.dfa]|
  {
    var row := RowOf(m, look.dfa, look.row);
    if row[END_STATE] == 0 then (look, endToken) else
      (look.(endState := true, endBol := look.bol, id := row[ID], uid := row[USER_ID],
             pop := PopBit(row[END_STATE]), pushDfa := row[PUSH_DFA],
             startState := if m.flags.multi then row[NEXT_DFA] else look.startState), curr)
  }

  /** Follows one character, and notes what it means for lines. */
  function Moved(m: Internals, look: Look, newline: bool, bytes: seq<Byte>): (Look, nat)
    requires m.WellFormed() && m.Has(look.dfa) && 1 <= look.row < |m.dfa[look.dfa]| && bytes != []
  {
    var (at, state) := NextChar(m, look.dfa, look.row, bytes);
    (look.(row := at,
           bol := if m.flags.bol then newline else look.bol,
           eolState := if !m.flags.eol then look.eolState else if state == 0 then NPOS
                       else RowOf(m, look.dfa, look.row)[EOL]), state)
  }

  /** Reads one character. */
  function ScanChar(m: Internals, res: Results, look: Look, newline: bool, bytes: seq<Byte>, curr: nat,
                    endToken: nat): Config
    requires m.WellFormed() && m.Has(look.dfa) && 1 <= look.row < |m.dfa[look.dfa]| && bytes != []
  {
    var (moved, state) := Moved(m, look, newline, bytes);
    if state == 0 then Leaving(res, moved, curr + 1, endToken)
    else
      var (look', token) := EndState(m, moved, endToken, curr + 1);
      Scanning(res, look', curr + 1, token)
  }

  /** One turn of the scanning loop: before a newline an end-of-line entry is taken instead of the character. */
  function ScanStep(m: Internals, input: seq<nat>, res: Results, look: Look, curr: nat, endToken: nat): Config
    requires m.WellFormed() && m.Has(look.dfa) && 1 <= look.row < |m.dfa[look.dfa]| && curr < |input|
  {
    var eol := RowOf(m, look.dfa, look.row)[EOL];
    if m.flags.eol && eol != 0 && input[curr] == NEWLINE then
      var (look', token) := EndState(m, look.(row := eol, eolState := eol), endToken, curr);
      Scanning(res, look', curr, token)
    else ScanChar(m, res, look, input[curr] == NEWLINE, Bytes(m.width, input[curr]), curr, endToken)
  }

  /** The end-of-line entry may also apply at the end of the input. */
  function CheckEol(m: Internals, input: seq<nat>, look: Look, curr: nat, endToken: nat): (Look, nat)
    requires m.WellFormed() && m.Has(look.dfa) && 1 <= look.row < |m.dfa[look.dfa]|
  {
    if !m.flags.eol || look.eolState == NPOS || curr != |input| then (look, endToken) else
      var eol := RowOf(m, look.dfa, look.row)[EOL];
      if eol == 0 then (look.(eolState := 0), endToken)
      else EndState(m, look.(row := eol, eolState := eol), endToken, curr)
  }

  function Leave(m: Internals, input: seq<nat>, res: Results, look: Look, curr: nat, endToken: nat): Config
    requires m.WellFormed() && m.Has(look.dfa) && 1 <= look.row < |m.dfa[look.dfa]|
  {
    var (lu, token) := CheckEol(m, input, look, curr, endToken);
    if lu.endState then
      if m.flags.recursive && lu.pop && res.stack == [] then Stuck else
      var stack :=
        if !m.flags.recursive then res.stack
        else if lu.pop then res.stack[..|res.stack| - 1]
        else if lu.pushDfa != NPOS then res.stack + [(lu.pushDfa, lu.id)]
        else res.stack;
      var startState := if m.flags.recursive && lu.pop then res.stack[|res.stack| - 1].0 else lu.startState;
      var res' := res.(stack := stack, end := token,
                       state := if m.flags.multi then startState else res.state,
                       bol := if m.flags.bol then lu.endBol else res.bol);
      var ended := lu.id == m.eoi || (m.flags.recursive && lu.pop && stack != [] && stack[|stack| - 1].1 == m.eoi);
      if lu.id == SKIP then Entering(res'.(start := token), token, token)
      else if ended then Entering(res', token, token)
      else Finished(res'.(id := lu.id, userId := lu.uid))
    else if token >= |input| then Stuck
    else
      Finished(res.(end := if m.flags.advance then token + 1 else token, bol := input[token] == NEWLINE,
                    start := token, id := NPOS, userId := NPOS))
  }

  /** A configuration the matcher can work on. */
  ghost predicate Legal(m: Internals, input: seq<nat>, c: Config) {
    match c
    case Entering(_, curr, token) => curr <= |input|
    case Scanning(_, look, curr, token) => LegalLook(m, look) && curr <= |input|
    case Leaving(_, look, curr, token) => LegalLook(m, look) && curr <= |input|
    case Finished(_) => true
    case Stuck => true
  }

  function Step(m: Internals, input: seq<nat>, c: Config): Config
    requires m.WellFormed() && Legal(m, input, c)
  {
    match c
    case Entering(res, curr, token) =>
      if curr == |input| then Finished(res.(id := m.eoi, userId := NPOS))
      else if !m.Has(res.state) then Stuck
      else Scanning(res, Init(m, res), curr, token)
    case Scanning(res, look, curr, token) =>
      if curr == |input| then Leaving(res, look, curr, token)
      else ScanStep(m, input, res, look, curr, token)
    case Leaving(res, look, curr, token) =>
      var c' := Leave(m, input, res, look, curr, token);
      if c'.Entering? && c'.curr > |input| then Stuck else c'
    case Finished(_) => c
    case Stuck => Stuck
  }

  lemma StepLegal(m: Internals, input: seq<nat>, c: Config)
    requires m.WellFormed() && Legal(m, input, c)
    ensures Legal(m, input, Step(m, input, c))
  {
  }

  function Steps(m: Internals, input: seq<nat>, c: Config, n: nat): (r: Config)
    requires m.WellFormed() && Legal(m, input, c)
    ensures Legal(m, input, r)
  {
    if n == 0 then c else
      StepLegal(m, input, Steps(m, input, c, n - 1));
      Step(m, input, Steps(m, input, c, n - 1))
  }

  /** Where a call of the matcher starts. */
  function Call(res: Results): Config {
    Entering(res.(start := res.end), res.end, res.end)
  }

  // ---------------------------------------------------------------------------------------------
  // Minimised tables lex alike

  /** One machine's tables are images of the other's, as far as they are read; everything else is the same. */
  ghost predicate Minimised(m: Internals, m': Internals, fs: seq<seq<nat>>)
    requires m.WellFormed() && m'.WellFormed()
  {
    && m' == m.(dfa := m'.dfa) && |fs| == |m.dfa| == |m'.dfa|
    && forall d :: 0 <= d < |m.dfa| ==> MinimisedState(m, m', d, fs[d])
  }

  ghost predicate MinimisedState(m: Internals, m': Internals, d: nat, f: seq<nat>)
    requires m.WellFormed() && m'.WellFormed() && m' == m.(dfa := m'.dfa) && d < |m.dfa|
  {
    if m.alphabet[d] == 0 then f == [] else Image(m.dfa[d], m'.dfa[d], m.alphabet[d], f, m.ReadsDead(d))
  }

  function RenameLook(fs: seq<seq<nat>>, look: Look): Look
    requires look.dfa < |fs| && look.row < |fs[look.dfa]|
    requires look.eolState == NPOS || look.eolState < |fs[look.dfa]|
  {
    look.(row := fs[look.dfa][look.row],
          eolState := if look.eolState == NPOS then NPOS else fs[look.dfa][look.eolState])
  }

  function Rename(m: Internals, input: seq<nat>, fs: seq<seq<nat>>, c: Config): Config
    requires Legal(m, input, c) && |fs| == |m.dfa| && forall d :: 0 <= d < |fs| ==> |fs[d]| == |m.dfa[d]|
  {
    match c
    case Scanning(res, look, curr, token) => Scanning(res, RenameLook(fs, look), curr, token)
    case Leaving(res, look, curr, token) => Leaving(res, RenameLook(fs, look), curr, token)
    case _ => c
  }

  /** Corresponding rows hold the same data and corresponding references. */
  lemma RowsCorrespond(m: Internals, m': Internals, fs: seq<seq<nat>>, d: nat, row: nat)
    requires m.WellFormed() && m'.WellFormed() && Minimised(m, m', fs)
    requires m.Has(d) && 1 <= row < |m.dfa[d]|
    ensures |fs[d]| == |m.dfa[d]| && 1 <= fs[d][row] < |m'.dfa[d]|
    ensures RowImage(RowOf(m, d, row), RowOf(m', d, fs[d][row]), fs[d], m.ReadsDead(d))
  {
    assert MinimisedState(m, m', d, fs[d]);
  }

  lemma NumberNonZero(m: Internals, m': Internals, fs: seq<seq<nat>>, d: nat, state: nat)
    requires m.WellFormed() && m'.WellFormed() && Minimised(m, m', fs)
    requires m.Has(d) && state < |m.dfa[d]|
    ensures |fs[d]| == |m.dfa[d]| && fs[d][state] < |m'.dfa[d]| && (fs[d][state] == 0 <==> state == 0) && fs[d][1] == 1
    ensures fs[d][state] != NPOS
  {
    assert MinimisedState(m, m', d, fs[d]);
  }

  /** The cells before the transitions, one by one. */
  lemma CellsCorrespond(m: Internals, m': Internals, fs: seq<seq<nat>>, d: nat, row: nat)
    requires m.WellFormed() && m'.WellFormed() && Minimised(m, m', fs)
    requires m.Has(d) && 1 <= row < |m.dfa[d]|
    ensures |fs[d]| == |m.dfa[d]| && 1 <= fs[d][row] < |m'.dfa[d]| && fs[d][row] != NPOS
    ensures var r, r' := RowOf(m, d, row), RowOf(m', d, fs[d][row]);
            && r'[END_STATE] == r[END_STATE] && r'[ID] == r[ID] && r'[USER_ID] == r[USER_ID]
            && r'[PUSH_DFA] == r[PUSH_DFA] && r'[NEXT_DFA] == r[NEXT_DFA]
            && r'[EOL] == fs[d][r[EOL]] && (r'[EOL] == 0 <==> r[EOL] == 0) && r'[EOL] != NPOS
  {
    RowsCorrespond(m, m', fs, d, row);
    NumberNonZero(m, m', fs, d, row);
    NumberNonZero(m, m', fs, d, RowOf(m, d, row)[EOL]);
  }

  lemma {:induction false} NextCharCorresponds(m: Internals, m': Internals, fs: seq<seq<nat>>, d: nat, row: nat,
                                               bytes: seq<Byte>)
    requires m.WellFormed() && m'.WellFormed() && Minimised(m, m', fs)
    requires m.Has(d) && 1 <= row < |m.dfa[d]| && bytes != []
    ensures |fs[d]| == |m.dfa[d]| && 1 <= fs[d][row] < |m'.dfa[d]|
    ensures var r, r' := NextChar(m, d, row, bytes), NextChar(m', d, fs[d][row], bytes);
            r'.0 == fs[d][r.0] && (r.1 == 0 <==> r'.1 == 0)
    decreases |bytes|
  {
    RowsCorrespond(m, m', fs, d, row);
    var state := RowOf(m, d, row)[m.lookup[d][bytes[0]]];
    assert WellFormedRow(m.dfa[d][row], m.alphabet[d], |m.dfa[d]|);
    NumberNonZero(m, m', fs, d, state);
    assert RowOf(m', d, fs[d][row])[m'.lookup[d][bytes[0]]] == fs[d][state];
    if state != 0 && |bytes| > 1 {
      NextCharCorresponds(m, m', fs, d, state, bytes[1..]);
    }
  }

  /** A scan in progress that has its rows inside its table. */
  ghost predicate LegalLook(m: Internals, look: Look) {
    m.Has(look.dfa) && 1 <= look.row < |m.dfa[look.dfa]| && (look.eolState == NPOS || look.eolState < |m.dfa[look.dfa]|)
  }

  /** Two scans in progress correspond. */
  ghost predicate Alike(m: Internals, fs: seq<seq<nat>>, look: Look, look': Look)
    requires LegalLook(m, look) && |fs| == |m.dfa| && |fs[look.dfa]| == |m.dfa[look.dfa]|
  {
    look' == RenameLook(fs, look)
  }

  lemma EndStateCorresponds(m: Internals, m': Internals, fs: seq<seq<nat>>, look: Look, endToken: nat, curr: nat)
    requires m.WellFormed() && m'.WellFormed() && Minimised(m, m', fs) && LegalLook(m, look)
    ensures |fs[look.dfa]| == |m.dfa[look.dfa]| && 1 <= fs[look.dfa][look.row] < |m'.dfa[look.dfa]|
    ensures var r, r' := EndState(m, look, endToken, curr), EndState(m', RenameLook(fs, look), endToken, curr);
            && LegalLook(m, r.0) && r.0.dfa == look.dfa
            && r'.1 == r.1 && Alike(m, fs, r.0, r'.0)
  {
    CellsCorrespond(m, m', fs, look.dfa, look.row);
  }

  /** Two configurations of the scanning loop correspond. */
  ghost predicate ScansAlike(m: Internals, fs: seq<seq<nat>>, c: Config, c': Config, d: nat, most: nat)
    requires m.Has(d) && |fs| == |m.dfa| && |fs[d]| == |m.dfa[d]|
  {
    && (c.Scanning? || c.Leaving?) && (c'.Scanning? || c'.Leaving?)
    && LegalLook(m, c.look) && c.look.dfa == d && c.curr <= most
    && Alike(m, fs, c.look, c'.look)
    && c.Scanning? == c'.Scanning? && c'.res == c.res && c'.curr == c.curr && c'.endToken == c.endToken
  }

  lemma ScanCharCorresponds(m: Internals, m': Internals, fs: seq<seq<nat>>, res: Results, look: Look,
                            newline: bool, bytes: seq<Byte>, curr: nat, endToken: nat)
    requires m.WellFormed() && m'.WellFormed() && Minimised(m, m', fs)
    requires LegalLook(m, look) && bytes != []
    ensures |fs[look.dfa]| == |m.dfa[look.dfa]| && 1 <= fs[look.dfa][look.row] < |m'.dfa[look.dfa]|
    ensures ScansAlike(m, fs, ScanChar(m, res, look, newline, bytes, curr, endToken),
                       ScanChar(m', res, RenameLook(fs, look), newline, bytes, curr, endToken), look.dfa, curr + 1)
  {
    MovedCorresponds(m, m', fs, look, newline, bytes);
    var (moved, state) := Moved(m, look, newline, bytes);
    if state != 0 { EndStateCorresponds(m, m', fs, moved, endToken, curr + 1); }
  }

  lemma MovedCorresponds(m: Internals, m': Internals, fs: seq<seq<nat>>, look: Look, newline: bool, bytes: seq<Byte>)
    requires m.WellFormed() && m'.WellFormed() && Minimised(m, m', fs)
    requires LegalLook(m, look) && bytes != []
    ensures |fs[look.dfa]| == |m.dfa[look.dfa]| && 1 <= fs[look.dfa][look.row] < |m'.dfa[look.dfa]|
    ensures var r, r' := Moved(m, look, newline, bytes), Moved(m', RenameLook(fs, look), newline, bytes);
            && LegalLook(m, r.0) && r.0.dfa == look.dfa
            && (r.1 == 0 <==> r'.1 == 0) && Alike(m, fs, r.0, r'.0)
  {
    CellsCorrespond(m, m', fs, look.dfa, look.row);
    NextCharCorresponds(m, m', fs, look.dfa, look.row, bytes);
    if look.eolState != NPOS { NumberNonZero(m, m', fs, look.dfa, look.eolState); }
  }

  lemma ScanCorresponds(m: Internals, m': Internals, fs: seq<seq<nat>>, input: seq<nat>, res: Results,
                        look: Look, curr: nat, endToken: nat)
    requires m.WellFormed() && m'.WellFormed() && Minimised(m, m', fs)
    requires LegalLook(m, look) && curr < |input|
    ensures |fs[look.dfa]| == |m.dfa[look.dfa]| && 1 <= fs[look.dfa][look.row] < |m'.dfa[look.dfa]|
    ensures ScansAlike(m, fs, ScanStep(m, input, res, look, curr, endToken),
                       ScanStep(m', input, res, RenameLook(fs, look), curr, endToken), look.dfa, |input|)
  {
    var eol := RowOf(m, look.dfa, look.row)[EOL];
    CellsCorrespond(m, m', fs, look.dfa, look.row);
    if m.flags.eol && eol != 0 && input[curr] == NEWLINE {
      EndStateCorresponds(m, m', fs, look.(row := eol, eolState := eol), endToken, curr);
    } else {
      ScanCharCorresponds(m, m', fs, res, look, input[curr] == NEWLINE, Bytes(m.width, input[curr]), curr, endToken);
    }
  }

  lemma CheckEolCorresponds(m: Internals, m': Internals, fs: seq<seq<nat>>, input: seq<nat>, look: Look,
                            curr: nat, endToken: nat)
    requires m.WellFormed() && m'.WellFormed() && Minimised(m, m', fs) && LegalLook(m, look)
    ensures |fs[look.dfa]| == |m.dfa[look.dfa]| && 1 <= fs[look.dfa][look.row] < |m'.dfa[look.dfa]|
    ensures var r, r' := CheckEol(m, input, look, curr, endToken),
            CheckEol(m', input, RenameLook(fs, look), curr, endToken);
            && LegalLook(m, r.0) && r.0.dfa == look.dfa && r'.1 == r.1 && Alike(m, fs, r.0, r'.0)
  {
    var d, row := look.dfa, RowOf(m, look.dfa, look.row);
    CellsCorrespond(m, m', fs, d, look.row);
    NumberNonZero(m, m', fs, d, 0);
    if look.eolState != NPOS { NumberNonZero(m, m', fs, d, look.eolState); }
    if row[EOL] != 0 {
      EndStateCorresponds(m, m', fs, look.(row := row[EOL], eolState := row[EOL]), endToken, curr);
    }
  }

  lemma LeaveCorresponds(m: Internals, m': Internals, fs: seq<seq<nat>>, input: seq<nat>, res: Results,
                         look: Look, curr: nat, endToken: nat)
    requires m.WellFormed() && m'.WellFormed() && Minimised(m, m', fs) && LegalLook(m, look)
    ensures |fs[look.dfa]| == |m.dfa[look.dfa]| && 1 <= fs[look.dfa][look.row] < |m'.dfa[look.dfa]|
    ensures Leave(m', input, res, RenameLook(fs, look), curr, endToken) == Leave(m, input, res, look, curr, endToken)
  {
    CheckEolCorresponds(m, m', fs, input, look, curr, endToken);
  }

  lemma InitCorresponds(m: Internals, m': Internals, fs: seq<seq<nat>>, res: Results)
    requires m.WellFormed() && m'.WellFormed() && Minimised(m, m', fs) && m.Has(res.state)
    ensures LegalLook(m, Init(m, res)) && Init(m, res).dfa == res.state
    ensures |fs[res.state]| == |m.dfa[res.state]|
    ensures Alike(m, fs, Init(m, res), Init(m', res))
  {
    var d := res.state;
    CellsCorrespond(m, m', fs, d, 1);
    NumberNonZero(m, m', fs, d, 0);
    NumberNonZero(m, m', fs, d, m.dfa[d][0][0]);
    assert MinimisedState(m, m', d, fs[d]);
  }

  /** One step of the minimised machine is one step of the original one, with the rows renumbered. */
  lemma StepCorresponds(m: Internals, m': Internals, fs: seq<seq<nat>>, input: seq<nat>, c: Config)
    requires m.WellFormed() && m'.WellFormed() && Minimised(m, m', fs)
    requires forall d :: 0 <= d < |fs| ==> |fs[d]| == |m.dfa[d]|
    requires Legal(m, input, c)
    ensures Legal(m', input, Rename(m, input, fs, c)) && Legal(m, input, Step(m, input, c))
    ensures Step(m', input, Rename(m, input, fs, c)) == Rename(m, input, fs, Step(m, input, c))
  {
    StepLegal(m, input, c);
    match c
    case Entering(res, curr, token) =>
      if curr < |input| && m.Has(res.state) { InitCorresponds(m, m', fs, res); }
    case Scanning(res, look, curr, token) =>
      NumberNonZero(m, m', fs, look.dfa, look.row);
      if look.eolState != NPOS { NumberNonZero(m, m', fs, look.dfa, look.eolState); }
      if curr < |input| { ScanCorresponds(m, m', fs, input, res, look, curr, token); }
    case Leaving(res, look, curr, token) =>
      NumberNonZero(m, m', fs, look.dfa, look.row);
      if look.eolState != NPOS { NumberNonZero(m, m', fs, look.dfa, look.eolState); }
      LeaveCorresponds(m, m', fs, input, res, look, curr, token);
    case Finished(_) =>
    case Stuck =>
  }

  /** So is any number of steps. */
  lemma StepsCorrespond(m: Internals, m': Internals, fs: seq<seq<nat>>, input: seq<nat>, c: Config, n: nat)
    requires m.WellFormed() && m'.WellFormed() && Minimised(m, m', fs)
    requires forall d :: 0 <= d < |fs| ==> |fs[d]| == |m.dfa[d]|
    requires Legal(m, input, c) && Legal(m', input, Rename(m, input, fs, c))
    ensures Steps(m', input, Rename(m, input, fs, c), n) == Rename(m, input, fs, Steps(m, input, c, n))
  {
    RunsCorrespond(m, m', fs, input, c, Rename(m, input, fs, c), n);
  }

  /** Two configurations correspond. */
  ghost predicate Renamed(m: Internals, m': Internals, fs: seq<seq<nat>>, input: seq<nat>, c: Config, c': Config)
    requires |fs| == |m.dfa| && forall d :: 0 <= d < |fs| ==> |fs[d]| == |m.dfa[d]|
  {
    Legal(m, input, c) && Legal(m', input, c') && c' == Rename(m, input, fs, c)
  }

  lemma RenamedStep(m: Internals, m': Internals, fs: seq<seq<nat>>, input: seq<nat>, c: Config, c': Config)
    requires m.WellFormed() && m'.WellFormed() && Minimised(m, m', fs)
    requires forall d :: 0 <= d < |fs| ==> |fs[d]| == |m.dfa[d]|
    requires Renamed(m, m', fs, input, c, c')
    ensures Renamed(m, m', fs, input, Step(m, input, c), Step(m', input, c'))
  {
    StepCorresponds(m, m', fs, input, c);
    StepLegal(m', input, c');
  }

  lemma {:induction false} RunsCorrespond(m: Internals, m': Internals, fs: seq<seq<nat>>, input: seq<nat>,
                                          c: Config, c': Config, n: nat)
    requires m.WellFormed() && m'.WellFormed() && Minimised(m, m', fs)
    requires forall d :: 0 <= d < |fs| ==> |fs[d]| == |m.dfa[d]|
    requires Renamed(m, m', fs, input, c, c')
    ensures Renamed(m, m', fs, input, Steps(m, input, c, n), Steps(m', input, c', n))
  {
    if n > 0 {
      RunsCorrespond(m, m', fs, input, c, c', n - 1);
      RenamedStep(m, m', fs, input, Steps(m, input, c, n - 1), Steps(m', input, c', n - 1));
      StepsNext(m, input, c, n);
      StepsNext(m', input, c', n);
    }
  }

  lemma StepsNext(m: Internals, input: seq<nat>, c: Config, n: nat)
    requires m.WellFormed() && Legal(m, input, c) && n > 0
    ensures Steps(m, input, c, n) == Step(m, input, Steps(m, input, c, n - 1))
  {
  }

  /**
   Minimising preserves lexing: on every input, from every call, after any number of steps, both
   machines have finished with the same results or neither has.
   */
  lemma MinimisedLexesAlike(m: Internals, m': Internals, fs: seq<seq<nat>>, input: seq<nat>, res: Results, n: nat)
    requires m.WellFormed() && m'.WellFormed() && Minimised(m, m', fs) && res.end <= |input|
    ensures Steps(m', input, Call(res), n).Finished? <==> Steps(m, input, Call(res), n).Finished?
    ensures Steps(m, input, Call(res), n).Finished? ==> Steps(m', input, Call(res), n) == Steps(m, input, Call(res), n)
    ensures Steps(m', input, Call(res), n) == Stuck <==> Steps(m, input, Call(res), n) == Stuck
  {
    forall d | 0 <= d < |fs| ensures |fs[d]| == |m.dfa[d]| {
      assert MinimisedState(m, m', d, fs[d]);
    }
    StepsCorrespond(m, m', fs, input, Call(res), n);
  }

  /** A whole tokenisation: each call hands its results to the next. */
  ghost predicate Emits(m: Internals, input: seq<nat>, res: Results, outs: seq<Results>)
    requires m.WellFormed()
    decreases |outs|
  {
    outs == [] ||
    (&& res.end <= |input|
     && (exists n :: Steps(m, input, Call(res), n) == Finished(outs[0]))
     && Emits(m, input, outs[0], outs[1..]))
  }

  /** Minimising preserves every tokenisation of every input, from every state. */
  lemma {:induction false} MinimisedEmitsAlike(m: Internals, m': Internals, fs: seq<seq<nat>>, input: seq<nat>,
                                               res: Results, outs: seq<Results>)
    requires m.WellFormed() && m'.WellFormed() && Minimised(m, m', fs)
    ensures Emits(m, input, res, outs) <==> Emits(m', input, res, outs)
    decreases |outs|
  {
    if outs != [] && res.end <= |input| {
      forall n: nat
        ensures Steps(m, input, Call(res), n) == Finished(outs[0]) <==>
                Steps(m', input, Call(res), n) == Finished(outs[0])
      {
        MinimisedLexesAlike(m, m', fs, input, res, n);
      }
      MinimisedEmitsAlike(m, m', fs, input, outs[0], outs[1..]);
    }
  }

  // ---------------------------------------------------------------------------------------------
  // Minimising a whole state machine

  class StateMachine {
    var internals: Internals

    constructor (internals: Internals)
      ensures this.internals == internals
    {
      this.internals := internals;
    }

    /**
     Minimises every table in place. No table keeps two equal rows, and those without keep their
     size. The machine is an image of what it was exactly when no table has equal rows, refers to
     rows from its dead column, and belongs to a lexer state that reads that column; and if it is
     an image it lexes alike.
     */
    method Minimise() returns (ghost fs: seq<seq<nat>>)
      requires internals.WellFormed()
      modifies this
      ensures internals.WellFormed() && internals == old(internals).(dfa := internals.dfa)
      ensures |internals.dfa| == |old(internals).dfa|
      ensures forall d :: 0 <= d < |internals.dfa| ==> NoTwins(internals.dfa[d])
      ensures forall d :: 0 <= d < |internals.dfa| ==>
                (|internals.dfa[d]| == |old(internals).dfa[d]| <==> NoTwins(old(internals).dfa[d]))
      ensures Minimised(old(internals), internals, fs) <==>
              forall d :: 0 <= d < |internals.dfa| ==> StateFollows(old(internals), d)
      ensures (forall d :: 0 <= d < |internals.dfa| ==> StateFollows(old(internals), d)) ==>
              forall input, res, outs :: Emits(internals, input, res, outs) <==> Emits(old(internals), input, res, outs)
    {
      ghost var was := internals;
      fs := [];
      var i := 0;
      while i < |internals.dfa|
        invariant 0 <= i <= |was.dfa| && |fs| == i
        invariant internals.WellFormed() && |internals.dfa| == |was.dfa| && internals == was.(dfa := internals.dfa)
        invariant forall d :: i <= d < |was.dfa| ==> internals.dfa[d] == was.dfa[d]
        invariant forall d :: 0 <= d < i ==> NoTwins(internals.dfa[d])
        invariant forall d :: 0 <= d < i ==> (|internals.dfa[d]| == |was.dfa[d]| <==> NoTwins(was.dfa[d]))
        invariant forall d :: 0 <= d < i ==>
                    (MinimisedState(was, internals, d, fs[d]) <==> StateFollows(was, d))
      {
        ghost var f := [];
        if internals.alphabet[i] != 0 {
          var table: Table;
          table, f := MinimiseTable(internals.alphabet[i], internals.dfa[i]);
          internals := internals.(dfa := internals.dfa[i := table]);
        }
        fs := fs + [f];
        i := i + 1;
      }
      if Minimised(was, internals, fs) {
        forall input, res, outs ensures Emits(internals, input, res, outs) <==> Emits(was, input, res, outs) {
          MinimisedEmitsAlike(was, internals, fs, input, res, outs);
        }
      }
    }
  }

  /**
   Minimising keeps all that is read of a lexer state's table: it has no equal rows, its dead column
   is zero, or no byte reads that.
   */
  ghost predicate StateFollows(m: Internals, d: nat)
    requires m.WellFormed() && d < |m.dfa|
  {
    m.alphabet[d] == 0 || Follows(m.dfa[d], m.alphabet[d], m.ReadsDead(d))
  }

  // ---------------------------------------------------------------------------------------------
  // A machine that minimising changes

  /** The start row goes to the second row through the dead column; that row accepts, and has a twin. */
  const DEAD_TABLE: Table := [
    [0, 0, 0, 0, 0, 0, 0, 0],
    [0, 0, 0, 0, 0, 0, 2, 3],
    [1, 5, 0, 0, 0, 0, 0, 0],
    [1, 5, 0, 0, 0, 0, 0, 0]]

  const PLAIN_FLAGS := Flags(false, false, false, false, true)

  /** No byte belongs to a character class. */
  const DEAD_MACHINE := Internals(0, [seq(256, _ => DEAD)], [8], [DEAD_TABLE], PLAIN_FLAGS, 1)

  const FRESH_RESULTS := Results(0, 0, 0, 0, false, 0, [])

  lemma DeadMachineIsWellFormed()
    ensures DEAD_MACHINE.WellFormed() && DEAD_MACHINE.ReadsDead(0)
    ensures !DeadZero(DEAD_TABLE, 8) && !NoTwins(DEAD_TABLE)
  {
    var t := DEAD_TABLE;
    assert |t| == 4 && t[1][DEAD] == 2 && t[2] == t[3];
    forall r | 1 <= r < |t| ensures WellFormedRow(t[r], 8, |t|) {
    }
    assert DEAD_MACHINE.lookup[0][0] == DEAD;
  }

  /** The machine itself accepts the one character it is given. */
  lemma DeadMachineAccepts()
    ensures DEAD_MACHINE.WellFormed()
    ensures Steps(DEAD_MACHINE, [0], Call(FRESH_RESULTS), 4) == Finished(FRESH_RESULTS.(id := 5, end := 1))
  {
    DeadMachineIsWellFormed();
    var m, input, c := DEAD_MACHINE, [0], Call(FRESH_RESULTS);
    FourSteps(m, input, c);
    assert Bytes(1, 0) == [0];
    assert NextChar(m, 0, 1, [0]) == (2, 2);
  }

  lemma FourSteps(m: Internals, input: seq<nat>, c: Config)
    requires m.WellFormed() && Legal(m, input, c)
    ensures var c1 := Step(m, input, c);
            && Legal(m, input, c1)
            && var c2 := Step(m, input, c1);
               && Legal(m, input, c2)
               && var c3 := Step(m, input, c2);
                  Legal(m, input, c3) && Steps(m, input, c, 4) == Step(m, input, c3)
  {
    StepLegal(m, input, c);
    assert Steps(m, input, c, 1) == Step(m, input, Steps(m, input, c, 0));
    assert Steps(m, input, c, 2) == Step(m, input, Steps(m, input, c, 1));
    assert Steps(m, input, c, 3) == Step(m, input, Steps(m, input, c, 2));
    assert Steps(m, input, c, 4) == Step(m, input, Steps(m, input, c, 3));
  }

  /** Whatever minimising makes of its table, the new machine finds no match. */
  lemma DeadColumnLexesDifferently(u: Table, f: seq<nat>)
    requires DfaTables.WellFormed(u, 8) && NoTwins(u) && |u| <= |DEAD_TABLE| &&
             (|u| == |DEAD_TABLE| ==> u == DEAD_TABLE)
    requires |u| < |DEAD_TABLE| ==> DeadZero(u, 8)
    requires DfaTables.WellFormed(DEAD_TABLE, 8) && Image(DEAD_TABLE, u, 8, f, false)
    ensures var m' := DEAD_MACHINE.(dfa := [u]);
            m'.WellFormed() && Steps(m', [0], Call(FRESH_RESULTS), 4) ==
                Finished(FRESH_RESULTS.(id := NPOS, userId := NPOS, end := 1))
  {
    DeadMachineIsWellFormed();
    var m', input, c := DEAD_MACHINE.(dfa := [u]), [0], Call(FRESH_RESULTS);
    assert f[1] == 1 && 1 < |u| && RowImage(DEAD_TABLE[1], u[1], f, false);
    assert u[1][DEAD] == 0 && u[1][END_STATE] == 0;
    assert Bytes(1, 0) == [0];
    assert NextChar(m', 0, 1, [0]) == (1, 0);
    JamsAtOnce(m');
  }

  lemma JamsAtOnce(m: Internals)
    requires m.WellFormed() && m.Has(0) && m.flags == PLAIN_FLAGS && m.width == 1
    requires RowOf(m, 0, 1)[END_STATE] == 0 && NextChar(m, 0, 1, Bytes(1, 0)) == (1, 0)
    ensures Steps(m, [0], Call(FRESH_RESULTS), 4) == Finished(FRESH_RESULTS.(id := NPOS, userId := NPOS, end := 1))
  {
    FourSteps(m, [0], Call(FRESH_RESULTS));
  }

  // ---------------------------------------------------------------------------------------------
  // Characters

  /** The number that some bytes spell, most significant first. */
  function Spelt(bytes: seq<Byte>): nat {
    if bytes == [] then 0 else Spelt(bytes[..|bytes| - 1]) * 256 + bytes[|bytes| - 1]
  }

  /**
   A character is looked up by its lowest bytes, one for each byte of its type and at most three,
   most significant first.
   */
  lemma BytesSpell(width: nat, ch: nat)
    ensures var bytes := Bytes(width, ch);
            && |bytes| == (if width <= 1 then 1 else if width == 2 then 2 else 3)
            && Spelt(bytes) == ch % (if width <= 1 then 256 else if width == 2 then 65536 else 16777216)
  {
    SpeltDigits((ch / 65536) % 256, (ch / 256) % 256, ch % 256);
    if width == 2 {
      TwoDigits(ch);
    } else if width > 2 {
      ThreeDigits(ch);
    }
  }

  lemma SpeltDigits(a: Byte, b: Byte, c: Byte)
    ensures Spelt([c]) == c
    ensures Spelt([b, c]) == b * 256 + c
    ensures Spelt([a, b, c]) == (a * 256 + b) * 256 + c
  {
    assert [a][..0] == [] && [b][..0] == [] && [c][..0] == [];
    assert [b, c][..1] == [b] && [a, b][..1] == [a] && [a, b, c][..2] == [a, b];
    assert Spelt([a]) == a && Spelt([b]) == b && Spelt([a, b]) == a * 256 + b;
  }

  lemma Rest(q: nat, base: nat, r: nat, n: nat)
    requires r < base && n == q * base + r && (base == 65536 || base == 16777216)
    ensures n % base == r
  {
  }

  lemma TwoDigits(n: nat)
    ensures (n / 256) % 256 * 256 + n % 256 == n % 65536
  {
    var q := n / 256;
    var r := q % 256 * 256 + n % 256;
    assert n == q / 256 * 65536 + r;
    Rest(q / 256, 65536, r, n);
  }

  lemma ThreeDigits(n: nat)
    ensures ((n / 65536) % 256 * 256 + (n / 256) % 256) * 256 + n % 256 == n % 16777216
  {
    var q, s := n / 256, n / 65536;
    assert q / 256 == s;
    var r := (s % 256 * 256 + q % 256) * 256 + n % 256;
    assert n == s / 256 * 16777216 + r;
    Rest(s / 256, 16777216, r, n);
  }

  /** A walk through rows, one byte after the other. */
  ghost predicate Walk(m: Internals, d: nat, rows: seq<nat>, bytes: seq<Byte>)
    requires m.WellFormed() && m.Has(d)
  {
    && |rows| == |bytes| + 1
    && (forall i :: 0 <= i < |rows| ==> 1 <= rows[i] < |m.dfa[d]|)
    && forall i :: 0 <= i < |bytes| ==> m.dfa[d][rows[i]][m.lookup[d][bytes[i]]] == rows[i + 1]
  }

  /** A character leads to a row exactly if its bytes make a walk there. */
  lemma NextCharWalks(m: Internals, d: nat, row: nat, bytes: seq<Byte>, to: nat)
    requires m.WellFormed() && m.Has(d) && 1 <= row < |m.dfa[d]| && bytes != [] && to != 0
    ensures NextChar(m, d, row, bytes).1 == to <==>
            exists rows :: Walk(m, d, rows, bytes) && rows[0] == row && rows[|bytes|] == to
  {
    if NextChar(m, d, row, bytes).1 == to {
      var rows := WalkOf(m, d, row, bytes);
    }
    forall rows | Walk(m, d, rows, bytes) && rows[0] == row && rows[|bytes|] == to
      ensures NextChar(m, d, row, bytes).1 == to
    {
      WalkLeads(m, d, rows, bytes);
    }
  }

  lemma {:induction false} WalkOf(m: Internals, d: nat, row: nat, bytes: seq<Byte>) returns (rows: seq<nat>)
    requires m.WellFormed() && m.Has(d) && 1 <= row < |m.dfa[d]| && bytes != [] && NextChar(m, d, row, bytes).1 != 0
    ensures Walk(m, d, rows, bytes) && rows[0] == row && rows[|bytes|] == NextChar(m, d, row, bytes).1
    decreases |bytes|
  {
    var state := RowOf(m, d, row)[m.lookup[d][bytes[0]]];
    if |bytes| == 1 {
      rows := [row, state];
    } else {
      rows := WalkOf(m, d, state, bytes[1..]);
      WalkOn(m, d, row, rows, bytes);
      rows := [row] + rows;
    }
  }

  lemma {:induction false} WalkLeads(m: Internals, d: nat, rows: seq<nat>, bytes: seq<Byte>)
    requires m.WellFormed() && m.Has(d) && bytes != [] && Walk(m, d, rows, bytes)
    ensures NextChar(m, d, rows[0], bytes).1 == rows[|bytes|]
    decreases |bytes|
  {
    assert m.dfa[d][rows[0]][m.lookup[d][bytes[0]]] == rows[1];
    if |bytes| > 1 {
      assert Walk(m, d, rows[1..], bytes[1..]);
      WalkLeads(m, d, rows[1..], bytes[1..]);
    }
  }

  lemma WalkOn(m: Internals, d: nat, row: nat, rows: seq<nat>, bytes: seq<Byte>)
    requires m.WellFormed() && m.Has(d) && 1 <= row < |m.dfa[d]| && bytes != []
    requires Walk(m, d, rows, bytes[1..]) && m.dfa[d][row][m.lookup[d][bytes[0]]] == rows[0]
    ensures Walk(m, d, [row] + rows, bytes) && ([row] + rows)[|bytes|] == rows[|bytes| - 1]
  {
    forall i | 0 <= i < |bytes| ensures m.dfa[d][([row] + rows)[i]][m.lookup[d][bytes[i]]] == ([row] + rows)[i + 1] {
      if i > 0 { assert bytes[i] == bytes[1..][i - 1]; }
    }
  }

  /** An end-state cell says whether to accept in its lowest bit, and whether to pop in the next one. */
  lemma PopBitIsSecond(cell: nat)
    ensures PopBit(cell) <==> cell % 4 >= 2
  {
  }
}
