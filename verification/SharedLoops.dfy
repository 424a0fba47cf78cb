/**
 Several evaluation loops that share a cache and take turns at single gets and sets. Each supplies
 exactly the dimensions on the way to its entry, whatever the others do, so what it stores is right,
 and a loop that meets no entry under calculation returns what evaluation without a cache gives.
 */
module SharedLoops {
  import opened Constants
  import opened WarehouseTree
  import opened Warehouse
  import opened CacheWorkshop
  import opened SharedCache

  datatype Phase = Asking | Calculating | Finishing | Done(answer: Constant)

  /** One evaluation: its context, what its caller supplies, what it supplies so far, and whether it met a loop. */
  datatype Loop = Loop(k: Context, delta: set<Dim>, sub: set<Dim>, phase: Phase, met: bool)

  /** The cache with its pending entries, the evaluation each of these belongs to, and the evaluations. */
  datatype Loops = Loops(machine: Machine, ids: seq<nat>, loops: seq<Loop>)

  datatype Move = Begin(k: Context, delta: set<Dim>) | Look(i: nat) | Save(p: nat) | Clean

  datatype After = Going(loops: Loops) | Broken

  /** What an evaluation does when it has the answer for what it supplies. */
  function Heard(l: Loop, answer: Constant): Loop {
    if !answer.Demand? then l.(phase := Finishing)
    else if answer.dims <= l.delta then l.(sub := l.sub + answer.dims, phase := Asking)
    else l.(phase := Done(Demand(answer.dims - l.delta)))
  }

  /** What an evaluation asks next. */
  function Question(l: Loop): Event {
    Ask(l.k, Delta(if l.phase.Finishing? then l.delta else l.sub, false))
  }

  /** What a get makes of an evaluation. */
  function Told(l: Loop, answer: Constant): Loop {
    if l.phase.Finishing? then l.(phase := Done(answer))
    else if answer.Calc? then l.(phase := Calculating)
    else Heard(l, answer).(met := l.met || answer == Special(SpLoop))
  }

  function Turn(e: Evaluator, s: Loops, move: Move): After {
    match move
    case Begin(k, delta) => Going(s.(loops := s.loops + [Loop(k, delta, {}, Asking, false)]))
    case Look(i) =>
      if i >= |s.loops| then Broken else
      var l := s.loops[i];
      var question := Question(l);
      (match GetStore(s.machine.store, l.k, question.delta)
       case GetThrows => Broken
       case Answered(answer, w) =>
         var owners := if answer.Calc? then s.machine.owners + [Owner(l.k, question.delta)] else s.machine.owners;
         var ids := if answer.Calc? then s.ids + [i] else s.ids;
         Going(Loops(Machine(w, owners), ids, s.loops[i := Told(l, answer)])))
    case Save(p) =>
      if p >= |s.ids| || s.ids[p] >= |s.loops| then Broken else
      var l := s.loops[s.ids[p]];
      var value := e(l.k, l.sub);
      (match Step(s.machine, Reply(p, value))
       case CacheError => Broken
       case Machines(machine) =>
         Going(Loops(machine, s.ids[..p] + s.ids[p + 1..], s.loops[s.ids[p] := Heard(l, value)])))
    case Clean =>
      match Step(s.machine, Sweep)
      case CacheError => Broken
      case Machines(machine) => Going(s.(machine := machine))
  }

  /** Evaluations take turns; sweeps come between evaluations, and spare what one of them may have left pending. */
  ghost predicate Allowed(s: Loops, move: Move) {
    match move
    case Begin(_, _) => true
    case Look(i) => i < |s.loops| && (s.loops[i].phase.Asking? || s.loops[i].phase.Finishing?)
    case Save(p) => p < |s.ids| && s.ids[p] < |s.loops| && s.loops[s.ids[p]].phase.Calculating?
    case Clean => (forall i :: 0 <= i < |s.loops| ==> s.loops[i].phase.Done?) && AllSpared(s.machine)
  }

  const NOBODY := Loops(START, [], [])

  function Play(e: Evaluator, s: Loops, moves: seq<Move>): After
    decreases |moves|
  {
    if moves == [] then Going(s) else
    match Turn(e, s, moves[0])
    case Broken => Broken
    case Going(s') => Play(e, s', moves[1..])
  }

  ghost predicate AllowedPlay(e: Evaluator, s: Loops, moves: seq<Move>)
    decreases |moves|
  {
    moves == [] ||
    (Allowed(s, moves[0]) && (Turn(e, s, moves[0]).Going? ==> AllowedPlay(e, Turn(e, s, moves[0]).loops, moves[1..])))
  }

  // ---------------------------------------------------------------------------------------------
  // What every turn keeps

  ghost function Uncached(e: Evaluator, l: Loop): Constant
    requires Honest(e)
  {
    Restart(e, l.k, Delta(l.delta, false), {})
  }

  /** A finished entry that the evaluation can reach holds its answer. */
  ghost predicate Settled(e: Evaluator, w: Store, l: Loop)
    requires Honest(e)
  {
    var spot := Find(w, l.k);
    spot.Spot? && !spot.value.Calc? && spot.addr.Keys <= l.delta && spot.value == Uncached(e, l)
  }

  /** What an evaluation supplies leads exactly to its entry; and it is on its way to the right answer. */
  ghost predicate Underway(e: Evaluator, w: Store, l: Loop)
    requires Honest(e)
  {
    && l.sub <= l.delta
    && Reached(w, l.k, Delta(l.sub, false)) == l.sub
    && Restart(e, l.k, Delta(l.delta, false), l.sub) == Uncached(e, l)
  }

  ghost predicate Sound(e: Evaluator, w: Store, l: Loop)
    requires Honest(e)
  {
    match l.phase
    case Asking => Underway(e, w, l)
    case Calculating => Underway(e, w, l)
    case Finishing => !l.met ==> Settled(e, w, l)
    case Done(answer) => !l.met ==> answer == Uncached(e, l)
  }

  /**
   A pending entry belongs to an evaluation that has supplied exactly the dimensions on its way, or
   met a loop and is done.
   */
  ghost predicate Belongs(s: Loops, p: nat)
    requires p < |s.ids| == |s.machine.owners|
  {
    && s.ids[p] < |s.loops|
    && var l := s.loops[s.ids[p]];
       && l.k == s.machine.owners[p].k
       && (l.phase.Calculating? || (l.phase.Done? && l.met))
       && (l.phase.Calculating? ==>
             && s.machine.owners[p].delta == Delta(l.sub, false)
             && MarkerOf(s.machine, p).Spot? && MarkerOf(s.machine, p).addr.Keys == l.sub)
  }

  ghost predicate InTurn(e: Evaluator, s: Loops)
    requires Honest(e)
  {
    && Shared(e, s.machine)
    && |s.ids| == |s.machine.owners|
    && (forall p :: 0 <= p < |s.ids| ==> Belongs(s, p))
    && (forall p, q :: 0 <= p < q < |s.ids| ==> s.ids[p] != s.ids[q])
    && (forall i :: 0 <= i < |s.loops| ==> Sound(e, s.machine.store, s.loops[i]))
  }

  // ---------------------------------------------------------------------------------------------
  // What one get tells

  /**
   A get where the supplied dimensions lead: it marks that point, meets a marker there, or answers
   what the evaluator says for it, less what is supplied.
   */
  lemma {:induction false} GetThere(n: Node, dims: seq<Dim>, a: Addr, e: Evaluator, addrs: set<Addr>, k: Context,
                                    delta: Delta, retirement: int)
    requires Honest(e) && Inv(n, dims, a, ExactBesides(e, addrs)) && Matches(k, a)
    requires forall d :: d in a || d in dims ==> delta.Contains(d)
    ensures var g := GetNode(n, dims, k, delta, retirement);
            var s := Reach(n, dims, a, k, delta);
            && g.Got?
            && (g.answer.Calc? ==> Locate(g.node, dims, a, k).Spot? && Locate(g.node, dims, a, k).addr.Keys == s)
            && (g.answer.Calc? || g.answer == Special(SpLoop) ||
                AnswersThere(n, g.node, dims, a, e, k, delta, g.answer))
    decreases n
  {
    match n
    case Leaf(entry) =>
      ExactAt(e, a, k);
      if entry.content.Sub? {
        var l := entry.content.level;
        if Missing(l.dims, delta) == {} {
          assert forall d :: d in l.dims ==> d !in Missing(l.dims, delta);
          GetThere(l.node, l.dims, a, e, addrs, k, delta, MaxAge(retirement, entry.age));
        } else {
          assert Missing(l.dims, delta) == set d | d in e(k, a.Keys).dims && !delta.Contains(d);
        }
      }
    case Branch(ch) =>
      var c := k.Lookup(dims[0]);
      var b := a[dims[0] := c];
      if c in ch {
        GetThere(ch[c], dims[1..], b, e, addrs, k, delta, retirement);
      } else {
        ChainSound(dims[1..], k, b, ExactBesides(e, addrs));
        assert DimSet(dims) == {dims[0]} + DimSet(dims[1..]);
      }
  }

  ghost predicate AnswersThere(n: Node, after: Node, dims: seq<Dim>, a: Addr, e: Evaluator, k: Context, delta: Delta,
                               answer: Constant)
  {
    var s := Reach(n, dims, a, k, delta);
    var c := e(k, s);
    && (c.Demand? ==> answer == Demand(set d | d in c.dims && !delta.Contains(d)))
    && (!c.Demand? ==> answer == c)
    && (!answer.Demand? ==>
          && Locate(n, dims, a, k).Spot? && Locate(after, dims, a, k) == Locate(n, dims, a, k)
          && Locate(n, dims, a, k).value == c && Locate(n, dims, a, k).addr.Keys == s)
  }

  /** The same for a store, when exactly the dimensions on the way are supplied. */
  lemma StoreThere(e: Evaluator, m: Machine, k: Context, sub: set<Dim>)
    requires Honest(e) && Shared(e, m) && Reached(m.store, k, Delta(sub, false)) == sub
    ensures var g := GetStore(m.store, k, Delta(sub, false));
            && g.Answered?
            && (g.answer.Calc? ==> Find(g.store, k).Spot? && Find(g.store, k).addr.Keys == sub)
            && (g.answer.Calc? || g.answer == Special(SpLoop) || Learnt(e, g.store, k, sub, g.answer))
  {
    var delta := Delta(sub, false);
    var g := GetStore(m.store, k, delta);
    if m.store.tree.None? {
      assert Find(g.store, k) == Spot(map[], Calc);
    } else {
      var n, r := m.store.tree.value.node, m.store.retirement;
      assert Missing([], delta) == {};
      GetThere(n, [], map[], e, Addrs(m), k, delta, r);
      var c := e(k, sub);
      if c.Demand? && g.answer.Demand? {
        assert (set d | d in c.dims && !delta.Contains(d)) == c.dims;
        GetThenReach(n, [], map[], ExactBesides(e, Addrs(m)), k, delta, c.dims, r);
      }
    }
  }

  /** The evaluator's answer, and where it leads: one level further, or to the finished entry. */
  ghost predicate Learnt(e: Evaluator, w: Store, k: Context, sub: set<Dim>, answer: Constant) {
    && answer == e(k, sub)
    && (answer.Demand? ==> Reached(w, k, Delta(sub + answer.dims, false)) == sub + answer.dims)
    && (!answer.Demand? ==> Find(w, k).Spot? && Find(w, k).value == answer && Find(w, k).addr.Keys == sub)
  }

  /** An evaluation that learnt the right answer goes on soundly. */
  lemma HeardIsSound(e: Evaluator, w: Store, l: Loop, answer: Constant)
    requires Honest(e) && Learnt(e, w, l.k, l.sub, answer)
    requires l.sub <= l.delta && Restart(e, l.k, Delta(l.delta, false), l.sub) == Uncached(e, l)
    ensures Sound(e, w, Heard(l, answer))
  {
  }

  // ---------------------------------------------------------------------------------------------
  // What the others' gets and sets leave as it was

  lemma LookKeepsOthers(e: Evaluator, m: Machine, k: Context, delta: Delta, l: Loop)
    requires Honest(e) && Shared(e, m) && Sound(e, m.store, l)
    ensures Step(m, Ask(k, delta)).Machines? && Sound(e, Step(m, Ask(k, delta)).machine.store, l)
  {
    AskKeepsOrder(m, k, delta);
    if m.store.tree.Some? {
      var n, r, rule := m.store.tree.value.node, m.store.retirement, ExactBesides(e, Addrs(m));
      GetKeepsReach(n, [], map[], k, delta, r, l.k, Delta(l.sub, false));
      GetLocate(n, [], map[], rule, k, delta, r, l.k);
    }
  }

  lemma SaveKeepsOthers(e: Evaluator, m: Machine, who: nat, value: Constant, l: Loop)
    requires Honest(e) && Shared(e, m) && HonestEvent(e, m, Reply(who, value)) && Sound(e, m.store, l)
    ensures Step(m, Reply(who, value)).Machines? && Sound(e, Step(m, Reply(who, value)).machine.store, l)
  {
    OwnerHasTree(m, who);
    var n, rule, k := m.store.tree.value.node, ExactBesides(e, Addrs(m)), m.owners[who].k;
    var addr := MarkerOf(m, who).addr;
    SetLocate(n, [], map[], rule, k, value, l.k);
    if l.phase.Asking? || l.phase.Calculating? {
      assert Storable(value, addr);
      SetKeepsReach(n, [], map[], rule, k, value, l.k, l.sub);
    } else if l.phase.Finishing? && !l.met && Matches(l.k, addr) {
      LocateByAddress(n, [], map[], rule, k, l.k);
      assert false;
    }
  }

  /** Asking leaves the markers of those who were pending where they were. */
  lemma AskMarkers(m: Machine, k: Context, delta: Delta, i: nat)
    requires Orderly(m) && i < |m.owners|
    ensures Step(m, Ask(k, delta)).Machines?
    ensures var m' := Step(m, Ask(k, delta)).machine;
            i < |m'.owners| && m'.owners[i] == m.owners[i] && MarkerOf(m', i) == MarkerOf(m, i)
  {
    AskKeepsOrder(m, k, delta);
    OwnerHasTree(m, i);
    GetLocate(m.store.tree.value.node, [], map[], MarkersAt(Addrs(m)), k, delta, m.store.retirement, m.owners[i].k);
  }

  // ---------------------------------------------------------------------------------------------
  // The turns

  lemma BeginKeepsTurn(e: Evaluator, s: Loops, k: Context, delta: set<Dim>)
    requires Honest(e) && InTurn(e, s)
    ensures Turn(e, s, Begin(k, delta)).Going? && InTurn(e, Turn(e, s, Begin(k, delta)).loops)
  {
    var s' := Turn(e, s, Begin(k, delta)).loops;
    ReachedNothing(s.machine.store, k);
    forall p: nat | p < |s.ids| ensures Belongs(s', p) {
      assert Belongs(s, p);
    }
  }

  lemma CleanKeepsTurn(e: Evaluator, s: Loops)
    requires Honest(e) && InTurn(e, s) && Allowed(s, Clean)
    ensures Turn(e, s, Clean).Going? && InTurn(e, Turn(e, s, Clean).loops)
  {
    SweepKeepsShared(e, s.machine);
    var s' := Turn(e, s, Clean).loops;
    forall p: nat | p < |s.ids| ensures Belongs(s', p) {
      assert Belongs(s, p);
    }
  }

  /** The evaluation that looked goes on soundly. */
  lemma LookerIsSound(e: Evaluator, m: Machine, l: Loop)
    requires Honest(e) && Shared(e, m) && Sound(e, m.store, l) && (l.phase.Asking? || l.phase.Finishing?)
    ensures Step(m, Question(l)).Machines?
    ensures var g := GetStore(m.store, l.k, Question(l).delta);
            && g.Answered? && Sound(e, g.store, Told(l, g.answer))
            && (g.answer.Calc? && l.phase.Asking? ==> Find(g.store, l.k).Spot? && Find(g.store, l.k).addr.Keys == l.sub)
  {
    LookKeepsOthers(e, m, l.k, Question(l).delta, l);
    var g := GetStore(m.store, l.k, Question(l).delta);
    if l.phase.Asking? {
      StoreThere(e, m, l.k, l.sub);
      if !g.answer.Calc? && g.answer != Special(SpLoop) { HeardIsSound(e, g.store, l, g.answer); }
    } else if !l.met {
      var n := m.store.tree.value.node;
      GetAnswersEntry(n, [], map[], ExactBesides(e, Addrs(m)), l.k, Delta(l.delta, false), m.store.retirement);
    }
  }

  lemma LookKeepsLoops(e: Evaluator, s: Loops, i: nat)
    requires Honest(e) && InTurn(e, s) && Allowed(s, Look(i))
    ensures Turn(e, s, Look(i)).Going?
    ensures var s' := Turn(e, s, Look(i)).loops;
            && Step(s.machine, Question(s.loops[i])) == Machines(s'.machine)
            && |s'.loops| == |s.loops| && s'.loops == s.loops[i := s'.loops[i]]
            && forall j :: 0 <= j < |s.loops| ==> Sound(e, s'.machine.store, s'.loops[j])
  {
    var l, m := s.loops[i], s.machine;
    assert Sound(e, m.store, l);
    LookerIsSound(e, m, l);
    var s' := Turn(e, s, Look(i)).loops;
    forall j: nat | j < |s.loops| && j != i ensures Sound(e, s'.machine.store, s'.loops[j]) {
      assert Sound(e, m.store, s.loops[j]);
      LookKeepsOthers(e, m, l.k, Question(l).delta, s.loops[j]);
    }
  }

  /** What was pending still belongs to the same evaluation, which is not the one that looked. */
  lemma LookKeepsPending(e: Evaluator, s: Loops, i: nat, p: nat)
    requires Honest(e) && InTurn(e, s) && Allowed(s, Look(i)) && p < |s.ids|
    ensures Turn(e, s, Look(i)).Going?
    ensures var s' := Turn(e, s, Look(i)).loops;
            |s'.ids| == |s'.machine.owners| && p < |s'.ids| && s'.ids[p] == s.ids[p] != i && Belongs(s', p)
  {
    LookKeepsLoops(e, s, i);
    assert Belongs(s, p);
    AskMarkers(s.machine, s.loops[i].k, Question(s.loops[i]).delta, p);
  }

  /** What has become pending belongs to the evaluation that looked. */
  lemma LookAddsPending(e: Evaluator, s: Loops, i: nat)
    requires Honest(e) && InTurn(e, s) && Allowed(s, Look(i))
    ensures Turn(e, s, Look(i)).Going?
    ensures var s' := Turn(e, s, Look(i)).loops;
            && |s.ids| <= |s'.ids| == |s'.machine.owners| <= |s.ids| + 1
            && (|s'.ids| > |s.ids| ==> s'.ids[|s.ids|] == i && Belongs(s', |s.ids|))
  {
    LookKeepsLoops(e, s, i);
    assert Sound(e, s.machine.store, s.loops[i]);
    LookerIsSound(e, s.machine, s.loops[i]);
  }

  lemma LookKeepsTurn(e: Evaluator, s: Loops, i: nat)
    requires Honest(e) && InTurn(e, s) && Allowed(s, Look(i))
    ensures Turn(e, s, Look(i)).Going? && InTurn(e, Turn(e, s, Look(i)).loops)
  {
    LookKeepsLoops(e, s, i);
    AskKeepsShared(e, s.machine, s.loops[i].k, Question(s.loops[i]).delta);
    LookAddsPending(e, s, i);
    var s' := Turn(e, s, Look(i)).loops;
    forall p: nat | p < |s.ids| ensures s'.ids[p] == s.ids[p] != i && Belongs(s', p) {
      LookKeepsPending(e, s, i, p);
    }
  }

  /** The evaluation that stored goes on soundly. */
  lemma SaverIsSound(e: Evaluator, m: Machine, who: nat, l: Loop)
    requires Honest(e) && Shared(e, m) && who < |m.owners| && Underway(e, m.store, l)
    requires m.owners[who] == Owner(l.k, Delta(l.sub, false))
    requires MarkerOf(m, who).Spot? && MarkerOf(m, who).addr.Keys == l.sub
    ensures var reply := Reply(who, e(l.k, l.sub));
            && HonestEvent(e, m, reply)
            && Step(m, reply).Machines? && Shared(e, Step(m, reply).machine)
            && Sound(e, Step(m, reply).machine.store, Heard(l, e(l.k, l.sub)))
  {
    var value := e(l.k, l.sub);
    LoopRepliesHonestly(e, m, who);
    ReplyKeepsShared(e, m, who, value);
    OwnerHasTree(m, who);
    var n, rule := m.store.tree.value.node, ExactBesides(e, Addrs(m));
    SetLocate(n, [], map[], rule, l.k, value, l.k);
    LocateSound(n, [], map[], rule, l.k);
    if value.Demand? { SetThenReach(n, [], map[], rule, l.k, value.dims); }
    HeardIsSound(e, Step(m, Reply(who, value)).machine.store, l, value);
  }

  lemma SaveKeepsLoops(e: Evaluator, s: Loops, p: nat)
    requires Honest(e) && InTurn(e, s) && Allowed(s, Save(p))
    ensures Turn(e, s, Save(p)).Going?
    ensures var s', id := Turn(e, s, Save(p)).loops, s.ids[p];
            && HonestEvent(e, s.machine, Reply(p, e(s.loops[id].k, s.loops[id].sub)))
            && Step(s.machine, Reply(p, e(s.loops[id].k, s.loops[id].sub))) == Machines(s'.machine)
            && Shared(e, s'.machine)
            && |s'.loops| == |s.loops| && s'.loops == s.loops[id := s'.loops[id]]
            && forall j :: 0 <= j < |s.loops| ==> Sound(e, s'.machine.store, s'.loops[j])
  {
    var m, id := s.machine, s.ids[p];
    var l := s.loops[id];
    assert Belongs(s, p) && Sound(e, m.store, l);
    SaverIsSound(e, m, p, l);
    var s' := Turn(e, s, Save(p)).loops;
    forall j: nat | j < |s.loops| && j != id ensures Sound(e, s'.machine.store, s'.loops[j]) {
      assert Sound(e, m.store, s.loops[j]);
      SaveKeepsOthers(e, m, p, e(l.k, l.sub), s.loops[j]);
    }
  }

  /** What is still pending belongs to the evaluation it belonged to. */
  lemma SaveKeepsPending(e: Evaluator, s: Loops, p: nat, q: nat)
    requires Honest(e) && InTurn(e, s) && Allowed(s, Save(p)) && q < |s.ids| - 1
    ensures Turn(e, s, Save(p)).Going?
    ensures var s' := Turn(e, s, Save(p)).loops;
            && |s'.ids| == |s'.machine.owners| == |s.ids| - 1
            && s'.ids[q] == s.ids[if q < p then q else q + 1] && Belongs(s', q)
  {
    SaveKeepsLoops(e, s, p);
    var m, q': nat := s.machine, if q < p then q else q + 1;
    ReplyMarkers(m, p, e(s.loops[s.ids[p]].k, s.loops[s.ids[p]].sub));
    var s' := Turn(e, s, Save(p)).loops;
    assert Belongs(s, q') && s.ids[q'] != s.ids[p];
    if q < p { assert m.owners[q] == m.owners[q]; } else { assert s'.machine.owners[q] == m.owners[q + 1]; }
  }

  lemma SaveKeepsTurn(e: Evaluator, s: Loops, p: nat)
    requires Honest(e) && InTurn(e, s) && Allowed(s, Save(p))
    ensures Turn(e, s, Save(p)).Going? && InTurn(e, Turn(e, s, Save(p)).loops)
  {
    SaveKeepsLoops(e, s, p);
    var s' := Turn(e, s, Save(p)).loops;
    forall q: nat | q < |s.ids| - 1
      ensures |s'.ids| == |s'.machine.owners| == |s.ids| - 1
      ensures s'.ids[q] == s.ids[if q < p then q else q + 1] && Belongs(s', q)
    {
      SaveKeepsPending(e, s, p, q);
    }
  }

  lemma {:induction false} TurnsAreKept(e: Evaluator, s: Loops, moves: seq<Move>)
    requires Honest(e) && InTurn(e, s) && AllowedPlay(e, s, moves)
    ensures Play(e, s, moves).Going? && InTurn(e, Play(e, s, moves).loops)
    decreases |moves|
  {
    if moves != [] {
      match moves[0] {
        case Begin(k, delta) => BeginKeepsTurn(e, s, k, delta);
        case Look(i) => LookKeepsTurn(e, s, i);
        case Save(p) => SaveKeepsTurn(e, s, p);
        case Clean => CleanKeepsTurn(e, s);
      }
      TurnsAreKept(e, Turn(e, s, moves[0]).loops, moves[1..]);
    }
  }

  /**
   However evaluations take turns at the cache: nothing throws; what an evaluation supplies leads
   exactly to its entry as long as it is underway; and if it met no entry under calculation it
   returns what evaluation without a cache gives.
   */
  lemma EveryLoopIsRight(e: Evaluator, moves: seq<Move>, i: nat)
    requires Honest(e) && AllowedPlay(e, NOBODY, moves)
    ensures Play(e, NOBODY, moves).Going?
    ensures var s := Play(e, NOBODY, moves).loops;
            i < |s.loops| ==>
              var l := s.loops[i];
              && (l.phase.Asking? || l.phase.Calculating? ==>
                    Reached(s.machine.store, l.k, Delta(l.sub, false)) == l.sub)
              && (l.phase.Done? && !l.met ==> l.phase.answer == Restart(e, l.k, Delta(l.delta, false), {}))
  {
    TurnsAreKept(e, NOBODY, moves);
    var s := Play(e, NOBODY, moves).loops;
    if i < |s.loops| { assert Sound(e, s.machine.store, s.loops[i]); }
  }

  /** And every set it makes is honest. */
  lemma EverySaveIsHonest(e: Evaluator, moves: seq<Move>, p: nat)
    requires Honest(e) && AllowedPlay(e, NOBODY, moves)
    ensures Play(e, NOBODY, moves).Going?
    ensures var s := Play(e, NOBODY, moves).loops;
            Allowed(s, Save(p)) ==>
              && |s.ids| == |s.machine.owners|
              && HonestEvent(e, s.machine, Reply(p, e(s.loops[s.ids[p]].k, s.loops[s.ids[p]].sub)))
  {
    TurnsAreKept(e, NOBODY, moves);
    var s := Play(e, NOBODY, moves).loops;
    if Allowed(s, Save(p)) {
      assert Belongs(s, p) && Sound(e, s.machine.store, s.loops[s.ids[p]]);
      SaverIsSound(e, s.machine, p, s.loops[s.ids[p]]);
    }
  }

  /** When all evaluations are done and none met a loop, nothing is pending and a sweep is allowed. */
  lemma NothingIsLeftPending(e: Evaluator, moves: seq<Move>)
    requires Honest(e) && AllowedPlay(e, NOBODY, moves)
    ensures Play(e, NOBODY, moves).Going?
    ensures var s := Play(e, NOBODY, moves).loops;
            (forall i :: 0 <= i < |s.loops| ==> s.loops[i].phase.Done? && !s.loops[i].met) ==>
              s.machine.owners == [] && Allowed(s, Clean)
  {
    TurnsAreKept(e, NOBODY, moves);
    var s := Play(e, NOBODY, moves).loops;
    if s.ids != [] { assert Belongs(s, 0); }
  }

  // ---------------------------------------------------------------------------------------------
  // A loop that was met

  /** Needs dimension 1, and then answers 0. */
  const NEEDS_ONE: Evaluator := (_: Context, s: set<Dim>) => if 1 in s then Intmp(0) else Demand({1})

  const SEVEN := Context(map[1 := Intmp(7)])

  const FRESH_LOOP := Loop(SEVEN, {1}, {}, Asking, false)

  lemma NeedsOneIsHonest()
    ensures Honest(NEEDS_ONE)
    ensures Restart(NEEDS_ONE, SEVEN, Delta({1}, false), {}) == Intmp(0)
  {
    assert NEEDS_ONE(SEVEN, {}) == Demand({1}) && NEEDS_ONE(SEVEN, {} + {1}) == Intmp(0);
  }

  /** The state when the first of two evaluations has begun to calculate and the second one looks. */
  lemma SecondMeetsFirst()
    ensures var m1 := Machine(Store(Some(FIRST_LEVEL), 2), [Owner(SEVEN, Delta({}, false))]);
            var s1 := Loops(m1, [0], [FRESH_LOOP.(phase := Calculating), FRESH_LOOP]);
            var met := FRESH_LOOP.(phase := Finishing, met := true);
            && Turn(NEEDS_ONE, Loops(START, [], [FRESH_LOOP, FRESH_LOOP]), Look(0)) == Going(s1)
            && Turn(NEEDS_ONE, s1, Look(1)) == Going(s1.(loops := s1.loops[1 := met]))
  {
    var w := Store(Some(FIRST_LEVEL), 2);
    assert Missing([], Delta({}, false)) == {};
    assert GetStore(START.store, SEVEN, Delta({}, false)) == Answered(Calc, w);
    assert GetNode(FIRST_LEVEL.node, [], SEVEN, Delta({}, false), 2) == Got(Special(SpLoop), FIRST_LEVEL.node, 2);
    assert GetStore(w, SEVEN, Delta({}, false)) == Answered(Special(SpLoop), w);
    var calculating := FRESH_LOOP.(phase := Calculating);
    assert [FRESH_LOOP, FRESH_LOOP][0 := calculating] == [calculating, FRESH_LOOP];
  }

  /** The first one stores a demand, and the second one is then told to calculate, which it returns as its answer. */
  lemma SecondReturnsCalc()
    ensures var m1 := Machine(Store(Some(FIRST_LEVEL), 2), [Owner(SEVEN, Delta({}, false))]);
            var met := FRESH_LOOP.(phase := Finishing, met := true);
            var s2 := Loops(m1, [0], [FRESH_LOOP.(phase := Calculating), met]);
            var asking := FRESH_LOOP.(sub := {1});
            var s3 := Loops(Machine(OneDimension(map[], 0, 2), []), [], [asking, met]);
            && Turn(NEEDS_ONE, s2, Save(0)) == Going(s3)
            && Turn(NEEDS_ONE, s3, Look(1)).Going?
            && Turn(NEEDS_ONE, s3, Look(1)).loops.loops == [asking, met.(phase := Done(Calc))]
  {
    FirstSteps(SEVEN, Delta({}, false), Delta({1}, false));
    var asking := FRESH_LOOP.(sub := {1});
    assert {} + {1} == {1};
    assert Heard(FRESH_LOOP.(phase := Calculating), Demand({1})) == asking;
    var g := GetStore(OneDimension(map[], 0, 2), SEVEN, Delta({1}, false));
    assert g.Answered? && g.answer.Calc?;
  }

  /**
   An evaluation that met a loop asks once more for all its caller supplies. If the entry has become
   a level meanwhile, it is told to calculate below it, and returns that as its answer.
   */
  lemma MetLoopReturnsCalc()
    ensures Honest(NEEDS_ONE)
    ensures var moves := [Begin(SEVEN, {1}), Begin(SEVEN, {1}), Look(0), Look(1), Save(0), Look(1)];
            var after := Play(NEEDS_ONE, NOBODY, moves);
            && AllowedPlay(NEEDS_ONE, NOBODY, moves)
            && after.Going? && |after.loops.loops| == 2 && after.loops.loops[1].phase == Done(Calc)
            && Restart(NEEDS_ONE, SEVEN, Delta({1}, false), {}) == Intmp(0)
  {
    NeedsOneIsHonest();
    SecondMeetsFirst();
    SecondReturnsCalc();
    var e := NEEDS_ONE;
    var moves := [Begin(SEVEN, {1}), Begin(SEVEN, {1}), Look(0), Look(1), Save(0), Look(1)];
    var a := Loops(START, [], [FRESH_LOOP]);
    var b := Loops(START, [], [FRESH_LOOP, FRESH_LOOP]);
    BothBegin();
    var c := Turn(e, b, moves[2]).loops;
    var d := Turn(e, c, moves[3]).loops;
    assert d.loops == [FRESH_LOOP.(phase := Calculating), FRESH_LOOP.(phase := Finishing, met := true)];
    var f := Turn(e, d, moves[4]).loops;
    var g := Turn(e, f, moves[5]).loops;
    PlayOfSix(e, moves, NOBODY, a, b, c, d, f, g);
  }

  lemma BothBegin()
    ensures var a := Loops(START, [], [FRESH_LOOP]);
            && Turn(NEEDS_ONE, NOBODY, Begin(SEVEN, {1})) == Going(a)
            && Turn(NEEDS_ONE, a, Begin(SEVEN, {1})) == Going(Loops(START, [], [FRESH_LOOP, FRESH_LOOP]))
  {
  }

  lemma PlayOfSix(e: Evaluator, moves: seq<Move>, a: Loops, b: Loops, c: Loops, d: Loops, f: Loops, g: Loops, h: Loops)
    requires |moves| == 6
    requires Allowed(a, moves[0]) && Turn(e, a, moves[0]) == Going(b)
    requires Allowed(b, moves[1]) && Turn(e, b, moves[1]) == Going(c)
    requires Allowed(c, moves[2]) && Turn(e, c, moves[2]) == Going(d)
    requires Allowed(d, moves[3]) && Turn(e, d, moves[3]) == Going(f)
    requires Allowed(f, moves[4]) && Turn(e, f, moves[4]) == Going(g)
    requires Allowed(g, moves[5]) && Turn(e, g, moves[5]) == Going(h)
    ensures AllowedPlay(e, a, moves) && Play(e, a, moves) == Going(h)
  {
    PlayOn(e, g, moves[5..]);
    PlayOn(e, f, moves[4..]);
    PlayOn(e, d, moves[3..]);
    PlayOn(e, c, moves[2..]);
    PlayOn(e, b, moves[1..]);
    PlayOn(e, a, moves);
    assert moves[5..][1..] == [];
    assert moves[4..][1..] == moves[5..] && moves[3..][1..] == moves[4..];
    assert moves[2..][1..] == moves[3..] && moves[1..][1..] == moves[2..];
  }

  lemma PlayOn(e: Evaluator, s: Loops, moves: seq<Move>)
    requires moves != [] && Turn(e, s, moves[0]).Going?
    ensures Play(e, s, moves) == Play(e, Turn(e, s, moves[0]).loops, moves[1..])
    ensures AllowedPlay(e, s, moves) <==> Allowed(s, moves[0]) && AllowedPlay(e, Turn(e, s, moves[0]).loops, moves[1..])
  {
  }
}
