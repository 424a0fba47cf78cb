/**
 When parsing an arranged argument vector again is safe for every vector, told from the options alone:
 the exact condition, for an action that accepts every option.
 */
module ArgReparse {
  import opened Constants
  import opened ArgPermutation

  ghost predicate AcceptsAll(u: Usage) {
    forall seen, option :: u.perform(seen, option)
  }

  /** Some vector that starts with this argument is parsed without failing. */
  ghost predicate CanPass(u: Usage, y: string) {
    exists rest: seq<string> :: Passes(u, [y] + rest)
  }

  ghost predicate Passes(u: Usage, args: seq<string>) {
    !Classify(u, true, args, [], []).fatal
  }

  predicate IsOption(param: string) {
    !IsNonOption(param) && !IsTerminator(param)
  }

  /** An option that does not take the argument after it is handled alike beside another neighbour. */
  ghost predicate Alike(u: Usage, param: string, next: Option<string>, other: Option<string>)
    requires !IsNonOption(param)
  {
    var handled := Handle(u, param, next, []);
    handled.Went? && !handled.taken ==> Handle(u, param, other, []) == handled
  }

  /**
   Arranging can give an option that was last, or that stood before a non-option, a non-option for a
   neighbour; and one that stood before a non-option the next option or the terminator.
   */
  ghost predicate Steady(u: Usage) {
    forall param, x, y :: IsOption(param) && IsNonOption(x) ==>
      && (IsNonOption(y) ==> Alike(u, param, None, Some(x)) && Alike(u, param, Some(x), Some(y)))
      && (!IsNonOption(y) && CanPass(u, y) ==> Alike(u, param, Some(x), Some(y)))
  }

  // ---------------------------------------------------------------------------------------------
  // What was seen before does not matter

  /** The same ending after other options. */
  ghost predicate SameEnd(h: Handled, h': Handled, seen: seq<Seen>) {
    match h
    case Stopped => h'.Stopped?
    case StoppedTaken => h'.StoppedTaken?
    case Went(after, taken) => h' == Went(seen + after, taken)
  }

  lemma SettleAfter(u: Usage, found: Option<Id>, name: string, arg: Option<string>, detached: bool,
                    before: seq<Seen>, seen: seq<Seen>)
    requires AcceptsAll(u)
    ensures var r := Settle(u, found, name, arg, detached, seen);
            var r' := Settle(u, found, name, arg, detached, before + seen);
            r'.1 == r.1 && SameEnd(r.0, r'.0, before)
  {
    var descriptor := if found.Some? then found else u.unknown;
    if descriptor.Some? {
      var status := u.check(descriptor.value, name, arg);
      var option := Seen(descriptor.value, name, if status.ARG_OK? then arg else None);
      assert before + (seen + [option]) == before + seen + [option];
    }
  }

  lemma {:induction false} GroupAfter(u: Usage, param: string, at: nat, next: Option<string>, before: seq<Seen>,
                                      seen: seq<Seen>)
    requires AcceptsAll(u)
    ensures SameEnd(Group(u, param, at, next, seen), Group(u, param, at, next, before + seen), before)
    decreases |param| - at
  {
    if at < |param| {
      var detached := at + 1 == |param|;
      var arg := if detached then next else Some(param[at + 1..]);
      SettleAfter(u, u.short(param[at]), param[at..], arg, detached, before, seen);
      var (handled, last) := Settle(u, u.short(param[at]), param[at..], arg, detached, seen);
      if !last && handled.Went? { GroupAfter(u, param, at + 1, next, before, handled.seen); }
    }
  }

  lemma HandleAfter(u: Usage, param: string, next: Option<string>, seen: seq<Seen>)
    requires AcceptsAll(u) && !IsNonOption(param)
    ensures SameEnd(Handle(u, param, next, []), Handle(u, param, next, seen), seen)
  {
    assert seen + [] == seen;
    if param[1] == '-' {
      var arg := Attached(param[2..]);
      SettleAfter(u, u.long(param[2..]), param, if arg.Some? then arg else next, arg.None?, seen, []);
    } else if u.singleMinusLongopt && u.long(param[1..]).Some? {
      var arg := Attached(param[1..]);
      SettleAfter(u, u.long(param[1..]), param, if arg.Some? then arg else next, arg.None?, seen, []);
    } else {
      GroupAfter(u, param, 1, next, seen, []);
    }
  }

  lemma AlikeAfter(u: Usage, param: string, next: Option<string>, other: Option<string>, seen: seq<Seen>)
    requires AcceptsAll(u) && !IsNonOption(param)
    requires Handle(u, param, next, seen).Went? && !Handle(u, param, next, seen).taken
    ensures Alike(u, param, next, other) <==> Handle(u, param, other, seen) == Handle(u, param, next, seen)
  {
    HandleAfter(u, param, next, seen);
    HandleAfter(u, param, other, seen);
    var h, h' := Handle(u, param, next, []), Handle(u, param, other, []);
    if h'.Went? && seen + h'.seen == seen + h.seen {
      assert h'.seen == (seen + h'.seen)[|seen|..] && h.seen == (seen + h.seen)[|seen|..];
    }
  }

  /** Whether parsing fails from some point on depends on the arguments from there on only. */
  lemma {:induction false} FailsFrom(u: Usage, args: seq<string>, kinds: seq<Kind>, seen: seq<Seen>, i: nat,
                                     more: seq<Kind>, other: seq<Seen>)
    requires AcceptsAll(u) && i <= |args| && |kinds| == i + |more|
    ensures Classify(u, true, args, kinds, seen).fatal == Classify(u, true, args[i..], more, other).fatal
    decreases |args| - |kinds|
  {
    if |kinds| < |args| {
      var param := args[|kinds|];
      assert param == args[i..][|more|];
      if IsNonOption(param) {
        FailsFrom(u, args, kinds + [NonOption], seen, i, more + [NonOption], other);
      } else if !IsTerminator(param) {
        var next := NextOf(args, |kinds|);
        assert NextOf(args[i..], |more|) == next;
        HandleAfter(u, param, next, seen);
        HandleAfter(u, param, next, other);
        var h, h' := Handle(u, param, next, seen), Handle(u, param, next, other);
        if h.Went? { FailsFrom(u, args, Marked(kinds, h.taken), h.seen, i, Marked(more, h.taken), h'.seen); }
      }
    }
  }

  // ---------------------------------------------------------------------------------------------
  // A steady parser is safe

  /** The first argument from `m` on that is not a non-option. */
  lemma {:induction false} FirstTaken(all: seq<Kind>, m: nat) returns (j: nat)
    requires m <= |all|
    ensures m <= j <= |all| && (j < |all| ==> all[j] != NonOption)
    ensures forall h :: m <= h < j ==> all[h] == NonOption
    ensures |Kept(all[..j], all[..j], false)| == |Kept(all[..m], all[..m], false)|
    decreases |all| - m
  {
    j := m;
    if m < |all| && all[m] == NonOption {
      assert all[..m + 1] == all[..m] + [NonOption];
      KeptPassing(all[..m]);
      j := FirstTaken(all, m + 1);
    }
  }

  /** Parsing that does not fail passes through every argument that nobody took. */
  lemma {:induction false} RunsThrough(u: Usage, args: seq<string>, kinds: seq<Kind>, seen: seq<Seen>, j: nat)
    returns (then': seq<Seen>)
    requires Fits(args, kinds) && Terminator !in kinds && !Classify(u, true, args, kinds, seen).fatal
    requires var all := Classify(u, true, args, kinds, seen).kinds; |kinds| <= j < |all| && all[j] != Detached
    ensures var o := Classify(u, true, args, kinds, seen);
            Classify(u, true, args, o.kinds[..j], then') == o
    decreases |args| - |kinds|
  {
    var o := Classify(u, true, args, kinds, seen);
    ClassifyExtends(u, true, args, kinds, seen);
    then' := seen;
    if |kinds| < j {
      var param := args[|kinds|];
      if IsNonOption(param) {
        FitsOne(args, kinds, NonOption);
        then' := RunsThrough(u, args, kinds + [NonOption], seen, j);
      } else {
        var next := NextOf(args, |kinds|);
        var handled := Handle(u, param, next, seen);
        FitsOne(args, kinds, AnOption);
        if handled.taken {
          HandleTakes(u, param, next, seen);
          FitsOne(args, kinds + [AnOption], Detached);
        }
        ClassifyExtends(u, true, args, Marked(kinds, handled.taken), handled.seen);
        assert handled.taken ==> o.kinds[|kinds| + 1] == Marked(kinds, true)[|kinds| + 1] == Detached;
        then' := RunsThrough(u, args, Marked(kinds, handled.taken), handled.seen, j);
      }
    }
  }

  /** An argument that nobody took, and that is no non-option, starts a vector that is parsed. */
  lemma PassedCanPass(u: Usage, args: seq<string>, kinds: seq<Kind>, seen: seq<Seen>, j: nat)
    requires AcceptsAll(u)
    requires Fits(args, kinds) && Terminator !in kinds && !Classify(u, true, args, kinds, seen).fatal
    requires var all := Classify(u, true, args, kinds, seen).kinds;
             |kinds| <= j < |all| <= |args| && all[j] != Detached
    ensures CanPass(u, args[j])
  {
    var then' := RunsThrough(u, args, kinds, seen, j);
    var all := Classify(u, true, args, kinds, seen).kinds;
    FailsFrom(u, args, all[..j], then', j, [], []);
    assert args[j..] == [args[j]] + args[j + 1..];
    assert Passes(u, [args[j]] + args[j + 1..]);
  }

  /** The pairs of neighbours that matter. */
  ghost predicate NewNeighbour(u: Usage, next: Option<string>, other: Option<string>) {
    || other == next
    || (next.None? && other.Some? && IsNonOption(other.value))
    || (next.Some? && IsNonOption(next.value) && other.Some? && (IsNonOption(other.value) || CanPass(u, other.value)))
  }

  /** Argument `i` stands at place `t` of the arrangement, beside a neighbour that matters. */
  ghost predicate Neighbourly(u: Usage, args: seq<string>, all: seq<Kind>, i: nat, t: nat) {
    |all| <= |args| && NewNeighbour(u, NextOf(args, i), NextOf(Arranged(args, all), t))
  }

  /** The first of the non-options comes after all that was taken. */
  lemma AfterTaken(args: seq<string>, all: seq<Kind>)
    requires Fits(args, all) && |all| == |args|
    ensures var f, t := Arranged(args, all), |Kept(all, all, false)|;
            && |f| == |args| && t <= |f| && (t < |f| ==> IsNonOption(f[t]))
  {
    NonOptionsLast(args, all);
    KeptAlike(args, all, false);
    KeptAlike(args, all, true);
    KeptSizes(args, all);
  }

  /** The kinds around an option that did not take the argument after it. */
  lemma KindsAround(u: Usage, args: seq<string>, kinds: seq<Kind>, seen: seq<Seen>)
    requires Fits(args, kinds) && Terminator !in kinds && !Classify(u, true, args, kinds, seen).fatal
    requires |kinds| < |args| && IsOption(args[|kinds|]) && !Handle(u, args[|kinds|], NextOf(args, |kinds|), seen).taken
    ensures var all := Classify(u, true, args, kinds, seen).kinds;
            && |kinds| < |all| <= |args| && Fits(args, all)
            && all[..|kinds|] == kinds && all[|kinds|] == AnOption
  {
    var more := kinds + [AnOption];
    ClassifyExtends(u, true, args, kinds, seen);
    FitsOne(args, kinds, AnOption);
    ClassifyExtends(u, true, args, more, Handle(u, args[|kinds|], NextOf(args, |kinds|), seen).seen);
    var all := Classify(u, true, args, kinds, seen).kinds;
    assert all[|kinds|] == all[..|more|][|kinds|];
  }

  /** The neighbour an option gets that did not take the argument after it. */
  lemma NeighbourOf(u: Usage, args: seq<string>, kinds: seq<Kind>, seen: seq<Seen>)
    requires AcceptsAll(u) && Fits(args, kinds) && Terminator !in kinds && !Classify(u, true, args, kinds, seen).fatal
    requires |kinds| < |args| && IsOption(args[|kinds|]) && !Handle(u, args[|kinds|], NextOf(args, |kinds|), seen).taken
    ensures var o := Classify(u, true, args, kinds, seen);
            Neighbourly(u, args, o.kinds, |kinds|, |Kept(kinds, kinds, false)|)
  {
    var i, all := |kinds|, Classify(u, true, args, kinds, seen).kinds;
    KindsAround(u, args, kinds, seen);
    PlaceOfTaken(args, all, i);
    var j := FirstTaken(all, i + 1);
    if j < |all| {
      TakenNeighbour(u, args, kinds, seen, j);
    } else {
      LastTaken(u, args, kinds, seen);
      assert all[..|all|] == all;
      KeptSizes(kinds, kinds);
      LastNeighbour(u, args, all, i, |Kept(kinds, kinds, false)|);
    }
  }

  /** After the last option the first non-option becomes the neighbour, if there is one. */
  lemma LastNeighbour(u: Usage, args: seq<string>, all: seq<Kind>, i: nat, t: nat)
    requires t + 1 == |Kept(all, all, false)| && t <= i
    requires i < |all| == |args| && Fits(args, all) && forall h :: i < h < |all| ==> all[h] == NonOption
    ensures Neighbourly(u, args, all, i, t)
  {
    AfterTaken(args, all);
    if i + 1 < |all| { assert FitsAt(args, all, i + 1); }
  }

  /** The next argument that was taken becomes the neighbour. */
  lemma TakenNeighbour(u: Usage, args: seq<string>, kinds: seq<Kind>, seen: seq<Seen>, j: nat)
    requires AcceptsAll(u) && Fits(args, kinds) && Terminator !in kinds && !Classify(u, true, args, kinds, seen).fatal
    requires var all := Classify(u, true, args, kinds, seen).kinds;
             && |kinds| < j < |all| <= |args| && Fits(args, all) && all[|kinds|] == AnOption && all[j] != NonOption
             && (forall h :: |kinds| < h < j ==> all[h] == NonOption)
             && |Kept(all[..j], all[..j], false)| == |Kept(kinds, kinds, false)| + 1
    ensures Neighbourly(u, args, Classify(u, true, args, kinds, seen).kinds, |kinds|, |Kept(kinds, kinds, false)|)
  {
    var i, all := |kinds|, Classify(u, true, args, kinds, seen).kinds;
    PlaceOfTaken(args, all, j);
    if j > i + 1 {
      assert FitsAt(args, all, j) && FitsAt(args, all, i + 1);
      PassedCanPass(u, args, kinds, seen, j);
    }
  }

  /** If only non-options follow an option, all arguments are classified. */
  lemma LastTaken(u: Usage, args: seq<string>, kinds: seq<Kind>, seen: seq<Seen>)
    requires Fits(args, kinds) && Terminator !in kinds && !Classify(u, true, args, kinds, seen).fatal
    requires var all := Classify(u, true, args, kinds, seen).kinds;
             && |kinds| < |all| && all[|kinds|] != Terminator
             && forall h :: |kinds| < h < |all| ==> all[h] == NonOption
    ensures |Classify(u, true, args, kinds, seen).kinds| == |args|
  {
    ClassifyExtends(u, true, args, kinds, seen);
    StopsWhere(u, true, args, kinds, seen);
  }

  lemma {:induction false} SteadyIsUnmoved(u: Usage, args: seq<string>, kinds: seq<Kind>, seen: seq<Seen>,
                                           f: seq<string>)
    requires AcceptsAll(u) && Steady(u)
    requires Fits(args, kinds) && Terminator !in kinds && !Classify(u, true, args, kinds, seen).fatal
    requires var o := Classify(u, true, args, kinds, seen); |o.kinds| <= |args| && f == Arranged(args, o.kinds)
    ensures Unmoved(u, true, args, f, kinds, seen)
    decreases |args| - |kinds|
  {
    if |kinds| < |args| {
      var param := args[|kinds|];
      if IsNonOption(param) {
        FitsOne(args, kinds, NonOption);
        SteadyIsUnmoved(u, args, kinds + [NonOption], seen, f);
      } else if !IsTerminator(param) {
        var next, other := NextOf(args, |kinds|), NextOf(f, |Kept(kinds, kinds, false)|);
        var handled := Handle(u, param, next, seen);
        FitsOne(args, kinds, AnOption);
        if handled.taken {
          HandleTakes(u, param, next, seen);
          FitsOne(args, kinds + [AnOption], Detached);
        } else {
          NeighbourOf(u, args, kinds, seen);
          SteadyAlike(u, param, next, other);
          AlikeAfter(u, param, next, other, seen);
        }
        SteadyIsUnmoved(u, args, Marked(kinds, handled.taken), handled.seen, f);
      }
    }
  }

  lemma SteadyAlike(u: Usage, param: string, next: Option<string>, other: Option<string>)
    requires Steady(u) && IsOption(param) && NewNeighbour(u, next, other)
    ensures Alike(u, param, next, other)
  {
    if next != other && next.None? {
      assert IsNonOption(other.value);
      assert Alike(u, param, None, Some(other.value));
    } else if next != other {
      assert Alike(u, param, Some(next.value), Some(other.value));
    }
  }

  // ---------------------------------------------------------------------------------------------
  // Only a steady parser is safe

  /** The vector is parsed again alike after it was arranged. */
  ghost predicate SafeAgain(u: Usage, args: seq<string>) {
    Passes(u, args) ==>
      var o := Classify(u, true, args, [], []);
      |o.kinds| <= |args| && Unmoved(u, true, args, Arranged(args, o.kinds), [], [])
  }

  /** What an option after one non-option is next to when it is the only thing arranged before that. */
  lemma OnlyOption(args: seq<string>, all: seq<Kind>)
    requires 2 <= |all| == |args| && all[0] == NonOption && all[1] == AnOption
    requires forall h :: 2 <= h < |all| ==> all[h] == NonOption
    ensures var f := Arranged(args, all);
            |f| == |args| && f[0] == args[1] && f[1] == args[0] && |Kept(all[..1], all[..1], false)| == 0
  {
    var f := Arranged(args, all);
    assert all[..1] == [NonOption] && [NonOption][..0] == [] && all[..2] == [NonOption, AnOption];
    var j := FirstTaken(all, 2);
    assert all[..|all|] == all;
    PlaceOfTaken(args, all, 1);
    KeptAlike(args, all, false);
    KeptSizes(args, all);
    KeptPrefix(args, all, 1, true);
    assert Kept(args, [NonOption], true) == [args[0]];
    assert Kept(args, all, true)[0] == args[0];
  }

  /** An option after a non-option is met first when the arranged vector is parsed again. */
  lemma MetFirst(u: Usage, args: seq<string>, f: seq<string>)
    requires |args| >= 2 && IsNonOption(args[0]) && IsOption(args[1]) && Unmoved(u, true, args, f, [], [])
    requires var h := Handle(u, args[1], NextOf(args, 1), []); h.Went? && !h.taken
    ensures Handle(u, args[1], NextOf(f, 0), []) == Handle(u, args[1], NextOf(args, 1), [])
  {
    assert [] + [NonOption] == [NonOption] && [NonOption][..0] == [];
    assert Unmoved(u, true, args, f, [NonOption], []);
    assert Kept([NonOption], [NonOption], false) == [];
  }

  lemma LastAlike(u: Usage, param: string, x: string)
    requires AcceptsAll(u) && IsOption(param) && IsNonOption(x) && SafeAgain(u, [x, param])
    ensures Alike(u, param, None, Some(x))
  {
    var h := Handle(u, param, None, []);
    if h.Went? && !h.taken {
      var args, all := [x, param], [NonOption, AnOption];
      SecondOption(u, args, h);
      assert Classify(u, true, args, all, h.seen) == Outcome(false, all, h.seen);
      OnlyOption(args, all);
      MetFirst(u, args, Arranged(args, all));
    }
  }

  lemma SecondOption(u: Usage, args: seq<string>, h: Handled)
    requires |args| >= 2 && IsNonOption(args[0]) && IsOption(args[1])
    requires h == Handle(u, args[1], NextOf(args, 1), []) && h.Went? && !h.taken
    ensures Classify(u, true, args, [], []) == Classify(u, true, args, [NonOption, AnOption], h.seen)
  {
    assert [] + [NonOption] == [NonOption] && Marked([NonOption], false) == [NonOption, AnOption];
    assert Classify(u, true, args, [NonOption], []) == Classify(u, true, args, [NonOption, AnOption], h.seen);
  }

  lemma MiddleAlike(u: Usage, param: string, x: string, y: string)
    requires AcceptsAll(u) && IsOption(param) && IsNonOption(x) && IsNonOption(y) && SafeAgain(u, [y, param, x])
    ensures Alike(u, param, Some(x), Some(y))
  {
    var h := Handle(u, param, Some(x), []);
    if h.Went? && !h.taken {
      var args, all := [y, param, x], [NonOption, AnOption, NonOption];
      SecondOption(u, args, h);
      LastNonOption(u, args, [NonOption, AnOption], h.seen);
      assert [NonOption, AnOption] + [NonOption] == all;
      OnlyOption(args, all);
      MetFirst(u, args, Arranged(args, all));
    }
  }

  lemma LastNonOption(u: Usage, args: seq<string>, kinds: seq<Kind>, seen: seq<Seen>)
    requires |args| == |kinds| + 1 && IsNonOption(args[|kinds|])
    ensures Classify(u, true, args, kinds, seen) == Outcome(false, kinds + [NonOption], seen)
  {
    assert Classify(u, true, args, kinds + [NonOption], seen) == Outcome(false, kinds + [NonOption], seen);
  }

  lemma BeforeAlike(u: Usage, param: string, x: string, y: string, rest: seq<string>)
    requires AcceptsAll(u) && IsOption(param) && IsNonOption(x) && !IsNonOption(y) && Passes(u, [y] + rest)
    requires SafeAgain(u, [param, x, y] + rest)
    ensures Alike(u, param, Some(x), Some(y))
  {
    var h := Handle(u, param, Some(x), []);
    if h.Went? && !h.taken {
      var args, two := [param, x, y] + rest, [AnOption, NonOption];
      assert Marked([], false) == [AnOption] && [AnOption] + [NonOption] == two;
      assert Classify(u, true, args, [], []) == Classify(u, true, args, [AnOption], h.seen);
      assert Classify(u, true, args, [AnOption], h.seen) == Classify(u, true, args, two, h.seen);
      assert args[2..] == [y] + rest;
      FailsFrom(u, args, two, h.seen, 2, [], []);
      assert FitsAt(args, two, 0) && FitsAt(args, two, 1);
      ThirdIsNext(u, args, h.seen);
      var o := Classify(u, true, args, two, h.seen);
      assert Unmoved(u, true, args, Arranged(args, o.kinds), [], []);
    }
  }

  /** An option, a non-option, and then something else: that comes next to the option. */
  lemma ThirdIsNext(u: Usage, args: seq<string>, seen: seq<Seen>)
    requires |args| >= 3 && Fits(args, [AnOption, NonOption]) && !IsNonOption(args[2])
    requires !Classify(u, true, args, [AnOption, NonOption], seen).fatal
    ensures var o := Classify(u, true, args, [AnOption, NonOption], seen);
            && |o.kinds| <= |args|
            && NextOf(Arranged(args, o.kinds), |Kept<Kind>([], [], false)|) == Some(args[2])
  {
    var two := [AnOption, NonOption];
    var all := Classify(u, true, args, two, seen).kinds;
    ClassifyExtends(u, true, args, two, seen);
    ThirdIsTaken(u, args, seen);
    assert all[..2] == two && two[..1] == [AnOption];
    var j := FirstTaken(all, 1);
    assert all[1] == two[1] && all[..1] == two[..1] && all[0] == two[0];
    PlaceOfTaken(args, all, 0);
    PlaceOfTaken(args, all, 2);
    assert all[..0] == [];
  }

  lemma ThirdIsTaken(u: Usage, args: seq<string>, seen: seq<Seen>)
    requires |args| >= 3 && Fits(args, [AnOption, NonOption]) && !IsNonOption(args[2])
    requires !Classify(u, true, args, [AnOption, NonOption], seen).fatal
    ensures var all := Classify(u, true, args, [AnOption, NonOption], seen).kinds;
            |all| > 2 && all[2] != NonOption && all[2] != Detached
  {
    var two := [AnOption, NonOption];
    var o := Classify(u, true, args, two, seen);
    if IsTerminator(args[2]) {
      assert o.kinds == two + [Terminator];
    } else {
      var h := Handle(u, args[2], NextOf(args, 2), seen);
      FitsOne(args, two, AnOption);
      if h.taken {
        HandleTakes(u, args[2], NextOf(args, 2), seen);
        FitsOne(args, two + [AnOption], Detached);
      }
      var more := Marked(two, h.taken);
      ClassifyExtends(u, true, args, more, h.seen);
      assert o.kinds[2] == o.kinds[..|more|][2] == AnOption;
    }
  }

  /** Checks that decide by the option alone are steady. */
  lemma DecidedIsSteady(u: Usage)
    requires DecidedByOption(u)
    ensures Steady(u)
  {
    forall param, next, other | IsOption(param) ensures Alike(u, param, next, other) {
      var handled := Handle(u, param, next, []);
      if handled.Went? && !handled.taken { DecidedHandle(u, param, next, other, []); }
    }
  }

  /**
   For an action that accepts every option: every vector that is parsed is parsed again alike after
   it was arranged, with either flag, exactly if the options are steady.
   */
  lemma ReparsedAlikeExactly(u: Usage)
    requires AcceptsAll(u)
    ensures Steady(u) <==> forall args :: SafeAgain(u, args)
    ensures Steady(u) <==> forall args, gnu :: FoundAgain(u, args, gnu)
  {
    if Steady(u) {
      forall args ensures SafeAgain(u, args) {
        if Passes(u, args) {
          ClassifyExtends(u, true, args, [], []);
          SteadyIsUnmoved(u, args, [], [], Arranged(args, Classify(u, true, args, [], []).kinds));
        }
      }
    }
    forall args, gnu ensures FoundAgain(u, args, gnu) <==> SafeAgain(u, args) {
      if Passes(u, args) { ReparsedAlike(u, gnu, args); }
    }
    if forall args, gnu :: FoundAgain(u, args, gnu) {
      forall args ensures SafeAgain(u, args) {
        assert FoundAgain(u, args, true);
      }
    }
    if forall args :: SafeAgain(u, args) {
      SafeIsSteady(u);
    }
  }

  /** The arranged vector gives the same options. */
  ghost predicate FoundAgain(u: Usage, args: seq<string>, gnu: bool) {
    Passes(u, args) ==>
      var o := Classify(u, true, args, [], []);
      && |o.kinds| <= |args|
      && var o' := Classify(u, gnu, Arranged(args, o.kinds), [], []);
         !o'.fatal && o'.seen == o.seen
  }

  lemma SafeIsSteady(u: Usage)
    requires AcceptsAll(u) && forall args :: SafeAgain(u, args)
    ensures Steady(u)
  {
    forall param, x, y | IsOption(param) && IsNonOption(x)
      ensures IsNonOption(y) ==> Alike(u, param, None, Some(x)) && Alike(u, param, Some(x), Some(y))
      ensures !IsNonOption(y) && CanPass(u, y) ==> Alike(u, param, Some(x), Some(y))
    {
      if IsNonOption(y) {
        LastAlike(u, param, x);
        MiddleAlike(u, param, x, y);
      } else if CanPass(u, y) {
        var rest: seq<string> :| Passes(u, [y] + rest);
        BeforeAlike(u, param, x, y, rest);
      }
    }
  }
}
