/**
 The definitions of a variable over time: when they changed, what was compiled for each interval,
 and how the interval of a time is found.
 */
module Timeline {
  import opened Constants

  /** Up to this many intervals are searched one by one. */
  const LINEAR_SEARCH_MAX_SIZE := 7

  /** A compiled group of definitions, valid from `start` to `end`; an end of -1 stands for no end. */
  datatype Compiled = Compiled(start: int, end: int, program: int)

  ghost predicate Increasing(times: seq<int>) {
    forall i, j :: 0 <= i < j < |times| ==> times[i] < times[j]
  }

  /** Change `i` is the greatest one not after `time`. */
  ghost predicate Governs(changes: seq<int>, i: int, time: int) {
    0 <= i < |changes| && changes[i] <= time && (i + 1 < |changes| ==> time < changes[i + 1])
  }

  /** The intervals between changes cover every time from the first change on, and no time twice. */
  lemma {:induction false} GovernedOnce(changes: seq<int>, time: int)
    requires Increasing(changes) && changes != []
    ensures time < changes[0] <==> !exists i :: Governs(changes, i, time)
    ensures forall i, j :: Governs(changes, i, time) && Governs(changes, j, time) ==> i == j
    decreases |changes|
  {
    var last := |changes| - 1;
    if time >= changes[last] {
      assert Governs(changes, last, time);
    } else if last > 0 {
      var fewer := changes[..last];
      GovernedOnce(fewer, time);
      forall i ensures Governs(changes, i, time) <==> Governs(fewer, i, time) {
      }
      if time >= changes[0] {
        var i :| Governs(fewer, i, time);
        assert Governs(changes, i, time);
      }
    }
    forall i, j | Governs(changes, i, time) && Governs(changes, j, time) ensures i == j {
      GovernsOrder(changes, i, j, time);
      GovernsOrder(changes, j, i, time);
    }
  }

  lemma GovernsOrder(changes: seq<int>, i: int, j: int, time: int)
    requires Increasing(changes) && Governs(changes, i, time) && Governs(changes, j, time)
    ensures j <= i
  {
  }

  function Middle(begin: int, end: int): (m: int)
    requires begin < end
    ensures begin <= m < end
  {
    begin + (end - begin) / 2
  }

  class BestfitGroup {
    /** What the definitions valid at a time compile to. */
    const compileInstant: int -> int
    var changes: seq<int>
    var evaluators: seq<Compiled>

    /** The first `n` intervals, as they are when the first `n` changes have been compiled. */
    ghost predicate CompiledUpTo(n: nat)
      reads this
    {
      && |evaluators| == n <= |changes|
      && (forall i :: 0 <= i < n ==>
            evaluators[i].start == changes[i] && evaluators[i].program == compileInstant(changes[i]))
      && (forall i :: 0 <= i < n - 1 ==> evaluators[i].end == changes[i + 1] - 1)
      && (n > 0 ==> evaluators[n - 1].end == -1)
    }

    ghost predicate Valid()
      reads this
    {
      Increasing(changes) && CompiledUpTo(|evaluators|)
    }

    constructor (compileInstant: int -> int)
      ensures Valid() && changes == [] && evaluators == [] && this.compileInstant == compileInstant
    {
      this.compileInstant := compileInstant;
      changes, evaluators := [], [];
    }

    /** Records that something changed; only a time after the last recorded one counts. */
    method Change(time: int)
      requires Valid()
      modifies this`changes
      ensures Valid()
      ensures changes == old(changes) +
                         if old(changes) == [] || old(changes)[|old(changes)| - 1] < time then [time] else []
    {
      if changes == [] || changes[|changes| - 1] < time {
        changes := changes + [time];
      }
    }

    /** Compiles what has changed since the last time, and ends the interval that was open. */
    method Compile()
      requires Valid()
      modifies this`evaluators
      ensures Valid() && CompiledUpTo(|changes|)
    {
      if |changes| > |evaluators| {
        var change := |evaluators|;
        while change != |changes|
          invariant change <= |changes| && CompiledUpTo(change)
          decreases |changes| - change
        {
          CompileChange(change);
          change := change + 1;
        }
      }
    }

    /** Compiles one change: the interval before it ends just before, and the new one is open. */
    method CompileChange(change: nat)
      requires change < |changes| && CompiledUpTo(change)
      modifies this`evaluators
      ensures CompiledUpTo(change + 1)
    {
      if change != 0 {
        evaluators := evaluators[change - 1 := evaluators[change - 1].(end := changes[change] - 1)];
      }
      evaluators := evaluators + [Compiled(changes[change], -1, compileInstant(changes[change]))];
    }

    /**
     Finds the interval of the time the context is at: the last one first, then one by one from the
     back if there are few, or by bisection. Before the first change there is none.
     */
    method Evaluate(dimtime: Constant) returns (program: Option<int>)
      requires Valid() && changes != []
      modifies this`evaluators
      ensures Valid()
      ensures var time := if dimtime.Intmp? then dimtime.n else 0;
              && (program.None? <==> time < changes[0])
              && forall i :: Governs(changes, i, time) ==> program == Some(compileInstant(changes[i]))
    {
      Compile();
      var time := if dimtime.Intmp? then dimtime.n else 0;
      var found := Find(time);
      GovernedOnce(changes, time);
      if found == -1 {
        program := None;
      } else {
        assert Governs(changes, found, time);
        program := Some(evaluators[found].program);
      }
    }

    /** The position of the interval of a time, or -1. */
    method Find(time: int) returns (found: int)
      requires Valid() && |evaluators| == |changes| > 0
      ensures if time < changes[0] then found == -1 else Governs(changes, found, time)
    {
      var last := evaluators[|evaluators| - 1];
      if time >= last.start && (last.end == -1 || time <= last.end) {
        return |evaluators| - 1;
      }
      if time > last.start || time < evaluators[0].start {
        return -1;
      }
      if |evaluators| <= LINEAR_SEARCH_MAX_SIZE {
        found := SearchBackwards(time);
      } else {
        found := Bisect(time);
      }
    }

    method SearchBackwards(time: int) returns (current: int)
      requires Valid() && |evaluators| == |changes| > 0
      requires changes[0] <= time < changes[|changes| - 1]
      ensures Governs(changes, current, time)
    {
      current := |evaluators| - 1;
      while current >= 0
        invariant -1 <= current < |evaluators|
        invariant time < changes[if current + 1 < |changes| then current + 1 else |changes| - 1]
        decreases current
      {
        if time >= evaluators[current].start && time <= evaluators[current].end {
          assert evaluators[current].end != -1 || current < |changes| - 1;
          return;
        }
        current := current - 1;
      }
    }

    method Bisect(time: int) returns (current: int)
      requires Valid() && |evaluators| == |changes| > 0
      requires changes[0] <= time < changes[|changes| - 1]
      ensures Governs(changes, current, time)
    {
      var begin, end := 0, |evaluators| - 1;
      current := Middle(begin, end);
      while !(time >= evaluators[current].start && time <= evaluators[current].end)
        invariant 0 <= begin <= current < end <= |changes| - 1
        invariant changes[begin] <= time < changes[end]
        decreases end - begin
      {
        if time < evaluators[current].start {
          end := current;
        } else {
          begin := current + 1;
        }
        current := Middle(begin, end);
      }
    }
  }
}
