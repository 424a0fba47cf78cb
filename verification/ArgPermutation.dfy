/**
 Parsing a command line in place: options are moved to the front, the other arguments keep their
 order behind them.
 */
module ArgPermutation {
  import opened Constants

  // ---------------------------------------------------------------------------------------------
  // Options

  type Id = nat

  datatype Status = ARG_NONE | ARG_OK | ARG_IGNORE | ARG_ILLEGAL

  /** An option as it is handed to the action. */
  datatype Seen = Seen(id: Id, name: string, arg: Option<string>)

  /**
   What the parser is set up with: the descriptors found for a long name and for a short character,
   the dummy descriptor for unknown options, the check of an option's argument, and whether the
   action accepts an option after the options performed so far.
   */
  datatype Usage = Usage(long: string -> Option<Id>, short: char -> Option<Id>, unknown: Option<Id>,
                         check: (Id, string, Option<string>) -> Status, perform: (seq<Seen>, Seen) -> bool,
                         singleMinusLongopt: bool)

  predicate IsNonOption(param: string) {
    |param| == 0 || param[0] != '-' || |param| == 1
  }

  predicate IsTerminator(param: string) {
    |param| == 2 && param[0] == '-' && param[1] == '-'
  }

  /** The text after the first equals sign of a long option. */
  function Attached(name: string): Option<string> {
    if name == "" then None else if name[0] == '=' then Some(name[1..]) else Attached(name[1..])
  }

  /** How one option, or one argument full of short options, ends. */
  datatype Handled =
    | Stopped                        // parsing fails here
    | StoppedTaken                   // parsing fails after the option was moved because it took the next argument
    | Went(seen: seq<Seen>, taken: bool)

  /** One option was looked up: check it, and perform it. The flag says that no further short option is possible. */
  function Settle(u: Usage, found: Option<Id>, name: string, arg: Option<string>, detached: bool,
                  seen: seq<Seen>): (Handled, bool) {
    var descriptor := if found.Some? then found else u.unknown;
    if descriptor.None? then (Went(seen, false), false) else
      var status := u.check(descriptor.value, name, arg);
      if status.ARG_ILLEGAL? then (Stopped, true)
      else
        var taken := status.ARG_OK? && detached && arg.Some?;
        var option := Seen(descriptor.value, name, if status.ARG_OK? then arg else None);
        if !u.perform(seen, option) then (if taken then StoppedTaken else Stopped, true)
        else (Went(seen + [option], taken), status.ARG_OK?)
  }

  /** The short options of an argument, from a position on. */
  function Group(u: Usage, param: string, at: nat, next: Option<string>, seen: seq<Seen>): Handled
    decreases |param| - at
  {
    if at >= |param| then Went(seen, false) else
      var detached := at + 1 == |param|;
      var arg := if detached then next else Some(param[at + 1..]);
      var (handled, last) := Settle(u, u.short(param[at]), param[at..], arg, detached, seen);
      if last || !handled.Went? then handled else Group(u, param, at + 1, next, handled.seen)
  }

  function LongOption(u: Usage, param: string, name: string, next: Option<string>, seen: seq<Seen>): Handled {
    var arg := Attached(name);
    Settle(u, u.long(name), param, if arg.Some? then arg else next, arg.None?, seen).0
  }

  /** An option argument, given the argument after it. */
  function Handle(u: Usage, param: string, next: Option<string>, seen: seq<Seen>): Handled
    requires !IsNonOption(param)
  {
    if param[1] == '-' then LongOption(u, param, param[2..], next, seen)
    else if u.singleMinusLongopt && u.long(param[1..]).Some? then LongOption(u, param, param[1..], next, seen)
    else Group(u, param, 1, next, seen)
  }

  // ---------------------------------------------------------------------------------------------
  // Which text is the argument of an option

  /** An attached argument is the text after the first equals sign, if there is one. */
  lemma {:induction false} AttachedIs(name: string)
    ensures Attached(name).None? <==> '=' !in name
    ensures forall i :: 0 <= i < |name| && name[i] == '=' && '=' !in name[..i] ==> Attached(name) == Some(name[i + 1..])
  {
    if name != "" && name[0] != '=' {
      AttachedIs(name[1..]);
      forall i | 0 <= i < |name| && name[i] == '=' && '=' !in name[..i] ensures Attached(name) == Some(name[i + 1..]) {
        assert name[1..][..i - 1] == name[1..i] && name[1..][i - 1] == '=';
        assert forall c :: c in name[1..i] ==> c in name[..i];
        assert name[1..][i..] == name[i + 1..];
      }
    }
  }

  /** What is offered to a long option: the text after the first equals sign, or else the next argument. */
  ghost predicate OfferedLong(name: string, next: Option<string>, arg: Option<string>) {
    if '=' in name then
      exists i :: 0 <= i < |name| && name[i] == '=' && '=' !in name[..i] && arg == Some(name[i + 1..])
    else arg == next
  }

  /** What is offered to a short option: the text after its character, or else the next argument. */
  ghost predicate OfferedShort(param: string, at: nat, next: Option<string>, arg: Option<string>)
    requires at < |param|
  {
    if at + 1 < |param| then arg == Some(param[at + 1..]) else arg == next
  }

  /** An option gets what it was offered exactly if its check accepts that. */
  ghost predicate Gets(u: Usage, o: Seen, found: Option<Id>, name: string, offered: Option<string>) {
    && (found.Some? ==> o.id == found.value) && (found.None? ==> u.unknown == Some(o.id))
    && o.name == name
    && !u.check(o.id, name, offered).ARG_ILLEGAL?
    && o.arg == if u.check(o.id, name, offered).ARG_OK? then offered else None
  }

  /** The option is a long one, of this name, and got the right argument. */
  ghost predicate LongRight(u: Usage, param: string, name: string, next: Option<string>, o: Seen) {
    exists arg :: OfferedLong(name, next, arg) && Gets(u, o, u.long(name), param, arg)
  }

  /** The option is the short one at a place, and got the right argument. */
  ghost predicate ShortRight(u: Usage, param: string, at: nat, next: Option<string>, o: Seen)
    requires at < |param|
  {
    exists arg :: OfferedShort(param, at, next, arg) && Gets(u, o, u.short(param[at]), param[at..], arg)
  }

  /** Nothing is looked up for the character at a place. */
  predicate NoDescriptor(u: Usage, param: string, p: nat)
    requires p < |param|
  {
    u.short(param[p]).None? && u.unknown.None?
  }

  /**
   The places of the short options that were performed: in order, and with nothing that has a
   descriptor left out before the first one that got an argument, which is the last one.
   */
  ghost predicate GroupRight(u: Usage, param: string, at: nat, next: Option<string>, options: seq<Seen>,
                             places: seq<nat>) {
    && |places| == |options|
    && EachRight(u, param, at, next, options, places)
    && InOrder(options, places)
    && NoneLeftOut(u, param, at, options, places)
  }

  ghost predicate EachRight(u: Usage, param: string, at: nat, next: Option<string>, options: seq<Seen>,
                            places: seq<nat>)
    requires |places| == |options|
  {
    forall i :: 0 <= i < |places| ==> at <= places[i] < |param| && ShortRight(u, param, places[i], next, options[i])
  }

  ghost predicate InOrder(options: seq<Seen>, places: seq<nat>)
    requires |places| == |options|
  {
    forall i, j :: 0 <= i < j < |places| ==> places[i] < places[j] && options[i].arg.None?
  }

  ghost predicate NoneLeftOut(u: Usage, param: string, at: nat, options: seq<Seen>, places: seq<nat>)
    requires |places| == |options|
  {
    forall p :: at <= p < |param| && p !in places ==> NoDescriptor(u, param, p) || EndsBefore(options, places, p)
  }

  /** The last option got an argument, and stands before a place. */
  ghost predicate EndsBefore(options: seq<Seen>, places: seq<nat>, p: nat)
    requires |places| == |options|
  {
    places != [] && places[|places| - 1] < p && options[|options| - 1].arg.Some?
  }

  lemma SettleRight(u: Usage, found: Option<Id>, name: string, arg: Option<string>, detached: bool, seen: seq<Seen>)
    requires Settle(u, found, name, arg, detached, seen).0.Went?
    ensures var (handled, last) := Settle(u, found, name, arg, detached, seen);
            if found.None? && u.unknown.None? then handled == Went(seen, false) && !last
            else
              && |handled.seen| == |seen| + 1 && handled.seen[..|seen|] == seen
              && Gets(u, handled.seen[|seen|], found, name, arg)
              && (last <==> u.check(handled.seen[|seen|].id, name, arg).ARG_OK?)
              && (handled.taken <==> last && detached && arg.Some?)
  {
  }

  /** The next argument is taken exactly by an option at the last place that got it. */
  ghost predicate TakenRight(param: string, options: seq<Seen>, places: seq<nat>, taken: bool)
    requires |options| == |places|
  {
    taken <==> places != [] && places[|places| - 1] + 1 == |param| && options[|options| - 1].arg.Some?
  }

  /** The first place has no descriptor. */
  lemma GroupPassing(u: Usage, param: string, at: nat, next: Option<string>, options: seq<Seen>, places: seq<nat>)
    requires at < |param| && NoDescriptor(u, param, at) && GroupRight(u, param, at + 1, next, options, places)
    ensures GroupRight(u, param, at, next, options, places)
  {
  }

  /** The first place has an option without argument. */
  lemma GroupGoingOn(u: Usage, param: string, at: nat, next: Option<string>, o: Seen, options: seq<Seen>,
                     places: seq<nat>)
    requires at < |param| && o.arg.None? && ShortRight(u, param, at, next, o)
    requires GroupRight(u, param, at + 1, next, options, places)
    ensures GroupRight(u, param, at, next, [o] + options, [at] + places)
  {
    EachMore(u, param, at, next, o, options, places);
    OrderMore(u, param, at, next, o, options, places);
    forall p | at <= p < |param| && p !in [at] + places
      ensures NoDescriptor(u, param, p) || EndsBefore([o] + options, [at] + places, p)
    {
      NotAmong(at, places, p);
      assert NoDescriptor(u, param, p) || EndsBefore(options, places, p);
      if places != [] {
        assert ([at] + places)[|places|] == places[|places| - 1];
        assert ([o] + options)[|options|] == options[|options| - 1];
      }
    }
  }

  lemma EachMore(u: Usage, param: string, at: nat, next: Option<string>, o: Seen, options: seq<Seen>, places: seq<nat>)
    requires at < |param| && ShortRight(u, param, at, next, o)
    requires |places| == |options| && EachRight(u, param, at + 1, next, options, places)
    ensures EachRight(u, param, at, next, [o] + options, [at] + places)
  {
    forall i | 0 <= i <= |places|
      ensures at <= ([at] + places)[i] < |param| && ShortRight(u, param, ([at] + places)[i], next, ([o] + options)[i])
    {
      if i > 0 { assert ([at] + places)[i] == places[i - 1] && ([o] + options)[i] == options[i - 1]; }
    }
  }

  lemma OrderMore(u: Usage, param: string, at: nat, next: Option<string>, o: Seen, options: seq<Seen>, places: seq<nat>)
    requires o.arg.None? && |places| == |options|
    requires EachRight(u, param, at + 1, next, options, places) && InOrder(options, places)
    ensures InOrder([o] + options, [at] + places)
  {
    forall i, j | 0 <= i < j <= |places|
      ensures ([at] + places)[i] < ([at] + places)[j] && ([o] + options)[i].arg.None?
    {
      assert ([at] + places)[j] == places[j - 1];
      if i > 0 { assert ([at] + places)[i] == places[i - 1] && ([o] + options)[i] == options[i - 1]; }
    }
  }

  lemma NotAmong(at: nat, places: seq<nat>, p: nat)
    requires p !in [at] + places
    ensures p != at && p !in places
  {
    assert ([at] + places)[0] == at;
    forall q | q in places ensures q in [at] + places {
      var i :| 0 <= i < |places| && places[i] == q;
      assert ([at] + places)[i + 1] == q;
    }
  }

  /** The options of a group, each with the right argument. */
  lemma {:induction false} GroupIsRight(u: Usage, param: string, at: nat, next: Option<string>, seen: seq<Seen>)
    returns (options: seq<Seen>, places: seq<nat>)
    requires Group(u, param, at, next, seen).Went?
    ensures Group(u, param, at, next, seen).seen == seen + options
    ensures GroupRight(u, param, at, next, options, places)
    ensures TakenRight(param, options, places, Group(u, param, at, next, seen).taken)
    decreases |param| - at
  {
    options, places := [], [];
    if at < |param| {
      var detached := at + 1 == |param|;
      var arg := if detached then next else Some(param[at + 1..]);
      var (settled, last) := Settle(u, u.short(param[at]), param[at..], arg, detached, seen);
      if last {
        options, places := LastIsRight(u, param, at, next, seen);
      } else {
        var more, further := GroupIsRight(u, param, at + 1, next, settled.seen);
        options, places := FirstIsRight(u, param, at, next, seen, settled.seen, more, further);
        assert TakenRight(param, more, further, settled.taken || Group(u, param, at + 1, next, settled.seen).taken);
      }
    }
  }

  /** The first place ends the group. */
  lemma LastIsRight(u: Usage, param: string, at: nat, next: Option<string>, seen: seq<Seen>)
    returns (options: seq<Seen>, places: seq<nat>)
    requires at < |param|
    requires var arg := if at + 1 == |param| then next else Some(param[at + 1..]);
             var (handled, last) := Settle(u, u.short(param[at]), param[at..], arg, at + 1 == |param|, seen);
             last && handled.Went?
    ensures var arg := if at + 1 == |param| then next else Some(param[at + 1..]);
            var handled := Settle(u, u.short(param[at]), param[at..], arg, at + 1 == |param|, seen).0;
            && handled.seen == seen + options
            && GroupRight(u, param, at, next, options, places)
            && TakenRight(param, options, places, handled.taken)
  {
    var detached := at + 1 == |param|;
    var arg := if detached then next else Some(param[at + 1..]);
    SettleRight(u, u.short(param[at]), param[at..], arg, detached, seen);
    var handled := Settle(u, u.short(param[at]), param[at..], arg, detached, seen).0;
    var o := handled.seen[|seen|];
    assert ShortRight(u, param, at, next, o);
    GroupEnding(u, param, at, next, o);
    options, places := [o], [at];
    assert handled.seen == seen + [o];
  }

  /** The first place does not end the group. */
  lemma FirstIsRight(u: Usage, param: string, at: nat, next: Option<string>, seen: seq<Seen>, settled: seq<Seen>,
                     more: seq<Seen>, further: seq<nat>)
    returns (options: seq<Seen>, places: seq<nat>)
    requires at < |param| && GroupRight(u, param, at + 1, next, more, further)
    requires var arg := if at + 1 == |param| then next else Some(param[at + 1..]);
             var (handled, last) := Settle(u, u.short(param[at]), param[at..], arg, at + 1 == |param|, seen);
             !last && handled.Went? && handled.seen == settled
    ensures settled + more == seen + options
    ensures GroupRight(u, param, at, next, options, places)
    ensures forall taken :: TakenRight(param, more, further, taken) ==> TakenRight(param, options, places, taken)
  {
    var detached := at + 1 == |param|;
    var arg := if detached then next else Some(param[at + 1..]);
    SettleRight(u, u.short(param[at]), param[at..], arg, detached, seen);
    if NoDescriptor(u, param, at) {
      GroupPassing(u, param, at, next, more, further);
      options, places := more, further;
    } else {
      var o := settled[|seen|];
      assert ShortRight(u, param, at, next, o);
      options, places := [o] + more, [at] + further;
      OneMoreOption(seen, o, settled, more);
      GroupGoingOn(u, param, at, next, o, more, further);
      AllTakenMore(param, at, o, more, further);
    }
  }

  lemma OneMoreOption(seen: seq<Seen>, o: Seen, settled: seq<Seen>, more: seq<Seen>)
    requires |settled| == |seen| + 1 && settled[..|seen|] == seen && settled[|seen|] == o
    ensures settled + more == seen + ([o] + more)
  {
    assert settled == seen + [o];
  }

  lemma AllTakenMore(param: string, at: nat, o: Seen, more: seq<Seen>, further: seq<nat>)
    requires at < |param| && o.arg.None? && |more| == |further|
    ensures forall taken ::
              TakenRight(param, more, further, taken) ==> TakenRight(param, [o] + more, [at] + further, taken)
  {
    forall taken | TakenRight(param, more, further, taken)
      ensures TakenRight(param, [o] + more, [at] + further, taken)
    {
      TakenMore(param, at, o, more, further, taken);
    }
  }

  lemma TakenMore(param: string, at: nat, o: Seen, more: seq<Seen>, further: seq<nat>, taken: bool)
    requires at < |param| && o.arg.None? && |more| == |further| && TakenRight(param, more, further, taken)
    ensures TakenRight(param, [o] + more, [at] + further, taken)
  {
    if further != [] {
      assert ([at] + further)[|further|] == further[|further| - 1] && ([o] + more)[|more|] == more[|more| - 1];
    }
  }

  /** The first place has an option whose check accepted what it was offered. */
  lemma GroupEnding(u: Usage, param: string, at: nat, next: Option<string>, o: Seen)
    requires at < |param| && ShortRight(u, param, at, next, o) && (at + 1 < |param| ==> o.arg.Some?)
    ensures GroupRight(u, param, at, next, [o], [at])
  {
  }

  /** What an argument was handled as: one long option, or a group of short ones, each with the right argument. */
  ghost predicate HandledRight(u: Usage, param: string, next: Option<string>, options: seq<Seen>, taken: bool)
    requires !IsNonOption(param)
  {
    if param[1] == '-' || (u.singleMinusLongopt && u.long(param[1..]).Some?) then
      var name := if param[1] == '-' then param[2..] else param[1..];
      if u.long(name).None? && u.unknown.None? then options == [] && !taken
      else
        && |options| == 1 && LongRight(u, param, name, next, options[0])
        && (taken <==> '=' !in name && options[0].arg.Some?)
    else
      exists places :: GroupRight(u, param, 1, next, options, places) && TakenRight(param, options, places, taken)
  }

  /** Every option of an argument gets the text attached to it, or the next argument, as its check decides. */
  lemma HandleIsRight(u: Usage, param: string, next: Option<string>, seen: seq<Seen>) returns (options: seq<Seen>)
    requires !IsNonOption(param) && Handle(u, param, next, seen).Went?
    ensures Handle(u, param, next, seen).seen == seen + options
    ensures HandledRight(u, param, next, options, Handle(u, param, next, seen).taken)
  {
    if param[1] == '-' || (u.singleMinusLongopt && u.long(param[1..]).Some?) {
      options := LongIsRight(u, param, if param[1] == '-' then param[2..] else param[1..], next, seen);
    } else {
      var places;
      options, places := GroupIsRight(u, param, 1, next, seen);
    }
  }

  lemma LongIsRight(u: Usage, param: string, name: string, next: Option<string>, seen: seq<Seen>)
    returns (options: seq<Seen>)
    requires LongOption(u, param, name, next, seen).Went?
    ensures LongOption(u, param, name, next, seen).seen == seen + options
    ensures var taken := LongOption(u, param, name, next, seen).taken;
            if u.long(name).None? && u.unknown.None? then options == [] && !taken
            else
              && |options| == 1 && LongRight(u, param, name, next, options[0])
              && (taken <==> '=' !in name && options[0].arg.Some?)
  {
    AttachedIs(name);
    var attached := Attached(name);
    var arg := if attached.Some? then attached else next;
    SettleRight(u, u.long(name), param, arg, attached.None?, seen);
    var handled := LongOption(u, param, name, next, seen);
    if '=' in name { FirstEquals(name); }
    assert OfferedLong(name, next, arg);
    options := handled.seen[|seen|..];
    assert handled.seen == seen + options;
  }

  lemma {:induction false} FirstEquals(name: string)
    requires '=' in name
    ensures exists i :: 0 <= i < |name| && name[i] == '=' && '=' !in name[..i]
  {
    if name[0] == '=' {
      assert name[..0] == "";
    } else {
      FirstEquals(name[1..]);
      var i :| 0 <= i < |name[1..]| && name[1..][i] == '=' && '=' !in name[1..][..i];
      assert name[i + 1] == '=' && name[..i + 1] == [name[0]] + name[1..][..i];
    }
  }

  /** Every option was accepted by the action after those before it. */
  ghost predicate Accepted(u: Usage, before: nat, seen: seq<Seen>) {
    forall i :: before <= i < |seen| ==> u.perform(seen[..i], seen[i])
  }

  lemma {:induction false} GroupIsAccepted(u: Usage, param: string, at: nat, next: Option<string>, seen: seq<Seen>)
    requires Group(u, param, at, next, seen).Went?
    ensures var after := Group(u, param, at, next, seen).seen;
            |seen| <= |after| && after[..|seen|] == seen && Accepted(u, |seen|, after)
    decreases |param| - at
  {
    if at < |param| {
      var detached := at + 1 == |param|;
      var arg := if detached then next else Some(param[at + 1..]);
      SettleIsAccepted(u, u.short(param[at]), param[at..], arg, detached, seen);
      var (settled, last) := Settle(u, u.short(param[at]), param[at..], arg, detached, seen);
      if !last {
        GroupIsAccepted(u, param, at + 1, next, settled.seen);
        AcceptedMore(u, seen, settled.seen, Group(u, param, at + 1, next, settled.seen).seen);
      }
    }
  }

  lemma SettleIsAccepted(u: Usage, found: Option<Id>, name: string, arg: Option<string>, detached: bool,
                         seen: seq<Seen>)
    requires Settle(u, found, name, arg, detached, seen).0.Went?
    ensures var after := Settle(u, found, name, arg, detached, seen).0.seen;
            |seen| <= |after| <= |seen| + 1 && after[..|seen|] == seen && Accepted(u, |seen|, after)
  {
  }

  lemma AcceptedMore(u: Usage, seen: seq<Seen>, settled: seq<Seen>, after: seq<Seen>)
    requires |seen| <= |settled| <= |after| && settled[..|seen|] == seen && after[..|settled|] == settled
    requires Accepted(u, |seen|, settled) && Accepted(u, |settled|, after)
    ensures after[..|seen|] == seen && Accepted(u, |seen|, after)
  {
    forall i | |seen| <= i < |settled| ensures u.perform(after[..i], after[i]) {
      assert after[..i] == settled[..i] && after[i] == settled[i];
    }
  }

  lemma HandleIsAccepted(u: Usage, param: string, next: Option<string>, seen: seq<Seen>)
    requires !IsNonOption(param) && Handle(u, param, next, seen).Went?
    ensures Accepted(u, |seen|, Handle(u, param, next, seen).seen)
  {
    if param[1] == '-' || (u.singleMinusLongopt && u.long(param[1..]).Some?) {
      var name := if param[1] == '-' then param[2..] else param[1..];
      var arg := Attached(name);
      SettleIsAccepted(u, u.long(name), param, if arg.Some? then arg else next, arg.None?, seen);
    } else {
      GroupIsAccepted(u, param, 1, next, seen);
    }
  }

  /** A reason to fail: a check that finds an argument illegal, or an action that refuses an option. */
  ghost predicate Refused(u: Usage, name: string, arg: Option<string>) {
    || (exists id: Id :: u.check(id, name, arg).ARG_ILLEGAL?)
    || (exists seen: seq<Seen>, o: Seen :: o.name == name && !u.perform(seen, o))
  }

  lemma SettleFailsForReason(u: Usage, found: Option<Id>, name: string, arg: Option<string>, detached: bool,
                             seen: seq<Seen>)
    requires !Settle(u, found, name, arg, detached, seen).0.Went?
    ensures Refused(u, name, arg)
  {
    var descriptor := if found.Some? then found else u.unknown;
    var id := descriptor.value;
    var o := Seen(id, name, if u.check(id, name, arg).ARG_OK? then arg else None);
    assert u.check(id, name, arg).ARG_ILLEGAL? || !u.perform(seen, o);
  }

  /** Parsing fails at a group only for one of its options, offered what belongs to it. */
  lemma {:induction false} GroupFailsForReason(u: Usage, param: string, at: nat, next: Option<string>, seen: seq<Seen>)
    requires !Group(u, param, at, next, seen).Went?
    ensures exists p, arg :: at <= p < |param| && OfferedShort(param, p, next, arg) && Refused(u, param[p..], arg)
    decreases |param| - at
  {
    var detached := at + 1 == |param|;
    var arg := if detached then next else Some(param[at + 1..]);
    var (settled, last) := Settle(u, u.short(param[at]), param[at..], arg, detached, seen);
    if !settled.Went? {
      SettleFailsForReason(u, u.short(param[at]), param[at..], arg, detached, seen);
      assert OfferedShort(param, at, next, arg);
    } else {
      GroupFailsForReason(u, param, at + 1, next, settled.seen);
      var p, offered :|
        at + 1 <= p < |param| && OfferedShort(param, p, next, offered) && Refused(u, param[p..], offered);
    }
  }

  /** A lone minus is no option, two are the terminator, and anything longer that starts with a minus is an option. */
  lemma WhatLooksLikeAnOption(rest: string)
    ensures IsNonOption("") && IsNonOption("-") && !IsNonOption("--") && IsTerminator("--")
    ensures rest != "" ==> !IsNonOption("-" + rest) && (IsTerminator("-" + rest) <==> rest == "-")
    ensures rest != "" && rest[0] != '-' ==> IsNonOption(rest)
  {
  }

  // ---------------------------------------------------------------------------------------------
  // What each argument is

  datatype Kind = AnOption | Detached | Terminator | NonOption

  datatype Outcome = Outcome(fatal: bool, kinds: seq<Kind>, seen: seq<Seen>)

  /** What the arguments are, from left to right, when the kinds of the first ones are known. */
  function Classify(u: Usage, gnu: bool, args: seq<string>, kinds: seq<Kind>, seen: seq<Seen>): Outcome
    decreases |args| - |kinds|
  {
    if |kinds| >= |args| then Outcome(false, kinds, seen) else
      var param := args[|kinds|];
      if IsNonOption(param) then
        if gnu then Classify(u, gnu, args, kinds + [NonOption], seen) else Outcome(false, kinds, seen)
      else if IsTerminator(param) then Outcome(false, kinds + [Terminator], seen)
      else
        match Handle(u, param, NextOf(args, |kinds|), seen)
        case Stopped => Outcome(true, kinds, seen)
        case StoppedTaken => Outcome(true, kinds + [AnOption], seen)
        case Went(after, taken) =>
          Classify(u, gnu, args, Marked(kinds, taken), after)
  }

  function Marked(kinds: seq<Kind>, taken: bool): seq<Kind> {
    if taken then kinds + [AnOption] + [Detached] else kinds + [AnOption]
  }

  function NextOf(args: seq<string>, i: nat): Option<string> {
    if i + 1 < |args| then Some(args[i + 1]) else None
  }

  lemma {:induction false} ClassifyExtends(u: Usage, gnu: bool, args: seq<string>, kinds: seq<Kind>, seen: seq<Seen>)
    requires Fits(args, kinds) && Terminator !in kinds
    ensures var o := Classify(u, gnu, args, kinds, seen);
            |kinds| <= |o.kinds| <= |args| && o.kinds[..|kinds|] == kinds && Fits(args, o.kinds)
    decreases |args| - |kinds|
  {
    if |kinds| < |args| {
      var param := args[|kinds|];
      if IsNonOption(param) {
        FitsOne(args, kinds, NonOption);
        if gnu { ClassifyExtends(u, gnu, args, kinds + [NonOption], seen); }
      } else if IsTerminator(param) {
        FitsOne(args, kinds, Terminator);
      } else {
        var handled := Handle(u, param, NextOf(args, |kinds|), seen);
        FitsOne(args, kinds, AnOption);
        if handled.Went? {
          if handled.taken {
            HandleTakes(u, param, NextOf(args, |kinds|), seen);
            FitsOne(args, kinds + [AnOption], Detached);
          }
          ClassifyExtends(u, gnu, args, Marked(kinds, handled.taken), handled.seen);
        }
      }
    }
  }

  /** Each kind says what its argument looks like, and only an option takes the argument after it. */
  ghost predicate Fits(args: seq<string>, kinds: seq<Kind>) {
    |kinds| <= |args| && forall i :: 0 <= i < |kinds| ==> FitsAt(args, kinds, i)
  }

  ghost predicate FitsAt(args: seq<string>, kinds: seq<Kind>, i: nat)
    requires i < |kinds| <= |args|
  {
    match kinds[i]
    case NonOption => IsNonOption(args[i])
    case Terminator => IsTerminator(args[i]) && i == |kinds| - 1
    case AnOption => !IsNonOption(args[i]) && !IsTerminator(args[i])
    case Detached => i > 0 && kinds[i - 1] == AnOption
  }

  lemma FitsOne(args: seq<string>, kinds: seq<Kind>, kind: Kind)
    requires Fits(args, kinds) && Terminator !in kinds && |kinds| < |args|
    requires FitsAt(args, kinds + [kind], |kinds|)
    ensures Fits(args, kinds + [kind])
  {
    forall i | 0 <= i < |kinds| ensures FitsAt(args, kinds + [kind], i) {
      assert FitsAt(args, kinds, i);
    }
  }

  lemma {:induction false} GroupTakes(u: Usage, param: string, at: nat, next: Option<string>, seen: seq<Seen>)
    requires Group(u, param, at, next, seen).Went? && Group(u, param, at, next, seen).taken
    ensures next.Some?
    decreases |param| - at
  {
    var detached := at + 1 == |param|;
    var arg := if detached then next else Some(param[at + 1..]);
    var (handled, last) := Settle(u, u.short(param[at]), param[at..], arg, detached, seen);
    if !last { GroupTakes(u, param, at + 1, next, handled.seen); }
  }

  /** An argument is taken only if there is one. */
  lemma HandleTakes(u: Usage, param: string, next: Option<string>, seen: seq<Seen>)
    requires !IsNonOption(param) && Handle(u, param, next, seen).Went? && Handle(u, param, next, seen).taken
    ensures next.Some?
  {
    if param[1] != '-' && !(u.singleMinusLongopt && u.long(param[1..]).Some?) { GroupTakes(u, param, 1, next, seen); }
  }

  // ---------------------------------------------------------------------------------------------
  // The order of the arguments

  /** The items whose kind is, or is not, that of a non-option; in order. */
  function Kept<T>(s: seq<T>, kinds: seq<Kind>, nonOptions: bool): (r: seq<T>)
    requires |kinds| <= |s|
    decreases |kinds|
  {
    if kinds == [] then [] else
      var n := |kinds| - 1;
      Kept(s, kinds[..n], nonOptions) + if (kinds[n] == NonOption) == nonOptions then [s[n]] else []
  }

  /** Options and what belongs to them, then the non-options, then the rest. */
  function Arranged<T>(s: seq<T>, kinds: seq<Kind>): seq<T>
    requires |kinds| <= |s|
  {
    Kept(s, kinds, false) + Kept(s, kinds, true) + s[|kinds|..]
  }

  /** Item `at` is moved before the `count` items ahead of it. */
  function Shifted<T>(s: seq<T>, at: nat, count: nat): seq<T>
    requires count <= at < |s|
  {
    s[..at - count] + [s[at]] + s[at - count..at] + s[at + 1..]
  }

  lemma {:induction false} KeptSizes<T>(s: seq<T>, kinds: seq<Kind>)
    requires |kinds| <= |s|
    ensures |Kept(s, kinds, false)| + |Kept(s, kinds, true)| == |kinds|
    decreases |kinds|
  {
    if kinds != [] { KeptSizes(s, kinds[..|kinds| - 1]); }
  }

  lemma {:induction false} KeptItems<T>(s: seq<T>, kinds: seq<Kind>)
    requires |kinds| <= |s|
    ensures multiset(Kept(s, kinds, false)) + multiset(Kept(s, kinds, true)) == multiset(s[..|kinds|])
    decreases |kinds|
  {
    if kinds != [] {
      var n := |kinds| - 1;
      KeptItems(s, kinds[..n]);
      assert s[..n + 1] == s[..n] + [s[n]];
    }
  }

  /** The arrangement loses and invents nothing. */
  lemma ArrangedIsPermutation<T>(s: seq<T>, kinds: seq<Kind>)
    requires |kinds| <= |s|
    ensures multiset(Arranged(s, kinds)) == multiset(s)
  {
    KeptItems(s, kinds);
    assert s == s[..|kinds|] + s[|kinds|..];
  }

  /** What was at two places keeps its order if it is of one sort: kept items stand at ascending places. */
  lemma {:induction false} KeptPlaces<T>(s: seq<T>, kinds: seq<Kind>, nonOptions: bool) returns (places: seq<nat>)
    requires |kinds| <= |s|
    ensures |places| == |Kept(s, kinds, nonOptions)|
    ensures forall j :: 0 <= j < |places| ==> places[j] < |kinds| && Kept(s, kinds, nonOptions)[j] == s[places[j]]
    ensures forall j, h :: 0 <= j < h < |places| ==> places[j] < places[h]
    ensures forall i: nat :: i in places <==> i < |kinds| && (kinds[i] == NonOption) == nonOptions
    decreases |kinds|
  {
    if kinds == [] {
      places := [];
    } else {
      var n := |kinds| - 1;
      places := KeptPlaces(s, kinds[..n], nonOptions);
      if (kinds[n] == NonOption) == nonOptions { places := places + [n]; }
    }
  }

  /** Passing over a non-option leaves the arrangement alone. */
  lemma ArrangedPassing<T>(s: seq<T>, kinds: seq<Kind>)
    requires |kinds| < |s|
    ensures Arranged(s, kinds + [NonOption]) == Arranged(s, kinds)
    ensures |Kept(s, kinds + [NonOption], true)| == |Kept(s, kinds, true)| + 1
    ensures |Arranged(s, kinds)| == |s|
    ensures Arranged(s, kinds)[|kinds|..] == s[|kinds|..]
  {
    KeptSizes(s, kinds);
    assert (kinds + [NonOption])[..|kinds|] == kinds;
    assert s[|kinds|..] == [s[|kinds|]] + s[|kinds| + 1..];
  }

  /** Shifting anything else before the non-options keeps the arrangement. */
  lemma ArrangedShifting<T>(s: seq<T>, kinds: seq<Kind>, kind: Kind)
    requires |kinds| < |s| && kind != NonOption
    ensures |Kept(s, kinds, true)| <= |kinds| < |Arranged(s, kinds)| == |s|
    ensures Shifted(Arranged(s, kinds), |kinds|, |Kept(s, kinds, true)|) == Arranged(s, kinds + [kind])
    ensures |Kept(s, kinds + [kind], true)| == |Kept(s, kinds, true)|
    ensures Arranged(s, kinds)[|kinds|..] == s[|kinds|..]
  {
    KeptSizes(s, kinds);
    assert (kinds + [kind])[..|kinds|] == kinds;
    ShiftedParts(Kept(s, kinds, false), Kept(s, kinds, true), s[|kinds|..]);
    assert s[|kinds|..][1..] == s[|kinds| + 1..];
  }

  lemma ShiftedParts<T>(x: seq<T>, y: seq<T>, z: seq<T>)
    requires z != []
    ensures Shifted(x + y + z, |x| + |y|, |y|) == x + [z[0]] + y + z[1..]
    ensures (x + y + z)[|x| + |y|..] == z
  {
    var a := x + y + z;
    assert a[..|x|] == x && a[|x|..|x| + |y|] == y && a[|x| + |y| + 1..] == z[1..] && a[|x| + |y|] == z[0];
  }

  /** Moving one place further is one more swap. */
  lemma ShiftedNext<T>(s: seq<T>, at: nat, i: nat)
    requires i < at < |s|
    ensures var now := Shifted(s, at, i);
            |now| == |s| && Shifted(s, at, i + 1) == now[at - i := now[at - i - 1]][at - i - 1 := now[at - i]]
  {
    var now, next := Shifted(s, at, i), Shifted(s, at, i + 1);
    forall h | 0 <= h < |s| ensures next[h] == now[at - i := now[at - i - 1]][at - i - 1 := now[at - i]][h] {
    }
  }

  /** Moves one element of the vector before the elements ahead of it. */
  method Shift<T>(args: array<T>, at: nat, count: nat)
    requires count <= at < args.Length
    modifies args
    ensures args[..] == Shifted(old(args[..]), at, count)
  {
    var i := 0;
    while i < count
      invariant 0 <= i <= count
      invariant args[..] == Shifted(old(args[..]), at, i)
    {
      ShiftedNext(old(args[..]), at, i);
      var temp := args[at - i];
      args[at - i] := args[at - i - 1];
      args[at - i - 1] := temp;
      i := i + 1;
    }
  }

  // ---------------------------------------------------------------------------------------------
  // The parser

  type Args = seq<Option<string>>

  /** How many arguments there are: a null pointer ends the vector early, a negative number means only that does. */
  function Count(v: Args, numargs: int): (n: nat)
    requires Countable(v, numargs)
    ensures n <= |v| && (numargs >= 0 ==> n <= numargs)
    ensures forall i :: 0 <= i < n ==> v[i].Some?
    ensures n != numargs ==> n < |v| && v[n] == None
  {
    CountFrom(v, numargs, 0)
  }

  function CountFrom(v: Args, numargs: int, i: nat): (n: nat)
    requires Countable(v, numargs) && i <= |v| && (numargs >= 0 ==> i <= numargs)
    requires forall j :: 0 <= j < i ==> v[j].Some?
    ensures i <= n <= |v| && (numargs >= 0 ==> n <= numargs)
    ensures forall j :: 0 <= j < n ==> v[j].Some?
    ensures n != numargs ==> n < |v| && v[n] == None
    decreases |v| - i
  {
    if i == numargs || v[i] == None then i else CountFrom(v, numargs, i + 1)
  }

  /** The caller gives a number the vector has room for, or a vector with a null pointer. */
  predicate Countable(v: Args, numargs: int) {
    0 <= numargs <= |v| || None in v
  }

  function Texts(v: Args, n: nat): seq<string>
    requires n <= |v| && forall i :: 0 <= i < n ==> v[i].Some?
  {
    seq(n, i requires 0 <= i < n => v[i].value)
  }

  function Taken(handled: Handled): bool {
    handled.StoppedTaken? || (handled.Went? && handled.taken)
  }

  /** The vector after an option was settled: the option is shifted away if it took the next argument. */
  ghost predicate ShiftedIf(taken: bool, was: Args, is': Args, pos: nat, at: nat, nonops: nat)
    requires nonops <= pos < |was|
  {
    at == (if taken then pos + 1 else pos) && is' == if taken then Shifted(was, pos, nonops) else was
  }

  /** Checks and performs one option; a detached argument that it takes is skipped at once. */
  method SettleOption(u: Usage, args: array<Option<string>>, pos: nat, nonops: nat,
                      found: Option<Id>, name: string, optarg: Option<string>, detached: bool, seen: seq<Seen>)
    returns (fatal: bool, at: nat, performed: seq<Seen>, last: bool)
    requires nonops <= pos < args.Length
    modifies args
    ensures var (handled, over) := Settle(u, found, name, optarg, detached, seen);
            && fatal == !handled.Went?
            && ShiftedIf(Taken(handled), old(args[..]), args[..], pos, at, nonops)
            && (handled.Went? ==> performed == handled.seen && last == over)
  {
    at, performed, last := pos, seen, false;
    var descriptor := if found.Some? then found else u.unknown;
    if descriptor.Some? {
      var arg := optarg;
      var status := u.check(descriptor.value, name, arg);
      if status.ARG_ILLEGAL? {
        return true, at, performed, last;
      }
      if status.ARG_OK? {
        if arg.Some? && detached {
          Shift(args, pos, nonops);
          at := pos + 1;
        }
        last := true;
      } else {
        arg := None;
      }
      var option := Seen(descriptor.value, name, arg);
      if !u.perform(performed, option) {
        return true, at, performed, last;
      }
      performed := performed + [option];
    }
    fatal := false;
  }

  /** What is still to be done in an argument, when its options before `place` are done. */
  function Pending(u: Usage, param: string, wholeName: bool, place: nat, next: Option<string>, seen: seq<Seen>): Handled
    requires !IsNonOption(param)
  {
    if wholeName then Handle(u, param, next, seen) else Group(u, param, place + 1, next, seen)
  }

  /** Looks up the option at hand: a whole long name first, where that is possible, else the next character. */
  method LookUp(u: Usage, param: string, shortOptions: bool, tryLong: bool, place: nat, next: Option<string>,
                ghost seen: seq<Seen>)
    returns (ended: bool, found: Option<Id>, optarg: Option<string>, detached: bool, handleShortOptions: bool,
            newPlace: nat)
    requires !IsNonOption(param) && place < |param| && (!shortOptions || tryLong ==> place == 0)
    requires !shortOptions || tryLong ==> shortOptions == (param[1] != '-') && tryLong == u.singleMinusLongopt
    ensures newPlace <= |param| && (ended <==> newPlace == |param|)
    ensures handleShortOptions ==> newPlace == place + 1
    ensures var handled := Pending(u, param, !shortOptions || tryLong, place, next, seen);
            if ended then handled == Went(seen, false)
            else
              var (settled, last) := Settle(u, found, param[newPlace..], optarg, detached, seen);
              handled == if !handleShortOptions || last || !settled.Went? then settled
                         else Group(u, param, newPlace + 1, next, settled.seen)
  {
    handleShortOptions, newPlace := shortOptions, place;
    found, optarg, detached := None, None, false;
    if !handleShortOptions || tryLong {
      var longoptName := if param[1] != '-' then param[1..] else param[2..];
      found := u.long(longoptName);
      if found.Some? { handleShortOptions := false; }
      optarg := Attached(longoptName);
      detached := optarg.None?;
      if detached { optarg := next; }
      assert param[0..] == param;
    }
    if handleShortOptions {
      newPlace := place + 1;
      if newPlace < |param| {
        found := u.short(param[newPlace]);
        detached := newPlace + 1 == |param|;
        optarg := if detached then next else Some(param[newPlace + 1..]);
      }
    }
    ended := newPlace == |param|;
  }

  /** The loop over the short options in a group; it runs once for a long option. */
  method OptionLoop(u: Usage, args: array<Option<string>>, pos: nat, nonops: nat, haveMoreArgs: bool, seen: seq<Seen>)
    returns (fatal: bool, at: nat, performed: seq<Seen>)
    requires nonops <= pos < args.Length && args[pos].Some? && !IsNonOption(args[pos].value)
    requires haveMoreArgs ==> pos + 1 < args.Length
    modifies args
    ensures var handled := Handle(u, old(args[pos].value), if haveMoreArgs then old(args[pos + 1]) else None, seen);
            && fatal == !handled.Went?
            && ShiftedIf(Taken(handled), old(args[..]), args[..], pos, at, nonops)
            && (handled.Went? ==> performed == handled.seen)
  {
    var param := args[pos].value;
    var next := if haveMoreArgs then args[pos + 1] else None;
    ghost var handled := Handle(u, param, next, seen);
    var handleShortOptions := param[1] != '-';
    var trySingleMinusLongopt := u.singleMinusLongopt;
    var place := 0;
    at, performed, fatal := pos, seen, false;
    while true
      invariant !fatal && place < |param| && at == pos && args[..] == old(args[..])
      invariant handled == Pending(u, param, !handleShortOptions || trySingleMinusLongopt, place, next, performed)
      invariant !handleShortOptions || trySingleMinusLongopt ==>
                  handleShortOptions == (param[1] != '-') && trySingleMinusLongopt == u.singleMinusLongopt && place == 0
      decreases |param| - place
    {
      var ended, found, optarg, detached, last;
      ended, found, optarg, detached, handleShortOptions, place :=
        LookUp(u, param, handleShortOptions, trySingleMinusLongopt, place, next, performed);
      trySingleMinusLongopt := false;
      if ended { return; }
      fatal, at, performed, last := SettleOption(u, args, pos, nonops, found, param[place..], optarg, detached,
          performed);
      if fatal || last || !handleShortOptions { return; }
    }
  }

  /**
   Handles an option argument: what its options from left to right do is done, and each of them gets
   the text attached to it, or the next argument, as its check decides.
   */
  method HandleOption(u: Usage, args: array<Option<string>>, pos: nat, nonops: nat, haveMoreArgs: bool, seen: seq<Seen>)
    returns (fatal: bool, at: nat, performed: seq<Seen>)
    requires nonops <= pos < args.Length && args[pos].Some? && !IsNonOption(args[pos].value)
    requires haveMoreArgs ==> pos + 1 < args.Length
    modifies args
    ensures var handled := Handle(u, old(args[pos].value), if haveMoreArgs then old(args[pos + 1]) else None, seen);
            && fatal == !handled.Went?
            && ShiftedIf(Taken(handled), old(args[..]), args[..], pos, at, nonops)
            && (handled.Went? ==> performed == handled.seen)
    ensures !fatal ==>
              var next := if haveMoreArgs then old(args[pos + 1]) else None;
              exists options ::
                performed == seen + options && HandledRight(u, old(args[pos].value), next, options, at > pos)
    ensures !fatal ==> Accepted(u, |seen|, performed)
  {
    ghost var param, next := args[pos].value, if haveMoreArgs then args[pos + 1] else None;
    fatal, at, performed := OptionLoop(u, args, pos, nonops, haveMoreArgs, seen);
    if !fatal {
      ghost var options := HandleIsRight(u, param, next, seen);
      HandleIsAccepted(u, param, next, seen);
    }
  }

  /** Where the parser stands: the vector is arranged, and what follows is classified from here. */
  ghost predicate Standing(u: Usage, gnu: bool, v: Args, numargs: int, now: Args, left: int, nonops: nat,
                           kinds: seq<Kind>, performed: seq<Seen>)
    requires Countable(v, numargs)
  {
    var n := Count(v, numargs);
    && |kinds| <= n && nonops == |Kept(v, kinds, true)| <= |kinds|
    && now == Arranged(v, kinds) && |now| == |v| && now[|kinds|..] == v[|kinds|..]
    && left == (if numargs < 0 then numargs else numargs - |kinds|)
    && Classify(u, gnu, Texts(v, n), kinds, performed) == Classify(u, gnu, Texts(v, n), [], [])
  }

  /** The loop goes on exactly while there are arguments, and sees the next one exactly if it is there. */
  lemma StandingAt(u: Usage, gnu: bool, v: Args, numargs: int, now: Args, left: int, nonops: nat,
                   kinds: seq<Kind>, performed: seq<Seen>)
    requires Countable(v, numargs) && Standing(u, gnu, v, numargs, now, left, nonops, kinds, performed)
    ensures var n, i := Count(v, numargs), |kinds|;
            && (left != 0 ==> i < |v| && now[i] == v[i])
            && (left != 0 && now[i].Some? <==> i < n)
            && (i < n && (left > 1 || left < 0) ==> i + 1 < |v|)
            && (i < n ==> NextOf(Texts(v, n), i) == if left > 1 || left < 0 then now[i + 1] else None)
  {
    var n, i := Count(v, numargs), |kinds|;
    if left != 0 { assert i < |v|; }
    forall j | i <= j < |v| ensures now[j] == v[j] {
      assert now[i..][j - i] == v[i..][j - i];
    }
  }

  /** Parsing is over, and this is what the argument vector looks like. */
  ghost predicate Ends(u: Usage, gnu: bool, v: Args, numargs: int, now: Args, o: Outcome)
    requires Countable(v, numargs)
  {
    && o == Classify(u, gnu, Texts(v, Count(v, numargs)), [], [])
    && |o.kinds| <= Count(v, numargs) && now == Arranged(v, o.kinds)
  }

  /** The next argument is a non-option. */
  lemma PassNonOption(u: Usage, gnu: bool, v: Args, numargs: int, now: Args, left: int, nonops: nat,
                      kinds: seq<Kind>, performed: seq<Seen>)
    requires Countable(v, numargs) && Standing(u, gnu, v, numargs, now, left, nonops, kinds, performed)
    requires |kinds| < Count(v, numargs) && IsNonOption(v[|kinds|].value)
    ensures gnu ==>
              var left' := if left > 0 then left - 1 else left;
              Standing(u, gnu, v, numargs, now, left', nonops + 1, kinds + [NonOption], performed)
    ensures !gnu ==> Ends(u, gnu, v, numargs, now, Outcome(false, kinds, performed))
  {
    ArrangedPassing(v, kinds);
    if gnu {
      assert now[|kinds| + 1..] == now[|kinds|..][1..];
      assert v[|kinds| + 1..] == v[|kinds|..][1..];
    }
  }

  /** Something else was shifted before the non-options. */
  lemma ShiftOne(v: Args, now: Args, kinds: seq<Kind>, kind: Kind)
    requires |kinds| < |v| && now == Arranged(v, kinds) && kind != NonOption
    ensures |Kept(v, kinds, true)| <= |kinds| < |now| && |now| == |v|
    ensures var next := Shifted(now, |kinds|, |Kept(v, kinds, true)|);
            next == Arranged(v, kinds + [kind]) && next[|kinds| + 1..] == v[|kinds| + 1..]
    ensures |Kept(v, kinds + [kind], true)| == |Kept(v, kinds, true)|
  {
    ArrangedShifting(v, kinds, kind);
    KeptSizes(v, kinds + [kind]);
  }

  /** The terminator is shifted, and ends the parsing. */
  lemma PassTerminator(u: Usage, gnu: bool, v: Args, numargs: int, now: Args, left: int, nonops: nat,
                       kinds: seq<Kind>, performed: seq<Seen>)
    requires Countable(v, numargs) && Standing(u, gnu, v, numargs, now, left, nonops, kinds, performed)
    requires |kinds| < Count(v, numargs) && IsTerminator(v[|kinds|].value)
    ensures nonops <= |kinds| < |now| && nonops == |Kept(v, kinds + [Terminator], true)|
    ensures left == if numargs < 0 then numargs else numargs - |kinds|
    ensures Ends(u, gnu, v, numargs, Shifted(now, |kinds|, nonops), Outcome(false, kinds + [Terminator], performed))
  {
    ShiftOne(v, now, kinds, Terminator);
  }

  /** Nothing is left. */
  lemma PassEnd(u: Usage, gnu: bool, v: Args, numargs: int, now: Args, left: int, nonops: nat, kinds: seq<Kind>,
                performed: seq<Seen>)
    requires Countable(v, numargs) && Standing(u, gnu, v, numargs, now, left, nonops, kinds, performed)
    requires |kinds| == Count(v, numargs)
    ensures Ends(u, gnu, v, numargs, now, Outcome(false, kinds, performed))
  {
  }

  /** One option argument: the vector afterwards, when the option itself is shifted as well. */
  lemma PassOption(u: Usage, gnu: bool, v: Args, numargs: int, now: Args, left: int, nonops: nat,
                   kinds: seq<Kind>, performed: seq<Seen>, after: Args, at: nat)
    requires Countable(v, numargs) && Standing(u, gnu, v, numargs, now, left, nonops, kinds, performed)
    requires |kinds| < Count(v, numargs)
    requires !IsNonOption(v[|kinds|].value) && !IsTerminator(v[|kinds|].value)
    requires ShiftedIf(Taken(HandledHere(u, v, numargs, kinds, performed)), now, after, |kinds|, at, nonops)
    ensures var handled := HandledHere(u, v, numargs, kinds, performed);
            && (!handled.Went? ==>
                  Ends(u, gnu, v, numargs, after,
                      Outcome(true, if handled.Stopped? then kinds else kinds + [AnOption], performed)))
            && (handled.Went? ==>
                  var kinds' := Marked(kinds, handled.taken);
                  var left' := if left > 0 then left - (|kinds'| - |kinds|) else left;
                  && at < |after| && nonops <= at && at == |kinds'| - 1
                  && Standing(u, gnu, v, numargs, Shifted(after, at, nonops), left', nonops, kinds', handled.seen))
  {
    ClassifyOption(u, gnu, v, numargs, kinds, performed);
    PassShifts(u, v, numargs, now, nonops, kinds, performed, after, at);
  }

  /** The vector before and after the option itself is shifted. */
  lemma PassShifts(u: Usage, v: Args, numargs: int, now: Args, nonops: nat, kinds: seq<Kind>, performed: seq<Seen>,
                   after: Args, at: nat)
    requires Countable(v, numargs) && |kinds| < Count(v, numargs)
    requires !IsNonOption(v[|kinds|].value) && |now| == |v|
    requires now == Arranged(v, kinds) && nonops == |Kept(v, kinds, true)| <= |kinds|
    requires ShiftedIf(Taken(HandledHere(u, v, numargs, kinds, performed)), now, after, |kinds|, at, nonops)
    ensures var handled := HandledHere(u, v, numargs, kinds, performed);
            && after == Arranged(v, if Taken(handled) then kinds + [AnOption] else kinds)
            && (handled.Went? ==>
                  |Marked(kinds, handled.taken)| <= Count(v, numargs) &&
                  ShiftsTo(v, after, at, nonops, Marked(kinds, handled.taken)))
  {
    var handled := HandledHere(u, v, numargs, kinds, performed);
    ShiftOne(v, now, kinds, AnOption);
    if handled.Went? && handled.taken {
      HandleTakes(u, v[|kinds|].value, NextOf(Texts(v, Count(v, numargs)), |kinds|), performed);
      PassTaken(v, after, at, nonops, kinds);
    }
  }

  /** One more shift arranges the vector by these kinds. */
  ghost predicate ShiftsTo(v: Args, now: Args, at: nat, nonops: nat, kinds: seq<Kind>)
    requires |kinds| <= |v|
  {
    && at == |kinds| - 1 < |now| && nonops <= at
    && nonops == |Kept(v, kinds, true)|
    && Shifted(now, at, nonops) == Arranged(v, kinds) && |Shifted(now, at, nonops)| == |v|
    && Shifted(now, at, nonops)[|kinds|..] == v[|kinds|..]
  }

  lemma PassTaken(v: Args, after: Args, at: nat, nonops: nat, kinds: seq<Kind>)
    requires |kinds| + 1 < |v| && at == |kinds| + 1
    requires nonops == |Kept(v, kinds, true)| <= |kinds| && |Kept(v, kinds + [AnOption], true)| == nonops
    requires after == Arranged(v, kinds + [AnOption])
    ensures ShiftsTo(v, after, at, nonops, Marked(kinds, true))
  {
    ShiftOne(v, after, kinds + [AnOption], Detached);
  }

  lemma ClassifyOption(u: Usage, gnu: bool, v: Args, numargs: int, kinds: seq<Kind>, performed: seq<Seen>)
    requires Countable(v, numargs) && |kinds| < Count(v, numargs)
    requires !IsNonOption(v[|kinds|].value) && !IsTerminator(v[|kinds|].value)
    ensures var handled := HandledHere(u, v, numargs, kinds, performed);
            Classify(u, gnu, Texts(v, Count(v, numargs)), kinds, performed) ==
            match handled
            case Stopped => Outcome(true, kinds, performed)
            case StoppedTaken => Outcome(true, kinds + [AnOption], performed)
            case Went(after, taken) => Classify(u, gnu, Texts(v, Count(v, numargs)), Marked(kinds, taken), after)
  {
  }

  function HandledHere(u: Usage, v: Args, numargs: int, kinds: seq<Kind>, performed: seq<Seen>): Handled
    requires Countable(v, numargs) && |kinds| < Count(v, numargs) && !IsNonOption(v[|kinds|].value)
  {
    Handle(u, v[|kinds|].value, NextOf(Texts(v, Count(v, numargs)), |kinds|), performed)
  }

  /** An option argument, and whatever it takes, is moved before the non-options. */
  method TakeOption(u: Usage, gnu: bool, args: array<Option<string>>, at: nat, nonops: nat, left: int,
                    performed: seq<Seen>, ghost v: Args, ghost numargs: int, ghost kinds: seq<Kind>)
    returns (fatal: bool, next: nat, left': int, performed': seq<Seen>, ghost kinds': seq<Kind>)
    requires Countable(v, numargs) && Standing(u, gnu, v, numargs, args[..], left, nonops, kinds, performed)
    requires at == |kinds| < Count(v, numargs) && left != 0 && at < args.Length && args[at].Some?
    requires !IsNonOption(args[at].value) && !IsTerminator(args[at].value)
    modifies args
    ensures fatal ==> Ends(u, gnu, v, numargs, args[..], Outcome(true, kinds', performed))
    ensures !fatal ==>
              next == |kinds'| > at && Standing(u, gnu, v, numargs, args[..], left', nonops, kinds', performed')
  {
    StandingAt(u, gnu, v, numargs, args[..], left, nonops, kinds, performed);
    ghost var now, handled := args[..], HandledHere(u, v, numargs, kinds, performed);
    fatal, next, performed' := HandleOption(u, args, at, nonops, left > 1 || left < 0, performed);
    PassOption(u, gnu, v, numargs, now, left, nonops, kinds, performed, args[..], next);
    left' := left;
    if fatal {
      kinds' := if handled.StoppedTaken? then kinds + [AnOption] else kinds;
    } else {
      kinds' := Marked(kinds, handled.taken);
      Shift(args, next, nonops);
      next := next + 1;
      if left > 0 { left' := left - (next - at); }
    }
  }

  /** The parsing loop, up to the argument that ends it. */
  method ParseOptions(u: Usage, gnu: bool, args: array<Option<string>>, numargs: int)
    returns (fatal: bool, at: nat, nonops: nat, left: int, performed: seq<Seen>, ghost kinds: seq<Kind>)
    requires Countable(args[..], numargs)
    modifies args
    ensures Ends(u, gnu, old(args[..]), numargs, args[..], Outcome(fatal, kinds, performed))
    ensures !fatal ==>
              && at == |kinds| && nonops == |Kept(old(args[..]), kinds, true)|
              && left == (if numargs < 0 then numargs else numargs - at)
  {
    ghost var v := args[..];
    at, nonops, left, performed, kinds, fatal := 0, 0, numargs, [], [], false;
    while true
      invariant !fatal && at == |kinds| && Standing(u, gnu, v, numargs, args[..], left, nonops, kinds, performed)
      decreases Count(v, numargs) - |kinds|
    {
      StandingAt(u, gnu, v, numargs, args[..], left, nonops, kinds, performed);
      if left == 0 || args[at] == None {
        PassEnd(u, gnu, v, numargs, args[..], left, nonops, kinds, performed);
        return;
      }
      var param := args[at].value;
      if IsNonOption(param) {
        PassNonOption(u, gnu, v, numargs, args[..], left, nonops, kinds, performed);
        if !gnu { return; }
        nonops, at, kinds := nonops + 1, at + 1, kinds + [NonOption];
        if left > 0 { left := left - 1; }
      } else if IsTerminator(param) {
        PassTerminator(u, gnu, v, numargs, args[..], left, nonops, kinds, performed);
        Shift(args, at, nonops);
        at, kinds := at + 1, kinds + [Terminator];
        if left > 0 { left := left - 1; }
        return;
      } else {
        var next, left', more;
        ghost var kinds';
        fatal, next, left', more, kinds' := TakeOption(u, gnu, args, at, nonops, left, performed, v, numargs, kinds);
        kinds := kinds';
        if fatal { return; }
        at, left, performed := next, left', more;
      }
    }
  }

  /**
   Parses the options, and tells the action at the end how many arguments remain and where they
   start. Parsing succeeds if no option failed and the action says so.
   */
  method Workhorse(u: Usage, gnu: bool, args: array?<Option<string>>, numargs: int, finished: (nat, Args) -> bool)
    returns (ok: bool, fatal: bool, count: nat, start: nat, performed: seq<Seen>, ghost kinds: seq<Kind>)
    requires args != null ==> Countable(args[..], numargs)
    modifies args
    ensures args == null ==> !fatal && count == 0 && start == 0 && performed == [] && ok == finished(0, [])
    ensures args != null ==>
              && Ends(u, gnu, old(args[..]), numargs, args[..], Outcome(fatal, kinds, performed))
              && multiset(args[..]) == multiset(old(args[..]))
              && (fatal ==> !ok)
              && (!fatal ==>
                    && start == |Kept(old(args[..]), kinds, false)| <= args.Length
                    && count == Remaining(old(args[..]), numargs, kinds)
                    && ok == finished(count, args[start..]))
  {
    if args == null {
      return finished(0, []), false, 0, 0, [], [];
    }
    ghost var v := args[..];
    var at, nonops, left;
    fatal, at, nonops, left, performed, kinds := ParseOptions(u, gnu, args, numargs);
    ArrangedIsPermutation(v, kinds);
    KeptSizes(v, kinds);
    start, count := at, 0;
    ok := !fatal;
    if fatal { return; }
    start := at - nonops;
    AfterKinds(v, kinds);
    var rest := CountRest(args, at, left, v, numargs);
    count := rest + nonops;
    ok := finished(count, args[start..]);
  }

  /** Counts the arguments that were not looked at. */
  method CountRest(args: array<Option<string>>, at: nat, left: int, ghost v: Args, ghost numargs: int)
    returns (rest: nat)
    requires Countable(v, numargs) && at <= Count(v, numargs) && args.Length == |v|
    requires forall i :: at <= i < |v| ==> args[i] == v[i]
    requires left == if numargs < 0 then numargs else numargs - at
    ensures rest == if numargs < 0 || at == Count(v, numargs) then Count(v, numargs) - at else numargs - at
  {
    rest := if left > 0 && args[at] != None then left else 0;
    if left < 0 {
      while args[at + rest] != None
        invariant rest <= Count(v, numargs) - at
        decreases Count(v, numargs) - at - rest
      {
        rest := rest + 1;
      }
    }
  }

  lemma AfterKinds(v: Args, kinds: seq<Kind>)
    requires |kinds| <= |v|
    ensures |Arranged(v, kinds)| == |v|
    ensures forall i :: |kinds| <= i < |v| ==> Arranged(v, kinds)[i] == v[i]
  {
    KeptSizes(v, kinds);
  }

  /** The number of arguments handed over as non-options. */
  ghost function Remaining(v: Args, numargs: int, kinds: seq<Kind>): int
    requires Countable(v, numargs) && |kinds| <= |v|
  {
    var all := if numargs < 0 || |kinds| == Count(v, numargs) then Count(v, numargs) else numargs;
    all - |Kept(v, kinds, false)|
  }

  lemma ArrangedParts<T>(s: seq<T>, kinds: seq<Kind>, n: nat)
    requires |kinds| <= n <= |s|
    ensures var start := |Kept(s, kinds, false)|;
            && start <= n <= |Arranged(s, kinds)|
            && Arranged(s, kinds)[..start] == Kept(s, kinds, false)
            && Arranged(s, kinds)[start..n] == Kept(s, kinds, true) + s[|kinds|..n]
  {
    KeptSizes(s, kinds);
    var x, y, z := Kept(s, kinds, false), Kept(s, kinds, true), s[|kinds|..];
    Slices(x, y, z, n - |kinds|);
    assert Arranged(s, kinds) == x + y + z;
    assert z[..n - |kinds|] == s[|kinds|..n];
  }

  lemma Slices<T>(x: seq<T>, y: seq<T>, z: seq<T>, m: nat)
    requires m <= |z|
    ensures (x + y + z)[..|x|] == x && (x + y + z)[|x|..|x| + |y| + m] == y + z[..m]
  {
  }

  /**
   What is handed over is the non-options in order and what was not looked at, exactly unless the
   given number is too large and parsing stopped early.
   */
  lemma HandsOverExactly(v: Args, numargs: int, kinds: seq<Kind>)
    requires Countable(v, numargs) && |kinds| <= Count(v, numargs)
    ensures var n, start := Count(v, numargs), |Kept(v, kinds, false)|;
            && start <= n <= |Arranged(v, kinds)|
            && Arranged(v, kinds)[..start] == Kept(v, kinds, false)
            && Arranged(v, kinds)[start..n] == Kept(v, kinds, true) + v[|kinds|..n]
            && (Remaining(v, numargs, kinds) == n - start <==> numargs <= n || |kinds| == n)
  {
    ArrangedParts(v, kinds, Count(v, numargs));
  }

  /** A vector of one argument, announced as three: the first non-option ends the parsing, and three are handed over. */
  lemma TooLargeNumberStays(u: Usage)
    ensures var v: Args := [Some("x"), None];
            && Countable(v, 3) && Count(v, 3) == 1
            && Classify(u, false, Texts(v, 1), [], []) == Outcome(false, [], [])
            && Remaining(v, 3, []) == 3
  {
    var v: Args := [Some("x"), None];
    assert v[1] == None && Count(v, 3) == CountFrom(v, 3, 0) == CountFrom(v, 3, 1);
    assert IsNonOption(Texts(v, 1)[0]);
  }

  /** Where parsing ends if nothing is wrong. */
  lemma {:induction false} StopsWhere(u: Usage, gnu: bool, args: seq<string>, kinds: seq<Kind>, seen: seq<Seen>)
    requires |kinds| <= |args| && !Classify(u, gnu, args, kinds, seen).fatal && (!gnu ==> NonOption !in kinds)
    ensures var o := Classify(u, gnu, args, kinds, seen);
            && (|o.kinds| >= |args|
                || (o.kinds != [] && o.kinds[|o.kinds| - 1] == Terminator)
                || (!gnu && IsNonOption(args[|o.kinds|])))
            && (!gnu ==> NonOption !in o.kinds)
    decreases |args| - |kinds|
  {
    if |kinds| < |args| {
      var param := args[|kinds|];
      if IsNonOption(param) {
        if gnu { StopsWhere(u, gnu, args, kinds + [NonOption], seen); }
      } else if !IsTerminator(param) {
        var handled := Handle(u, param, NextOf(args, |kinds|), seen);
        if handled.taken { HandleTakes(u, param, NextOf(args, |kinds|), seen); }
        StopsWhere(u, gnu, args, Marked(kinds, handled.taken), handled.seen);
      }
    }
  }

  // ---------------------------------------------------------------------------------------------
  // Parsing what was arranged

  /** Every option that did not take the argument after it is handled alike before its new neighbour. */
  ghost predicate Unmoved(u: Usage, gnu: bool, args: seq<string>, arranged: seq<string>, kinds: seq<Kind>,
                          seen: seq<Seen>)
    decreases |args| - |kinds|
  {
    |kinds| < |args| ==>
      var param := args[|kinds|];
      if IsNonOption(param) then gnu ==> Unmoved(u, gnu, args, arranged, kinds + [NonOption], seen)
      else
        !IsTerminator(param) ==>
          var handled := Handle(u, param, NextOf(args, |kinds|), seen);
          handled.Went? ==>
            && (handled.taken || Handle(u, param, NextOf(arranged, |Kept(kinds, kinds, false)|), seen) == handled)
            && Unmoved(u, gnu, args, arranged, Marked(kinds, handled.taken), handled.seen)
  }

  lemma {:induction false} GroupNeighbours(u: Usage, param: string, at: nat, next: Option<string>,
                                           other: Option<string>, seen: seq<Seen>)
    requires var h := Group(u, param, at, next, seen); h.Went? && !h.taken
    requires Group(u, param, at, other, seen) != Group(u, param, at, next, seen)
    ensures DifferentEnd(Group(u, param, at, next, seen), Group(u, param, at, other, seen))
    decreases |param| - at
  {
    if at < |param| {
      var arg := Some(param[at + 1..]);
      if at + 1 < |param| {
        var (handled, last) := Settle(u, u.short(param[at]), param[at..], arg, false, seen);
        if !last && handled.Went? { GroupNeighbours(u, param, at + 1, next, other, handled.seen); }
      } else {
        SettleNeighbours(u, u.short(param[at]), param[at..], next, other, seen);
      }
    }
  }

  /** Failure, or an option with an argument where there was one without. */
  ghost predicate DifferentEnd(h: Handled, h': Handled) {
    h.Went? && (h'.Went? ==> |h.seen| == |h'.seen| && h.seen != h'.seen)
  }

  lemma SettleNeighbours(u: Usage, found: Option<Id>, name: string, next: Option<string>, other: Option<string>,
                         seen: seq<Seen>)
    requires var h := Settle(u, found, name, next, true, seen).0; h.Went? && !h.taken
    ensures var h, h' := Settle(u, found, name, next, true, seen).0, Settle(u, found, name, other, true, seen).0;
            h' == h || DifferentEnd(h, h')
  {
    var h, h' := Settle(u, found, name, next, true, seen).0, Settle(u, found, name, other, true, seen).0;
    if h'.Went? && h'.taken {
      assert h'.seen[|seen|].arg.Some? && h.seen[|seen|].arg.None?;
    }
  }

  lemma Neighbours(u: Usage, param: string, next: Option<string>, other: Option<string>, seen: seq<Seen>)
    requires !IsNonOption(param)
    requires var h, h' := Handle(u, param, next, seen), Handle(u, param, other, seen); h.Went? && !h.taken && h' != h
    ensures DifferentEnd(Handle(u, param, next, seen), Handle(u, param, other, seen))
  {
    if param[1] == '-' {
      SettleNeighbours(u, u.long(param[2..]), param, next, other, seen);
    } else if u.singleMinusLongopt && u.long(param[1..]).Some? {
      SettleNeighbours(u, u.long(param[1..]), param, next, other, seen);
    } else {
      GroupNeighbours(u, param, 1, next, other, seen);
    }
  }

  lemma {:induction false} ClassifySees(u: Usage, gnu: bool, args: seq<string>, kinds: seq<Kind>, seen: seq<Seen>)
    ensures var o := Classify(u, gnu, args, kinds, seen); |seen| <= |o.seen| && o.seen[..|seen|] == seen
    decreases |args| - |kinds|
  {
    if |kinds| < |args| {
      var param := args[|kinds|];
      if IsNonOption(param) {
        if gnu { ClassifySees(u, gnu, args, kinds + [NonOption], seen); }
      } else if !IsTerminator(param) {
        var handled := Handle(u, param, NextOf(args, |kinds|), seen);
        if handled.Went? {
          HandleSees(u, param, NextOf(args, |kinds|), seen);
          ClassifySees(u, gnu, args, Marked(kinds, handled.taken), handled.seen);
        }
      }
    }
  }

  lemma {:induction false} GroupSees(u: Usage, param: string, at: nat, next: Option<string>, seen: seq<Seen>)
    ensures var h := Group(u, param, at, next, seen); h.Went? ==> |seen| <= |h.seen| && h.seen[..|seen|] == seen
    decreases |param| - at
  {
    if at < |param| {
      var detached := at + 1 == |param|;
      var arg := if detached then next else Some(param[at + 1..]);
      var (handled, last) := Settle(u, u.short(param[at]), param[at..], arg, detached, seen);
      if !last && handled.Went? { GroupSees(u, param, at + 1, next, handled.seen); }
    }
  }

  lemma HandleSees(u: Usage, param: string, next: Option<string>, seen: seq<Seen>)
    requires !IsNonOption(param)
    ensures var h := Handle(u, param, next, seen); h.Went? ==> |seen| <= |h.seen| && h.seen[..|seen|] == seen
  {
    GroupSees(u, param, 1, next, seen);
  }

  lemma {:induction false} KeptPrefix<T>(s: seq<T>, all: seq<Kind>, m: nat, nonOptions: bool)
    requires m <= |all| <= |s|
    ensures |Kept(s, all[..m], nonOptions)| <= |Kept(s, all, nonOptions)|
    ensures Kept(s, all, nonOptions)[..|Kept(s, all[..m], nonOptions)|] == Kept(s, all[..m], nonOptions)
    decreases |all|
  {
    if m < |all| {
      KeptPrefix(s, all[..|all| - 1], m, nonOptions);
      assert all[..|all| - 1][..m] == all[..m];
    } else {
      assert all[..m] == all;
    }
  }

  lemma {:induction false} KeptAlike<T>(s: seq<T>, kinds: seq<Kind>, nonOptions: bool)
    requires |kinds| <= |s|
    ensures |Kept(s, kinds, nonOptions)| == |Kept(kinds, kinds, nonOptions)|
    decreases |kinds|
  {
    if kinds != [] {
      var n := |kinds| - 1;
      KeptAlike(s, kinds[..n], nonOptions);
      KeptShorter(kinds, kinds[..n], nonOptions);
    }
  }

  /** Only the items at hand matter. */
  lemma {:induction false} KeptShorter<T>(s: seq<T>, kinds: seq<Kind>, nonOptions: bool)
    requires |kinds| <= |s|
    ensures Kept(s[..|kinds|], kinds, nonOptions) == Kept(s, kinds, nonOptions)
    decreases |kinds|
  {
    if kinds != [] {
      var n := |kinds| - 1;
      KeptShorter(s, kinds[..n], nonOptions);
      KeptShorter(s[..n + 1], kinds[..n], nonOptions);
      assert s[..n + 1][..n] == s[..n];
    }
  }

  /** Where an argument that is not a non-option stands in the arrangement. */
  lemma PlaceOfTaken(args: seq<string>, all: seq<Kind>, i: nat)
    requires i < |all| <= |args| && all[i] != NonOption
    ensures var t := |Kept(all[..i], all[..i], false)|;
            && t < |Kept(args, all, false)| <= |Arranged(args, all)| && Arranged(args, all)[t] == args[i]
            && Kept(all[..i + 1], all[..i + 1], false) == Kept(all[..i], all[..i], false) + [all[i]]
  {
    assert all[..i + 1][..i] == all[..i];
    KeptPrefix(args, all, i + 1, false);
    KeptAlike(args, all[..i], false);
    KeptShorter(all[..i + 1], all[..i], false);
    assert Kept(args, all[..i + 1], false) == Kept(args, all[..i], false) + [args[i]];
    assert Kept(args, all, false)[|Kept(args, all[..i], false)|] == args[i];
  }

  function NonOptions(n: nat): (r: seq<Kind>)
    ensures |r| == n && forall i :: 0 <= i < n ==> r[i] == NonOption
  {
    seq(n, _ => NonOption)
  }

  /** The kinds of the arguments after the options when an arranged vector is parsed again. */
  function Tail(gnu: bool, kinds: seq<Kind>): seq<Kind> {
    if gnu && Terminator !in kinds then NonOptions(|Kept(kinds, kinds, true)|) else []
  }

  /** The outcome of parsing an arranged vector again. */
  function Again(gnu: bool, o: Outcome): Outcome {
    Outcome(false, Kept(o.kinds, o.kinds, false) + Tail(gnu, o.kinds), o.seen)
  }

  lemma {:induction false} OnlyNonOptions(u: Usage, gnu: bool, args: seq<string>, kinds: seq<Kind>, seen: seq<Seen>)
    requires |kinds| <= |args| && forall i :: |kinds| <= i < |args| ==> IsNonOption(args[i])
    ensures Classify(u, gnu, args, kinds, seen) ==
            Outcome(false, kinds + (if gnu then NonOptions(|args| - |kinds|) else []), seen)
    decreases |args| - |kinds|
  {
    if |kinds| < |args| && gnu {
      OnlyNonOptions(u, gnu, args, kinds + [NonOption], seen);
      assert kinds + NonOptions(|args| - |kinds|) == kinds + [NonOption] + NonOptions(|args| - |kinds| - 1);
    } else {
      assert kinds + [] == kinds && NonOptions(0) == [];
    }
  }

  lemma {:induction false} KeptLookRight(args: seq<string>, kinds: seq<Kind>)
    requires |kinds| <= |args| && forall i :: 0 <= i < |kinds| && kinds[i] == NonOption ==> IsNonOption(args[i])
    ensures forall j :: 0 <= j < |Kept(args, kinds, true)| ==> IsNonOption(Kept(args, kinds, true)[j])
    decreases |kinds|
  {
    if kinds != [] { KeptLookRight(args, kinds[..|kinds| - 1]); }
  }

  lemma {:induction false} KeptNone<T>(s: seq<T>, kinds: seq<Kind>)
    requires |kinds| <= |s| && NonOption !in kinds
    ensures Kept(s, kinds, true) == [] && Kept(s, kinds, false) == s[..|kinds|]
    decreases |kinds|
  {
    if kinds != [] {
      KeptNone(s, kinds[..|kinds| - 1]);
      assert s[..|kinds|] == s[..|kinds| - 1] + [s[|kinds| - 1]];
    }
  }

  lemma NonOptionsLast(args: seq<string>, kinds: seq<Kind>)
    requires Fits(args, kinds) && |kinds| == |args|
    ensures |Arranged(args, kinds)| == |Kept(kinds, kinds, false)| + |Kept(kinds, kinds, true)|
    ensures forall i :: |Kept(kinds, kinds, false)| <= i < |Arranged(args, kinds)| ==>
            IsNonOption(Arranged(args, kinds)[i])
  {
    KeptAlike(args, kinds, false);
    KeptAlike(args, kinds, true);
    forall i | 0 <= i < |kinds| && kinds[i] == NonOption ensures IsNonOption(args[i]) {
      assert FitsAt(args, kinds, i);
    }
    KeptLookRight(args, kinds);
  }

  /** All options were met again; what follows are the non-options. */
  lemma ReparseEnd(u: Usage, gnu: bool, args: seq<string>, kinds: seq<Kind>, seen: seq<Seen>)
    requires Fits(args, kinds) && Terminator !in kinds && |kinds| == |args|
    ensures Classify(u, gnu, Arranged(args, kinds), Kept(kinds, kinds, false), seen) ==
            Again(gnu, Outcome(false, kinds, seen))
  {
    NonOptionsLast(args, kinds);
    OnlyNonOptions(u, gnu, Arranged(args, kinds), Kept(kinds, kinds, false), seen);
  }

  /** The same in POSIX mode, before a non-option or at the end. */
  lemma ReparseStop(u: Usage, args: seq<string>, kinds: seq<Kind>, seen: seq<Seen>)
    requires |kinds| <= |args| && NonOption !in kinds && (|kinds| < |args| ==> IsNonOption(args[|kinds|]))
    ensures Classify(u, false, Arranged(args, kinds), Kept(kinds, kinds, false), seen) ==
            Again(false, Outcome(false, kinds, seen))
  {
    KeptNone(args, kinds);
    KeptNone(kinds, kinds);
    assert Arranged(args, kinds) == args && kinds[..|kinds|] == kinds;
    StopsHere(u, args, kinds, seen);
    assert kinds + [] == kinds;
  }

  lemma StopsHere(u: Usage, args: seq<string>, kinds: seq<Kind>, seen: seq<Seen>)
    requires |kinds| <= |args| && (|kinds| < |args| ==> IsNonOption(args[|kinds|]))
    ensures Classify(u, false, args, kinds, seen) == Outcome(false, kinds, seen)
  {
  }

  /** An option is met again. */
  lemma ReparseOption(u: Usage, gnu: bool, gnu': bool, args: seq<string>, kinds: seq<Kind>, seen: seq<Seen>,
                      all: seq<Kind>)
    requires |kinds| < |args| && !IsNonOption(args[|kinds|]) && !IsTerminator(args[|kinds|])
    requires Handle(u, args[|kinds|], NextOf(args, |kinds|), seen).Went?
    requires var handled := Handle(u, args[|kinds|], NextOf(args, |kinds|), seen);
             var more := Marked(kinds, handled.taken); |more| <= |all| <= |args| && all[..|more|] == more
    ensures var handled := Handle(u, args[|kinds|], NextOf(args, |kinds|), seen);
            var f, t := Arranged(args, all), Kept(kinds, kinds, false);
            var same, more := Handle(u, args[|kinds|], NextOf(f, |t|), seen) == handled, Marked(kinds, handled.taken);
            && (handled.taken ==> same)
            && (same ==> Classify(u, gnu', f, t, seen) == Classify(u, gnu', f, Kept(more, more, false), handled.seen))
            && (!same ==> Classify(u, gnu', f, t, seen).fatal ||
                          (|handled.seen| <= |Classify(u, gnu', f, t, seen).seen| &&
                              Classify(u, gnu', f, t, seen).seen[..|handled.seen|] != handled.seen))
  {
    var i := |kinds|;
    var handled, f, t := Handle(u, args[i], NextOf(args, i), seen), Arranged(args, all), Kept(kinds, kinds, false);
    if handled.taken { HandleTakes(u, args[i], NextOf(args, i), seen); }
    MetAgain(args, kinds, handled.taken, all);
    if Handle(u, args[i], NextOf(f, |t|), seen) != handled {
      Neighbours(u, args[i], NextOf(args, i), NextOf(f, |t|), seen);
      DifferentEnds(u, gnu', f, t, seen, handled);
    }
  }

  /** Where an option stands in the arrangement, and what is beside it if that belongs to it. */
  lemma MetAgain(args: seq<string>, kinds: seq<Kind>, taken: bool, all: seq<Kind>)
    requires |Marked(kinds, taken)| <= |all| <= |args| && all[..|Marked(kinds, taken)|] == Marked(kinds, taken)
    ensures var f, t, more := Arranged(args, all), Kept(kinds, kinds, false), Marked(kinds, taken);
            && |t| < |f| && f[|t|] == args[|kinds|]
            && (taken ==> NextOf(f, |t|) == NextOf(args, |kinds|))
            && Kept(more, more, false) == Marked(t, taken)
  {
    var i := |kinds|;
    MarkedParts(kinds, taken, all);
    PlaceOfTaken(args, all, i);
    if taken { PlaceOfTaken(args, all, i + 1); }
  }

  lemma MarkedParts(kinds: seq<Kind>, taken: bool, all: seq<Kind>)
    requires |Marked(kinds, taken)| <= |all| && all[..|Marked(kinds, taken)|] == Marked(kinds, taken)
    ensures all[..|kinds|] == kinds
    ensures all[|kinds|] == AnOption && all[..|kinds| + 1] == kinds + [AnOption]
    ensures taken ==> all[|kinds| + 1] == Detached && all[..|kinds| + 2] == Marked(kinds, true)
  {
    var i, more := |kinds|, Marked(kinds, taken);
    assert more[..i] == kinds && more[i] == AnOption && more[..i + 1] == kinds + [AnOption];
    assert all[..i] == more[..i] && all[i] == more[i] && all[..i + 1] == more[..i + 1];
    if taken { assert all[i + 1] == more[i + 1]; }
  }

  /** Once an option has ended differently, so does the parsing. */
  lemma DifferentEnds(u: Usage, gnu: bool, args: seq<string>, kinds: seq<Kind>, seen: seq<Seen>, handled: Handled)
    requires |kinds| < |args| && !IsNonOption(args[|kinds|]) && !IsTerminator(args[|kinds|])
    requires DifferentEnd(handled, Handle(u, args[|kinds|], NextOf(args, |kinds|), seen))
    ensures var o := Classify(u, gnu, args, kinds, seen);
            o.fatal || (|handled.seen| <= |o.seen| && o.seen[..|handled.seen|] != handled.seen)
  {
    var handled' := Handle(u, args[|kinds|], NextOf(args, |kinds|), seen);
    if handled'.Went? { ClassifySees(u, gnu, args, Marked(kinds, handled'.taken), handled'.seen); }
  }

  lemma KeptPassing(kinds: seq<Kind>)
    ensures Kept(kinds + [NonOption], kinds + [NonOption], false) == Kept(kinds, kinds, false)
  {
    KeptShorter(kinds + [NonOption], kinds, false);
    assert (kinds + [NonOption])[..|kinds|] == kinds;
  }

  /** The terminator is met again. */
  lemma ReparseTerminator(u: Usage, gnu: bool, args: seq<string>, kinds: seq<Kind>, seen: seq<Seen>)
    requires |kinds| < |args| && IsTerminator(args[|kinds|])
    ensures var all := kinds + [Terminator];
            Classify(u, gnu, Arranged(args, all), Kept(kinds, kinds, false), seen) ==
                Again(gnu, Outcome(false, all, seen))
  {
    var all := kinds + [Terminator];
    assert all[..|kinds|] == kinds && all[..|kinds| + 1] == all;
    PlaceOfTaken(args, all, |kinds|);
    assert Tail(gnu, all) == [];
  }

  /**
   From any point on: the options are met again exactly if each one that takes no argument does so
   beside its new neighbour.
   */
  lemma {:induction false} ReparseFrom(u: Usage, gnu: bool, gnu': bool, args: seq<string>, kinds: seq<Kind>,
                                       seen: seq<Seen>, o: Outcome)
    requires Fits(args, kinds) && Terminator !in kinds && (gnu' ==> gnu) && (!gnu ==> NonOption !in kinds)
    requires o == Classify(u, gnu, args, kinds, seen) && !o.fatal && |o.kinds| <= |args|
    ensures var f := Arranged(args, o.kinds);
            var o' := Classify(u, gnu', f, Kept(kinds, kinds, false), seen);
            if Unmoved(u, gnu, args, f, kinds, seen) then o' == Again(gnu', o) else o'.fatal || o'.seen != o.seen
    decreases |args| - |kinds|
  {
    var i := |kinds|;
    if i == |args| || (IsNonOption(args[i]) && !gnu) {
      if gnu { ReparseEnd(u, gnu', args, kinds, seen); } else { ReparseStop(u, args, kinds, seen); }
    } else if IsNonOption(args[i]) {
      FitsOne(args, kinds, NonOption);
      KeptPassing(kinds);
      ReparseFrom(u, gnu, gnu', args, kinds + [NonOption], seen, o);
    } else if IsTerminator(args[i]) {
      ReparseTerminator(u, gnu', args, kinds, seen);
    } else {
      var handled := Handle(u, args[i], NextOf(args, i), seen);
      var more := Marked(kinds, handled.taken);
      FitsOne(args, kinds, AnOption);
      if handled.taken {
        HandleTakes(u, args[i], NextOf(args, i), seen);
        FitsOne(args, kinds + [AnOption], Detached);
      }
      ClassifyExtends(u, gnu, args, more, handled.seen);
      ClassifySees(u, gnu, args, more, handled.seen);
      ReparseOption(u, gnu, gnu', args, kinds, seen, o.kinds);
      ReparseFrom(u, gnu, gnu', args, more, handled.seen, o);
    }
  }

  /**
   An arranged vector is parsed again to the same options, whether or not non-options end the
   parsing, exactly if every option that took no argument takes none beside its new neighbour.
   */
  lemma ReparsedAlike(u: Usage, gnu': bool, args: seq<string>)
    requires !Classify(u, true, args, [], []).fatal
    ensures var o := Classify(u, true, args, [], []);
            && |o.kinds| <= |args|
            && var f := Arranged(args, o.kinds); var o' := Classify(u, gnu', f, [], []);
               && (Unmoved(u, true, args, f, [], []) <==> !o'.fatal && o'.seen == o.seen)
               && (Unmoved(u, true, args, f, [], []) ==>
                     && |o'.kinds| <= |f| && Arranged(f, o'.kinds) == f
                     && |Kept(f, o'.kinds, false)| == |Kept(args, o.kinds, false)|)
  {
    ClassifyExtends(u, true, args, [], []);
    var o := Classify(u, true, args, [], []);
    ReparseFrom(u, true, gnu', args, [], [], o);
    ArrangedAgain(args, gnu', o);
  }

  lemma {:induction false} KeptTaken(kinds: seq<Kind>, all: seq<Kind>)
    requires |all| <= |kinds| && all == kinds[..|all|]
    ensures NonOption !in Kept(kinds, all, false)
    decreases |all|
  {
    if all != [] { KeptTaken(kinds, all[..|all| - 1]); }
  }

  /** The kinds found again leave the vector as it is. */
  lemma ArrangedAgain(args: seq<string>, gnu: bool, o: Outcome)
    requires |o.kinds| <= |args|
    ensures var f, kinds := Arranged(args, o.kinds), Again(gnu, o).kinds;
            && |kinds| <= |f| && Arranged(f, kinds) == f
            && |Kept(f, kinds, false)| == |Kept(args, o.kinds, false)|
  {
    KeptSizes(args, o.kinds);
    KeptAlike(args, o.kinds, false);
    KeptAlike(args, o.kinds, true);
    KeptTaken(o.kinds, o.kinds);
    var f, t, m := Arranged(args, o.kinds), Kept(o.kinds, o.kinds, false), |Tail(gnu, o.kinds)|;
    InOrderAlready(f, t, m);
    assert Tail(gnu, o.kinds) == NonOptions(m);
    ThreeParts(f, |t|, |t| + m);
  }

  lemma {:induction false} InOrderAlready<T>(s: seq<T>, kinds: seq<Kind>, m: nat)
    requires NonOption !in kinds && |kinds| + m <= |s|
    ensures Kept(s, kinds + NonOptions(m), false) == s[..|kinds|]
    ensures Kept(s, kinds + NonOptions(m), true) == s[|kinds|..|kinds| + m]
    decreases m
  {
    var n := |kinds|;
    if m == 0 {
      KeptNone(s, kinds);
      assert kinds + NonOptions(0) == kinds && s[n..n] == [];
    } else {
      InOrderAlready(s, kinds, m - 1);
      assert (kinds + NonOptions(m))[..n + m - 1] == kinds + NonOptions(m - 1);
      OneMoreItem(s, n, n + m - 1);
    }
  }

  lemma ThreeParts<T>(s: seq<T>, i: nat, j: nat)
    requires i <= j <= |s|
    ensures s == s[..i] + s[i..j] + s[j..]
  {
  }

  lemma OneMoreItem<T>(s: seq<T>, n: nat, i: nat)
    requires n <= i < |s|
    ensures s[n..i + 1] == s[n..i] + [s[i]]
  {
  }

  /** Whether an option takes the next argument does not depend on that argument: none of the stock checks lets it. */
  ghost predicate DecidedByOption(u: Usage) {
    forall id: Id, name: string, x: Option<string>, y: Option<string> :: DecidedAt(u, id, name, x, y)
  }

  predicate DecidedAt(u: Usage, id: Id, name: string, x: Option<string>, y: Option<string>) {
    (|name| == 1 || Attached(name).None?) && !u.check(id, name, x).ARG_ILLEGAL? &&
        !(u.check(id, name, x).ARG_OK? && x.Some?) ==>
      !u.check(id, name, x).ARG_OK? && u.check(id, name, y) == u.check(id, name, x)
  }

  lemma DecidedSettle(u: Usage, found: Option<Id>, name: string, next: Option<string>, other: Option<string>,
                      seen: seq<Seen>)
    requires DecidedByOption(u) && (|name| == 1 || Attached(name).None?)
    requires var h := Settle(u, found, name, next, true, seen).0; h.Went? && !h.taken
    ensures Settle(u, found, name, other, true, seen).0 == Settle(u, found, name, next, true, seen).0
  {
    var descriptor := if found.Some? then found else u.unknown;
    if descriptor.Some? {
      assert DecidedAt(u, descriptor.value, name, next, other);
    }
  }

  lemma {:induction false} DecidedGroup(u: Usage, param: string, at: nat, next: Option<string>,
                                        other: Option<string>, seen: seq<Seen>)
    requires DecidedByOption(u) && Group(u, param, at, next, seen).Went? && !Group(u, param, at, next, seen).taken
    ensures Group(u, param, at, other, seen) == Group(u, param, at, next, seen)
    decreases |param| - at
  {
    if at + 1 == |param| {
      DecidedSettle(u, u.short(param[at]), param[at..], next, other, seen);
    } else if at < |param| {
      var (handled, last) := Settle(u, u.short(param[at]), param[at..], Some(param[at + 1..]), false, seen);
      if !last && handled.Went? { DecidedGroup(u, param, at + 1, next, other, handled.seen); }
    }
  }

  lemma DecidedHandle(u: Usage, param: string, next: Option<string>, other: Option<string>, seen: seq<Seen>)
    requires DecidedByOption(u) && !IsNonOption(param)
    requires Handle(u, param, next, seen).Went? && !Handle(u, param, next, seen).taken
    ensures Handle(u, param, other, seen) == Handle(u, param, next, seen)
  {
    assert Attached(param) == Attached(param[1..]);
    if param[1] == '-' {
      assert param[1..][1..] == param[2..];
      if Attached(param[2..]).None? { DecidedSettle(u, u.long(param[2..]), param, next, other, seen); }
    } else if u.singleMinusLongopt && u.long(param[1..]).Some? {
      if Attached(param[1..]).None? { DecidedSettle(u, u.long(param[1..]), param, next, other, seen); }
    } else {
      DecidedGroup(u, param, 1, next, other, seen);
    }
  }

  /** With such checks every vector is parsed again alike. */
  lemma {:induction false} DecidedIsUnmoved(u: Usage, gnu: bool, args: seq<string>, arranged: seq<string>,
                                            kinds: seq<Kind>, seen: seq<Seen>)
    requires DecidedByOption(u)
    ensures Unmoved(u, gnu, args, arranged, kinds, seen)
    decreases |args| - |kinds|
  {
    if |kinds| < |args| {
      var param := args[|kinds|];
      if IsNonOption(param) {
        DecidedIsUnmoved(u, gnu, args, arranged, kinds + [NonOption], seen);
      } else {
        var next, other := NextOf(args, |kinds|), NextOf(arranged, |Kept(kinds, kinds, false)|);
        var handled := Handle(u, param, next, seen);
        if handled.Went? {
          if !handled.taken { DecidedHandle(u, param, next, other, seen); }
          DecidedIsUnmoved(u, gnu, args, arranged, Marked(kinds, handled.taken), handled.seen);
        }
      }
    }
  }

  /** Short options only, all alike: the check accepts an argument if there is one. */
  const OPTIONAL_ARGUMENT := Usage((_: string) => None, (_: char) => Some(0), None,
                                   (_: Id, _: string, arg: Option<string>) => if arg.Some? then ARG_OK else ARG_IGNORE,
                                   (_: seq<Seen>, _: Seen) => true, false)

  lemma OneOption(next: Option<string>)
    ensures Handle(OPTIONAL_ARGUMENT, "-f", next, []) == Went([Seen(0, "f", next)], next.Some?)
  {
    var u, f := OPTIONAL_ARGUMENT, "-f";
    assert f[1..] == "f";
    var (handled, last) := Settle(u, u.short(f[1]), f[1..], next, true, []);
    assert handled == Went([Seen(0, "f", next)], next.Some?);
    assert Group(u, f, 1, next, []) == if last then handled else Group(u, f, 2, next, handled.seen);
  }

  /** Such an option at the end of the vector takes a non-option when the vector is parsed again. */
  lemma OptionalArgumentMoves()
    ensures var u := OPTIONAL_ARGUMENT;
            && Classify(u, true, ["x", "-f"], [], []) == Outcome(false, [NonOption, AnOption], [Seen(0, "f", None)])
            && Arranged(["x", "-f"], [NonOption, AnOption]) == ["-f", "x"]
            && forall gnu ::
                 Classify(u, gnu, ["-f", "x"], [], []) ==
                 Outcome(false, [AnOption, Detached], [Seen(0, "f", Some("x"))])
  {
    OptionalFirst();
    OptionalArranged();
    OptionalAgain();
  }

  lemma OptionalFirst()
    ensures Classify(OPTIONAL_ARGUMENT, true, ["x", "-f"], [], []) ==
            Outcome(false, [NonOption, AnOption], [Seen(0, "f", None)])
  {
    var u, args, kinds := OPTIONAL_ARGUMENT, ["x", "-f"], [NonOption];
    OneOption(None);
    assert [] + [NonOption] == kinds && Marked(kinds, false) == [NonOption, AnOption];
    assert Classify(u, true, args, [], []) == Classify(u, true, args, kinds, []);
    assert Classify(u, true, args, kinds, []) == Classify(u, true, args, Marked(kinds, false), [Seen(0, "f", None)]);
  }

  lemma OptionalArranged()
    ensures Arranged(["x", "-f"], [NonOption, AnOption]) == ["-f", "x"]
  {
    var args, kinds := ["x", "-f"], [NonOption, AnOption];
    assert kinds[..1] == [NonOption] && [NonOption][..0] == [];
    assert Kept(args, [NonOption], true) == ["x"] && Kept(args, [NonOption], false) == [];
    assert Kept(args, kinds, false) == ["-f"] && Kept(args, kinds, true) == ["x"];
  }

  lemma OptionalAgain()
    ensures forall gnu ::
              Classify(OPTIONAL_ARGUMENT, gnu, ["-f", "x"], [], []) ==
              Outcome(false, [AnOption, Detached], [Seen(0, "f", Some("x"))])
  {
    var u, args, seen := OPTIONAL_ARGUMENT, ["-f", "x"], [Seen(0, "f", Some("x"))];
    OneOption(Some("x"));
    forall gnu ensures Classify(u, gnu, args, [], []) == Outcome(false, [AnOption, Detached], seen) {
      assert Marked([], true) == [AnOption, Detached];
      assert Classify(u, gnu, args, [], []) == Classify(u, gnu, args, [AnOption, Detached], seen);
    }
  }
}
