# Verification of the TransLucid runtime's core algorithms

TransLucid evaluates expressions in a multidimensional context and asks only for the dimensions
that an evaluation turns out to need. This project models the algorithms its runtime rests on and
proves what they promise.

| file | models |
|---|---|
| `Constants.dfy` | values, contexts and dimension sets, as far as the other files look at them |
| `WarehouseTree.dfy` | the tree of a cache: levels keyed by dimensions that are discovered by evaluating; get, set and collection on it |
| `CacheAges.dfy` | what gets, sets and sweeps do to the ages of entries, told by their addresses |
| `Warehouse.dfy` | the cache object, and the protocol in which a caller that is told to calculate must later set |
| `CacheWorkshop.dfy` | cached evaluation, against restarting the evaluator without a cache |
| `CacheSurvival.dfy` | entries in use survive the next sweep |
| `SharedCache.dfy` | several evaluations that share a cache in any interleaving |
| `SharedLoops.dfy` | evaluation loops that take turns at single gets and sets of a shared cache |
| `ContextWindow.dfy` | the context as a sliding window of stacks, its scopes, and captured contexts |
| `BestFit.dfy` | region inclusion and the choice of the most specific, newest equation |
| `Timeline.dfy` | the definitions of a variable over time, and how the one for a time is found |
| `DfaTables.dfy` | minimisation of the lexer's tables |
| `Lexing.dfy` | the matcher over the tables, step by step, and that minimisation preserves it |
| `MaximalMunch.dfy` | what a call of the matcher finds, for every combination of its features |
| `RangeSets.dfy` | character sets as range vectors that are edited in place |
| `OperatorTree.dfy` | the tree of an expression whose operators have variable precedence |
| `Odometer.dfy` | the enumeration of a demanded region |
| `ArgPermutation.dfy` | command-line parsing that reorders the argument vector in place |
| `ArgReparse.dfy` | when parsing a reordered vector again is safe for every vector |

`dafny verify dfyconfig.toml` checks all of them.

Objects the source updates in place are classes here, and its loops are loops. The nodes of the
cache tree and of the operator tree have value semantics in the source (recursive variants), so
they are datatypes; the objects that own them are classes. An integer is unbounded where the source
uses a big integer, and 16-bit truncation is written out where a region is compared.

## Where the code does less than it might seem to

Each of these is stated as an exact condition, with a failing input where there is one.

- Minimisation writes zeros in the dead column of the rows it rebuilds. So the new table is an image
  of the old one, as far as it is read, exactly if the old one has no equal rows, its dead column is zero, or no
  byte of that lexer state leads through it (`DfaTables.MergedIsImage`, `Lexing.StateMachine.Minimise`); and then
  it lexes alike. `Lexing.DeadMachineAccepts` and `Lexing.DeadColumnLexesDifferently` give a table, and an
  input that it accepts and its minimised form rejects. The generator never writes that cell
  (`src/include/lexertl/generator.hpp:258-262` and `302-307`), so generated tables are not among those that fail.
- `regionSubset` reads 32-bit dimensions through 16-bit variables. The merge is the rule for each
  dimension exactly if truncation keeps the order of the dimensions (`BestFit.MergeIsPointwiseExactly`,
  with two regions for which it goes wrong in `BestFit.TruncationSpoils`).
- A range refines the type `range`, but integers in the range do not, so a region that `regionSubset`
  calls smaller is included in the other one exactly if no range that holds an integer is compared
  with that type (`BestFit.PointwiseIsInclusionExactly`, failing regions in `BestFit.RangeTypeSpoils`).
- With `canequal` false, `regionSubset` does not see an "is" against an "in" as strictly smaller, so a region
  that differs from another only in that is refused (`BestFit.RegionSubset`, two such regions in
  `BestFit.SpecifierAloneIsNotProper`). The chooser always passes true.
- A sweep of the cache ignores the verdict on the top entry: that entry is never deleted, and it
  is not aged either when it and everything beneath it has retired (`Warehouse.GarbageCollectSweeps`).
- A sweep while an entry is being calculated can delete the marker, and then the set throws. That happens
  exactly if the marker is not the first entry and is older than the retirement age
  (`Warehouse.ReplyAfterSweepExactly`, `Warehouse.SweepKeepsOrderExactly`, a run in `Warehouse.SweepWhilePendingThrows`).
  Without such sweeps nothing throws (`Warehouse.NoCacheError`).
- Enumerating a region with an empty range still visits its lower bound once. The product is visited
  exactly if no range is empty (`Odometer.VisitsProductExactly`, an empty range in `Odometer.EmptyRangeIsVisited`).
- The parser corrects a number of arguments that is too large only if it runs to the end of the vector
  (`ArgPermutation.HandsOverExactly`, a vector for which it does not in `ArgPermutation.TooLargeNumberStays`).
- The documentation says that a reordered argument vector parses alike with either flag. An option whose check
  looks at the next argument and leaves it alone can meet another neighbour in the reordered vector.
  The options are found again exactly if each such option is handled alike beside its new neighbour
  (`ArgPermutation.ReparsedAlike`, failing input in `ArgPermutation.OptionalArgumentMoves`). That holds
  for checks that decide by the option alone (`ArgPermutation.DecidedIsUnmoved`); and, if the action accepts every
  option, for every vector exactly if no option treats the pairs of neighbours that can come about
  differently (`ArgReparse.ReparsedAlikeExactly`).
- An evaluation that meets an entry under calculation asks once more for all that its caller supplies. If others
  go on meanwhile it can then be told to calculate, and returns that marker as its answer
  (`SharedLoops.MetLoopReturnsCalc`). An evaluation that met none returns what evaluation without a cache gives
  (`SharedLoops.EveryLoopIsRight`).
- The matcher accepts an empty token when the start row accepts, and reports it only if no longer prefix is
  accepted; it then stays in its lexer state unless the row pops one. A row that pops an empty stack leaves it
  stuck (`MaximalMunch.Next`, a machine in `MaximalMunch.PopMachineIsStuck`).
- The matcher runs for ever on an empty token that is to be skipped, and on end-of-line entries that lead in a
  circle (`MaximalMunch.EmptySkipNeverEnds`, `MaximalMunch.EolCircleNeverEnds`). Without either, every call ends
  (`MaximalMunch.Next`).
- At the end of the input the matcher follows one end-of-line entry, before a newline all of them
  (`MaximalMunch.EndTurn`, `MaximalMunch.EolTurn`).
- `regionSubset` compares specifiers first: an "in" is never smaller than an "is" or an "imp", even where it asks
  for no more. Otherwise a true answer means inclusion and inclusion a true answer (`BestFit.RegionSubsetExactly`).
- The timeline lookup is right for negative times too (`Timeline.BestfitGroup.Evaluate`).

## Model

| member | source | states |
|---|---|---|
| WarehouseTree.LocateSound | src/libs/system/cache.cpp:255-378 | an entry found from a context has an address the context matches, and obeys whatever rule the tree keeps |
| WarehouseTree.LocateByAddress | src/libs/system/cache.cpp:255-285 | all contexts that match an entry's address are led to that same entry |
| WarehouseTree.ChainSound | src/libs/system/cache.cpp:287-327 | the maps built for a missing ordinate hold one calc marker, at the address the context spells out |
| WarehouseTree.GetSound | src/libs/system/cache.cpp:89-378 | a get with the level's dimensions supplied never throws and keeps the tree's invariant, given that a calc answer may have its marker |
| WarehouseTree.GetLocate | src/libs/system/cache.cpp:89-378 | a get moves no entry, and adds exactly one, at the asking context's address, when it answers calc |
| WarehouseTree.GetAnswersEntry | src/libs/system/cache.cpp:93-142 | a get that supplies an entry's dimensions answers that entry, and SP_LOOP for a calc marker |
| WarehouseTree.ReachStops | src/libs/system/cache.cpp:115-142 | supplying exactly a level's dimensions stops a get at that level |
| WarehouseTree.SetSound | src/libs/system/cache.cpp:391-490 | a set on an existing entry never throws and changes the invariant at that entry's address only |
| WarehouseTree.SetLocate | src/libs/system/cache.cpp:391-490 | after a set every other entry is found as before, and this one gives the value, or leads on if it was a demand |
| WarehouseTree.SetThenGet | src/libs/system/cache.cpp:391-490 | what was set is what the same context then gets, a demand included |
| WarehouseTree.GetKeepsReach | src/libs/system/cache.cpp:115-378 | a get leads nobody else's supplied dimensions further, nor less far |
| WarehouseTree.SetKeepsReach | src/libs/system/cache.cpp:391-490 | a set leads nobody further who supplies just the dimensions on the way |
| WarehouseTree.CollectSweeps | src/libs/system/cache.cpp:204-253 | a subtree is deleted exactly when every entry in it is older than the retirement age; every surviving entry is one older |
| WarehouseTree.CollectSound | src/libs/system/cache.cpp:204-253 | collection keeps the tree's invariant, whatever rule it carries |
| WarehouseTree.CollectLocate | src/libs/system/cache.cpp:204-253 | collection invents nothing: what is found afterwards was found before |
| WarehouseTree.CollectSpares | src/libs/system/cache.cpp:204-253 | an entry below the one at hand is found after a sweep exactly if it is not older than the retirement age, and then nothing above it is deleted |
| WarehouseTree.SetMisses | src/libs/system/cache.cpp:433-459 | a set throws if there is no entry that the context leads to |
| CacheAges.AgeAtAddress | src/libs/system/cache.cpp:353-378 | the age of the entry a context leads to is the age of the entry at its address |
| CacheAges.GetAges | src/libs/system/cache.cpp:353-378 | a get resets the age of every entry whose address its context matches and whose dimensions it supplies, gives a new marker age 0, and changes no other age |
| CacheAges.GetRetirement | src/libs/system/cache.cpp:555-562 | the retirement age becomes the greatest of the old one and the ages of the entries the get passed |
| CacheAges.SetAges | src/libs/system/cache.cpp:391-490 | a set changes no age |
| CacheAges.CollectAges | src/libs/system/cache.cpp:233-253 | what a sweep leaves is at most one older |
| Warehouse.GetAgesStore | src/libs/system/cache.cpp:505-521 | what a get of a whole cache does to all ages and to the retirement age |
| Warehouse.Cache.constructor | src/libs/system/cache.cpp:493-498 | a new cache has no tree and retirement age 2 |
| Warehouse.Cache.Demands | src/libs/system/cache.cpp:115-131 | the dimensions of a level that the caller did not supply are collected |
| Warehouse.Cache.Get | src/libs/system/cache.cpp:505-521 | the object's get, new state and error included, is the specified one; entries it passes become young, no other entry's age changes, and the retirement age rises to the greatest age it passed |
| Warehouse.Cache.Set | src/libs/system/cache.cpp:523-542 | the object's set, new state and error included, is the specified one |
| Warehouse.Cache.CollectNode | src/libs/system/cache.cpp:204-253 | erasing children while iterating gives the specified subtree and verdict |
| Warehouse.Cache.GarbageCollect | src/libs/system/cache.cpp:544-554 | a sweep replaces the tree by the swept one and lowers the retirement age |
| Warehouse.GarbageCollectSweeps | src/libs/system/cache.cpp:544-554 | what a whole sweep deletes, keeps and ages, with the exception made for the top entry |
| Warehouse.AskKeepsOrder | src/libs/system/cache.cpp:89-378 | a get never throws while everyone answers their own calc; a calc answer makes its asker the one owner of a new marker |
| Warehouse.ReplyMarkers | src/libs/system/cache.cpp:392-490 | a set overwrites the setter's marker and leaves every other owner's marker in place |
| Warehouse.ReplyKeepsOrder | src/libs/system/cache.cpp:392-490 | after a set every remaining owner still has its own marker and there are no others |
| Warehouse.StepKeepsOrder | src/libs/system/cache.cpp:204-490 | one legal get, set or sweep does not throw and keeps the protocol's invariant |
| Warehouse.NoCacheError | src/libs/system/cache.cpp:204-490 | in every interleaving of gets, sets that answer an own calc, and sweeps that spare what is pending, no cache error is reached |
| Warehouse.NoCacheErrorFromStart | src/libs/system/cache.cpp:204-554 | from an empty cache on, every legal run is free of cache errors and keeps the invariant |
| Warehouse.SweepKeepsOrderExactly | src/libs/system/cache.cpp:204-253 | a sweep keeps the protocol's invariant exactly if every pending marker is the first entry or not older than the retirement age |
| Warehouse.ReplyAfterSweepExactly | src/libs/system/cache.cpp:204-253 | a set after a sweep throws exactly if its own marker was neither |
| Warehouse.PendingLoops | src/libs/system/cache.cpp:93-113 | after any legal run, every get whose context matches a pending entry's address and that supplies its dimensions sees SP_LOOP, and becomes no owner |
| Warehouse.OneOwner | src/libs/system/cache.cpp:255-378 | after any legal run, no two owners match the address of one pending entry |
| Warehouse.ReplyIsHeard | src/libs/system/cache.cpp:392-490 | after any legal run, an owner that sets its entry gets back what it set |
| CacheSurvival.StepKeepsAges | src/libs/system/cache.cpp:204-490 | no get, set or sweep makes an age negative |
| CacheSurvival.StaysYoung | src/libs/system/cache.cpp:353-490 | until the next sweep an entry that was got stays young, whatever others ask and set |
| CacheSurvival.YoungIsSpared | src/libs/system/cache.cpp:233-253 | the next sweep spares it, and it answers as before |
| CacheSurvival.GotEntrySurvives | src/libs/system/cache.cpp:204-562 | after any legal run, a finished entry that was got since the last sweep is found after the next one, and the same get answers the same |
| Warehouse.SweepWhilePendingThrows | src/libs/system/cache.cpp:204-253 | a concrete run in which sweeping a pending entry makes the set throw |
| CacheWorkshop.GetExact | src/libs/system/cache.cpp:89-378 | on a tree of exact entries a get answers what the evaluator says where the supplied dimensions lead, less what is supplied |
| CacheWorkshop.GetThenReach | src/libs/system/cache.cpp:115-142 | supplying a demand that was answered leads exactly one level further |
| CacheWorkshop.SetThenReach | src/libs/system/cache.cpp:412-490 | supplying a demand that was stored leads exactly one level further |
| CacheWorkshop.StoreGet | src/libs/system/cache.cpp:697-717 | one get of the evaluation loop answers the evaluator's own answer for the dimensions so far, or marks that point |
| CacheWorkshop.StoreSet | src/libs/system/cache.cpp:703-717 | storing the evaluator's answer over the marker makes every entry exact again |
| CacheWorkshop.StoreFinal | src/libs/system/cache.cpp:755-775 | the last get answers the finished entry |
| CacheWorkshop.StoreCollect | src/libs/system/cache.cpp:544-554 | collection leaves the remaining entries exact |
| CacheWorkshop.CacheWS.EvaluateCached | src/libs/system/cache.cpp:692-775 | cached evaluation answers what restarting the evaluator from nothing gives: its value, or the first demand that cannot be met less what is supplied |
| CacheWorkshop.CacheWS.Serve | src/libs/system/cache.cpp:692-775 | after any history of evaluations and collections every answer is that of uncached evaluation |
| CacheWorkshop.CacheWS.EvaluateLinked | src/libs/system/cache.cpp:572-608 | the link from uncached code ends, gives the evaluator's value with all demands met, and leaves the context as it was |
| CacheWorkshop.RestartIsTotal | src/libs/system/cache.cpp:586-605 | when no demand is left over, evaluation with the supplied dimensions is evaluation with all demands met |
| CacheWorkshop.RestartDemands | src/libs/system/cache.cpp:586-605 | a demand that gets through is non-empty and new, so the rounds end in a finite universe |
| SharedCache.AskKeepsShared | src/libs/system/cache.cpp:89-378 | a get keeps every entry but the pending ones exact |
| SharedCache.ReplyKeepsShared | src/libs/system/cache.cpp:391-490 | so does a set of what the evaluator says for the way to the entry |
| SharedCache.SweepKeepsShared | src/libs/system/cache.cpp:204-253 | so does a sweep that spares what is pending |
| SharedCache.LoopRepliesHonestly | src/libs/system/cache.cpp:697-717 | the answer that the evaluation loop stores is such a set when it supplies the dimensions on the way |
| SharedCache.GetRestarts | src/libs/system/cache.cpp:89-378 | a get that neither has to calculate nor meets a marker answers what restarting the evaluator gives |
| SharedCache.EveryAnswerIsRight | src/libs/system/cache.cpp:204-490 | in every interleaving of honest evaluations every get answers calc, SP_LOOP for an entry that is pending, or what evaluation without a cache gives |
| SharedLoops.GetThere | src/libs/system/cache.cpp:89-378 | a get where the supplied dimensions lead marks that point, meets a marker, or answers what the evaluator says for it |
| SharedLoops.LookKeepsOthers | src/libs/system/cache.cpp:89-378 | another's get leaves an evaluation on its way, and its finished entry in place |
| SharedLoops.SaveKeepsOthers | src/libs/system/cache.cpp:391-490 | so does another's set |
| SharedLoops.LookKeepsTurn | src/libs/system/cache.cpp:697-717 | one get of one loop keeps every pending entry with its loop and every loop on its way |
| SharedLoops.SaveKeepsTurn | src/libs/system/cache.cpp:703-745 | so does one evaluation and set |
| SharedLoops.TurnsAreKept | src/libs/system/cache.cpp:692-775 | in every interleaving of single turns nothing throws and that stays so |
| SharedLoops.EverySaveIsHonest | src/libs/system/cache.cpp:703-717 | every set stores what the evaluator says for the dimensions on the way to its entry |
| SharedLoops.EveryLoopIsRight | src/libs/system/cache.cpp:692-775 | what a running loop supplies is exactly the dimensions on its way, and a loop that met no SP_LOOP returns what evaluation without a cache gives |
| SharedLoops.NothingIsLeftPending | src/libs/system/cache.cpp:544-554 | when all loops are done and none met SP_LOOP nothing is pending, and a sweep spares everything |
| SharedLoops.MetLoopReturnsCalc | src/libs/system/cache.cpp:747-775 | a run in which a loop that met SP_LOOP returns a calc marker |
| ContextWindow.Window.Copy | src/libs/system/assignment.cpp:59 | a copied context has the same stacks |
| ContextWindow.Window.Lookup | src/include/tl/context.hpp:71-84 | the cached ordinate of a slot is the top of the dimension's stack, and the default outside the window |
| ContextWindow.Window.HasEntry | src/include/tl/context.hpp:113-120 | a dimension has an entry exactly when its stack is not empty, and exactly when it is among the set dimensions |
| ContextWindow.Window.Grow | src/libs/system/context.cpp:98-113 | growing the window at either end keeps every stack |
| ContextWindow.Window.Perturb | src/libs/system/context.cpp:87-120 | perturbing pushes on one stack and touches no other, wherever the dimension lies |
| ContextWindow.Window.Pop | src/include/tl/context.hpp:92-103 | popping uncovers the value below, or the default and an unset dimension |
| ContextWindow.Window.Restore | src/include/tl/context.hpp:86-105 | restoring pops as many values from each stack as the list has occurrences of its dimension |
| ContextWindow.Window.LessEqual | src/libs/system/context.cpp:146-215 | for any two windows: true exactly when every dimension set on the left is set on the right to an equal value; all indices are in bounds |
| ContextWindow.Perturber.Perturb | src/include/tl/context.hpp:233-241 | a scope pushes and remembers |
| ContextWindow.Perturber.Close | src/include/tl/context.hpp:281-284 | leaving a scope gives back every stack as it was when the scope was opened |
| ContextWindow.Perturber.PerturbAll | src/include/tl/context.hpp:286-302 | perturbing by a context pushes exactly what is set in it |
| ContextWindow.RunScope | src/include/tl/context.hpp:204-307 | any well-nested scopes over any dimensions restore every stack, lookup and the set of set dimensions |
| ContextWindow.MinimalContext.constructor | src/include/tl/context.hpp:383-395 | a capture holds, in order, exactly what was set |
| ContextWindow.MinimalContext.LowerBound | src/include/tl/context.hpp:402-404 | bisection finds the first position not below a dimension |
| ContextWindow.MinimalContext.Lookup | src/include/tl/context.hpp:397-414 | lookup by bisection agrees with the context at capture, for every dimension |
| ContextWindow.MinimalContext.PerturbDifference | src/include/tl/context.hpp:430-441 | perturbs by exactly what was captured and is not set in the given context, be it the perturbed one or another |
| ContextWindow.DeltaPerturber.Perturb | src/include/tl/context.hpp:329-335 | adds a dimension and remembers whether it was new the first time |
| ContextWindow.DeltaPerturber.Close | src/include/tl/context.hpp:318-327 | leaving the scope gives back the dimension set, however often dimensions were added |
| BestFit.RegionApplicable | src/libs/system/bestfit.cpp:1600-1699 | true exactly when every ordinate is what the entry asks for: the value, a value of the type stated by constructor, an integer in the range, or a range with bounds at least as tight |
| BestFit.ImpIsIn | src/libs/system/bestfit.cpp:1643-1648 | "imp" of a type holds of exactly the values of that type, and agrees with ":" on everything that is no type |
| BestFit.ImpOfValue | src/libs/system/bestfit.cpp:1643-1648 | "imp" of what is no type holds of nothing |
| BestFit.RangeWithinExactly | src/libs/system/range.cpp:261-273 | a range that holds an integer is within another exactly if all its integers are |
| BestFit.RegionSubset | src/libs/system/bestfit.cpp:1407-1513 | the two-iterator loop decides the merge relation, and with `canequal` false also that there is another dimension or a strictly smaller ordinate under the same specifier |
| BestFit.SpecifierAloneIsNotProper | src/libs/system/bestfit.cpp:1452-1466 | two regions of which one is strictly inside the other by its specifier only, and not counted as proper |
| BestFit.MergeIsPointwiseFrom | src/libs/system/bestfit.cpp:1424-1507 | over dimensions whose order truncation keeps, the merge is the rule for each dimension of the bigger region |
| BestFit.MergeIsPointwiseExactly | src/libs/system/bestfit.cpp:1424-1447 | the merge is that rule for all regions over some dimensions exactly if truncation to 16 bits keeps their order |
| BestFit.SmallDimensionsKeepOrder | src/libs/system/bestfit.cpp:1426-1427 | dimensions that fit in 16 bits keep their order |
| BestFit.TruncationSpoils | src/libs/system/bestfit.cpp:1426-1447 | for any two dimensions that do not keep their order there are regions on which the merge is wrong |
| BestFit.RefinesTransitive | src/libs/system/bestfit.cpp:1600-1622 | refinement is transitive but for an integer, a range around it, and the type of ranges |
| BestFit.PointwiseIsInclusionExactly | src/include/tl/bestfit.hpp:688-698 | if some context is in both regions, the rule for each dimension means inclusion exactly if no range holding an integer is compared with the type of ranges |
| BestFit.RangeTypeSpoils | src/libs/system/bestfit.cpp:205-231 | a region of a range and one of the type of ranges for which a true answer is no inclusion |
| BestFit.RegionSubsetSound | src/libs/system/bestfit.cpp:1407-1513 | if some context is in both regions and the answer is true, every context in the first is in the second |
| BestFit.SameSpecifierExactly | src/libs/system/bestfit.cpp:1657-1680 | under the same specifier an entry is smaller exactly if it asks for no more |
| BestFit.IsAgainstOthers | src/libs/system/bestfit.cpp:1453-1466 | an "is" against another specifier is smaller without a look at its value |
| BestFit.EntryIsInclusionExactly | src/libs/system/bestfit.cpp:1449-1488 | given a common value, an entry is smaller exactly if the specifiers compare and it asks for no more |
| BestFit.InclusionIsPointwise | src/libs/system/bestfit.cpp:1407-1513 | inclusion of regions whose specifiers compare makes the rule hold in every dimension |
| BestFit.RegionSubsetExactly | src/libs/system/bestfit.cpp:1407-1513 | given a common context and no range against the type of ranges, the answer is true exactly if the specifiers compare and every context of the first region is in the second |
| BestFit.BestPositions | src/libs/system/bestfit.cpp:862-905 | the candidates kept are exactly the applicable equations whose region is included in every other's |
| BestFit.NewestOf | src/libs/system/bestfit.cpp:905-940 | the run at the back with equal provenance is complete |
| BestFit.NewestAreNewest | src/libs/system/bestfit.cpp:905-940 | with provenance non-decreasing along the list, that run is exactly the newest of the best |
| BestFit.Bestfit | src/libs/system/bestfit.cpp:847-964 | the choice is the one best equation of greatest provenance; several tied are multiply defined, none is undefined |
| BestFit.ChoiceIsUnique | src/libs/system/bestfit.cpp:847-964 | the specification leaves no freedom |
| BestFit.OrderDoesNotMatter | src/libs/system/bestfit.cpp:847-964 | rearranging the equations, for instance those of equal provenance, gives the same outcome |
| BestFit.ChosenIsMostSpecific | src/libs/system/bestfit.cpp:847-964 | every context in the chosen equation's region is in every other applicable equation's region |
| BestFit.NeverPassedOver | src/libs/system/bestfit.cpp:847-964 | an equation whose region is included in every other one, with specifiers that compare, is never passed over |
| BestFit.BestIsIncludedExactly | src/libs/system/bestfit.cpp:862-905 | an equation is among the best exactly if its region is so included in every other |
| BestFit.ChosenByInclusionExactly | src/libs/system/bestfit.cpp:847-964 | what is chosen is told by the contexts of the regions and the provenance alone |
| Timeline.BestfitGroup.Change | src/include/tl/bestfit.hpp:381-387 | a change is recorded exactly if it is later than the last one |
| Timeline.BestfitGroup.Compile | src/libs/system/bestfit.cpp:405-445 | the intervals are those between consecutive changes, each compiled for its start, the last one open |
| Timeline.BestfitGroup.Evaluate | src/libs/system/bestfit.cpp:563-626 | evaluation uses the definitions of the greatest change not after the time, and none before the first change |
| Timeline.BestfitGroup.Find | src/libs/system/bestfit.cpp:574-626 | last-entry check, linear search and bisection find the one governing interval |
| Timeline.BestfitGroup.SearchBackwards | src/libs/system/bestfit.cpp:588-599 | the reverse linear search finds it |
| Timeline.BestfitGroup.Bisect | src/libs/system/bestfit.cpp:601-625 | the bisection stays in bounds, ends, and finds it |
| Timeline.GovernedOnce | src/libs/system/bestfit.cpp:417-440 | the intervals between increasing changes partition the times from the first change on |
| DfaTables.MinimiseDfa | src/include/lexertl/state_machine.hpp:108-196 | one pass merges exactly the equal rows after the jam row and renumbers every reference |
| DfaTables.ScanRows | src/include/lexertl/state_machine.hpp:111-146 | the scan numbers rows by rank of their first copy and finds exactly the repeated ones |
| DfaTables.ScanNumbers | src/include/lexertl/state_machine.hpp:111-146 | two rows get one number exactly if they are equal, jam and start row keep theirs, and no number is unused |
| DfaTables.Rebuild | src/include/lexertl/state_machine.hpp:148-195 | the new table holds the kept rows, renumbered, at their ranks |
| DfaTables.MergedIsImage | src/include/lexertl/state_machine.hpp:148-190 | a pass gives an image of the table exactly if it has no equal rows, its dead column is zero, or that is never read |
| DfaTables.ImageCompose | src/include/lexertl/state_machine.hpp:78-84 | images of images are images |
| DfaTables.DeadReferenceLost | src/include/lexertl/state_machine.hpp:179-187 | a table whose dead column was zeroed is no image, where that column is read, of one whose was not |
| DfaTables.MinimiseTable | src/include/lexertl/state_machine.hpp:76-85 | the outer loop ends with no two equal rows after the jam row, keeps the size exactly of tables without equal rows, and gives an image exactly under that condition |
| Lexing.StateMachine.Minimise | src/include/lexertl/state_machine.hpp:65-88 | every table of the machine is minimised in place, empty lexer states are passed over; the machine is an image of the old one exactly if each table has no equal rows, a zero dead column, or one that is never read, and then it emits the same tokenisations |
| Lexing.DeadMachineAccepts | src/include/lexertl/lookup.hpp:180-192 | a table with a twin row behind its dead column accepts a given input |
| Lexing.DeadColumnLexesDifferently | src/include/lexertl/state_machine.hpp:179-187 | whatever minimising makes of that table rejects it |
| Lexing.StepCorresponds | src/include/lexertl/lookup.hpp:365-447 | one step of the matcher on the minimised machine is one step on the original with rows renumbered, end-of-line and beginning-of-line entries included |
| Lexing.StepsCorrespond | src/include/lexertl/lookup.hpp:365-447 | so is any number of steps, on any input |
| Lexing.MinimisedLexesAlike | src/include/lexertl/lookup.hpp:365-447 | both machines finish after the same number of steps with the same id, user id, end and next lexer state, or neither finishes |
| Lexing.MinimisedEmitsAlike | src/include/lexertl/lookup.hpp:365-447 | both machines emit the same tokenisations of every input from every state |
| Lexing.StepLegal | src/include/lexertl/lookup.hpp:365-447 | the matcher never leaves the tables or the input |
| Lexing.BytesSpell | src/include/lexertl/lookup.hpp:194-216 | the bytes of a character are its lowest base-256 digits, most significant first |
| Lexing.NextCharWalks | src/include/lexertl/lookup.hpp:194-216 | a character leads to a row exactly if its bytes make a walk through the table there |
| Lexing.PopBitIsSecond | src/include/lexertl/lookup.hpp:134-138 | the pop bit is the second lowest of the end-state cell |
| MaximalMunch.EolTurn | src/include/lexertl/lookup.hpp:164-216 | every end-of-line entry followed before a newline keeps what was found on the way |
| MaximalMunch.JamStays | src/include/lexertl/lookup.hpp:400-416 | a run that has jammed accepts nothing longer |
| MaximalMunch.EolDone | src/include/lexertl/lookup.hpp:164-178 | when no end-of-line entry is left, what was found on the way is the token at this place |
| MaximalMunch.JamTurn | src/include/lexertl/lookup.hpp:400-416 | when a character leads nowhere the last token up to the end of the input has been recorded |
| MaximalMunch.EndTurn | src/include/lexertl/lookup.hpp:282-296 | at the end of the input one end-of-line entry is followed |
| MaximalMunch.CharTurn | src/include/lexertl/lookup.hpp:260-273 | one more character either replaces the best token so far or leaves it the best, line beginnings included |
| MaximalMunch.TurnedIsStep | src/include/lexertl/lookup.hpp:392-417 | one turn of the loop is one step of the matcher and keeps the account of the best token |
| MaximalMunch.LeaveTurn | src/include/lexertl/lookup.hpp:418-446 | leaving the scan makes the turn that the longest match asks for: stuck, going on, or reporting |
| MaximalMunch.Scan | src/include/lexertl/lookup.hpp:392-417 | whatever the features, the scanning loop ends with the last token up to the end of the input recorded |
| MaximalMunch.OneTurn | src/include/lexertl/lookup.hpp:379-446 | one turn of a call is stuck, goes on or reports exactly as the longest match from where it stands asks |
| MaximalMunch.GoesShrinks | src/include/lexertl/lookup.hpp:426-433 | going on means to have read something or to have popped a lexer state, so a call ends |
| MaximalMunch.Next | src/include/lexertl/lookup.hpp:365-447 | whatever the features, a call is longest matches one behind the other as long as they are skipped or say that the input has ended, then the longest match with its ids, lexer state, stack and line beginning, npos exactly if there is none, or the end of the input |
| MaximalMunch.NeverReportsSkip | src/include/lexertl/lookup.hpp:426 | what is to be skipped is never reported |
| MaximalMunch.SkippedInput | src/include/lexertl/lookup.hpp:374-426 | if no token stands for the end of the input, the input up to the start of the reported match splits into longest matches that are to be skipped |
| MaximalMunch.PlainIsOneTurn | src/include/lexertl/lookup.hpp:365-447 | with no such tokens a call is one longest match |
| MaximalMunch.LongestIsUnique | src/include/lexertl/lookup.hpp:392-417 | a longest match is unique |
| MaximalMunch.PopMachineIsStuck | src/include/lexertl/lookup.hpp:304-317 | a machine, and an input on which it pops an empty stack |
| MaximalMunch.EmptySkipNeverEnds | src/include/lexertl/lookup.hpp:374-426 | a machine that skips the empty token for ever |
| MaximalMunch.EolCircleNeverEnds | src/include/lexertl/lookup.hpp:164-178 | a machine whose end-of-line entries lead in a circle for ever |
| RangeSets.StringToken.Insert | src/include/lexertl/string_token.hpp:106-182 | the vector stays sorted, disjoint and non-adjacent and denotes the union |
| RangeSets.Compare | src/include/lexertl/string_token.hpp:119-172 | how a range to insert lies to a current one, and what the two grow to |
| RangeSets.InsertLast | src/include/lexertl/string_token.hpp:176-179 | the grown range is put where it keeps the order |
| RangeSets.StringToken.InsertAll | src/include/lexertl/string_token.hpp:94-104 | inserting a whole token denotes the union, and inserting a token into itself changes nothing |
| RangeSets.StringToken.Negate | src/include/lexertl/string_token.hpp:184-217 | the result denotes the complement within the character type, in canonical form |
| RangeSets.CanonicalUnique | src/include/lexertl/string_token.hpp:64-73 | equal sets have identical vectors |
| RangeSets.ComplementTwice | src/include/lexertl/string_token.hpp:184-217 | negating twice gives the identical vector |
| RangeSets.StringToken.Adjust | src/include/lexertl/string_token.hpp:390-419 | a part is cut out of the current range, which may vanish, shrink or split |
| RangeSets.StringToken.Intersect | src/include/lexertl/string_token.hpp:219-263 | an exact three-way split: the common characters are added to the overlap and leave both sides, all three stay canonical, and the walk ends |
| RangeSets.StringToken.Remove | src/include/lexertl/string_token.hpp:265-307 | exactly the difference is left |
| RangeSets.CutSize | src/include/lexertl/string_token.hpp:244-263 | cutting leaves strictly fewer characters ahead of the iterator |
| OperatorTree.InsertIsRight | src/libs/system/ast.cpp:41-94 | inserting an operator keeps the reading and the respect for precedence and associativity, or there is a conflict |
| OperatorTree.AddRightIsRight | src/libs/system/ast.cpp:97-100 | so does inserting in the right operand |
| OperatorTree.RespectfulTreeIsUnique | src/libs/system/ast.cpp:41-94 | at most one tree has a given reading and respects its operators |
| OperatorTree.RootIsLoosest | src/libs/system/ast.cpp:41-94 | the root of such a tree binds loosest |
| OperatorTree.ConflictHasNoTree | src/libs/system/ast.cpp:64-90 | two operators of equal precedence that do not group, with nothing looser between, have no tree |
| OperatorTree.ParseBinaryOps | src/libs/system/parser.cpp:525-585 | folding the insertion over any sequence gives the unique respectful tree with that reading, and an error exactly when two operators conflict, which is exactly when there is no tree; the error names the kind of conflict |
| Odometer.Increment | src/libs/system/assignment.cpp:101-118 | the counters are advanced to the next reading, and the turn-over is noticed |
| Odometer.SuccessorCounts | src/libs/system/assignment.cpp:101-123 | the next reading has the next number, and the counters turn over exactly after the last |
| Odometer.NumberIsUnique | src/libs/system/assignment.cpp:101-123 | two readings with the same number are the same |
| Odometer.FullTurn | src/libs/system/assignment.cpp:88-125 | a full turn shows every reading exactly once |
| Odometer.VisitsProductExactly | src/libs/system/assignment.cpp:88-125 | it visits exactly the product of the ranges if and only if no range is empty |
| Odometer.EmptyRangeIsVisited | src/libs/system/assignment.cpp:88-125 | the one reading of an empty range is visited and is in no product |
| Odometer.Prepare | src/libs/system/assignment.cpp:59-84 | ranges become counters in order, other entries are stored for good, and an unbounded range throws |
| Odometer.Visit | src/libs/system/assignment.cpp:90-101 | a round puts its value exactly if its context extends the given one, and leaves no trace in the evaluation context |
| Odometer.Turn | src/libs/system/assignment.cpp:88-125 | the loop ends after one full turn, with the output of exactly its readings in order |
| Odometer.ContextsAreDemanded | src/libs/system/assignment.cpp:50-125 | the contexts of one full turn are exactly the demanded ones, each once |
| Odometer.OutputsAreDemanded | src/libs/system/assignment.cpp:93-101 | what is put is exactly the values computed in demanded contexts that extend the given one, each once |
| Odometer.RangesAt | src/libs/system/assignment.cpp:61-84 | the enumerated entries are exactly the ":" entries with a range, in order |
| Odometer.EnumerateContextSet | src/libs/system/assignment.cpp:40-126 | throws exactly on an unbounded range; the contexts enumerated are exactly those that hold an integer of every range (its lower bound if it is empty), the ordinate of every other entry, and elsewhere what the given context holds, each once; what is put are the values computed in those that extend the given context, each once |
| ArgPermutation.Shift | src/tltext/optionparser.h:1333-1346 | the swaps move one argument before the given number of arguments ahead of it and keep all others in order |
| ArgPermutation.SettleOption | src/tltext/optionparser.h:1617-1657 | one option is checked, and performed if the action accepts it; exactly a detached argument that it takes moves the option at once |
| ArgPermutation.LookUp | src/tltext/optionparser.h:1555-1616 | which option an argument names at a position, and which text could be its argument |
| ArgPermutation.OptionLoop | src/tltext/optionparser.h:1555-1659 | the loop over the short options in a group does what the specification says |
| ArgPermutation.AttachedIs | src/tltext/optionparser.h:1590-1597 | an attached argument is the text after the first equals sign, if there is one |
| ArgPermutation.GroupIsRight | src/tltext/optionparser.h:1600-1657 | the short options performed are those of the characters in order, with none that has a descriptor left out up to the first that got an argument |
| ArgPermutation.HandleIsRight | src/tltext/optionparser.h:1547-1659 | every option gets what is attached to it or the next argument, as its check decides; the next argument is taken exactly by a last option that got it |
| ArgPermutation.HandleIsAccepted | src/tltext/optionparser.h:1655-1656 | every option performed was accepted by the action |
| ArgPermutation.GroupFailsForReason | src/tltext/optionparser.h:1630-1656 | parsing fails at a group only for an illegal argument or an action that refuses |
| ArgPermutation.WhatLooksLikeAnOption | src/tltext/optionparser.h:1512-1537 | a lone minus is a non-option, two are the terminator, anything longer that starts with a minus is an option |
| ArgPermutation.HandleOption | src/tltext/optionparser.h:1547-1659 | the options of an argument are done from left to right; each gets the text after its equals sign or character, or else the next argument, exactly if its check accepts that, and was accepted by the action; the vector is shifted at most once |
| ArgPermutation.TakeOption | src/tltext/optionparser.h:1547-1664 | one turn for an option keeps the vector arranged: processed options, non-options so far, untouched rest |
| ArgPermutation.ParseOptions | src/tltext/optionparser.h:1508-1665 | the vector is arranged in every iteration and at the end, fatal ends included, and the arguments are classified from left to right |
| ArgPermutation.Workhorse | src/tltext/optionparser.h:1500-1679 | the final vector is a permutation: options with their arguments in order, then the non-options in order, then the rest; the action is told start and number as specified, and parsing succeeds exactly if no option failed and the action agrees |
| ArgPermutation.CountRest | src/tltext/optionparser.h:1667-1676 | the remaining arguments are counted if their number was not given |
| ArgPermutation.KeptPlaces | src/tltext/optionparser.h:1500-1679 | arguments of one sort keep their original order, and none is lost |
| ArgPermutation.ArrangedIsPermutation | src/tltext/optionparser.h:1333-1346 | the arrangement loses and invents nothing |
| ArgPermutation.HandsOverExactly | src/tltext/optionparser.h:1667-1678 | what is handed over is the non-options in order and the rest, exactly unless the given number is too large and parsing stopped early |
| ArgPermutation.TooLargeNumberStays | src/tltext/optionparser.h:1667-1678 | one argument announced as three is handed over as three |
| ArgPermutation.ClassifyExtends | src/tltext/optionparser.h:1508-1560 | non-options and the terminator look like it, and only an option takes the argument after it |
| ArgPermutation.StopsWhere | src/tltext/optionparser.h:1512-1540 | without failure parsing ends at the end, after the terminator, or in POSIX mode before the first non-option, having seen none |
| ArgPermutation.ReparsedAlike | src/tltext/optionparser.h:1095-1100 | the reordered vector is parsed again to the same options and left as it is, with either flag, exactly if every option that took no argument is handled alike beside its new neighbour |
| ArgPermutation.DecidedIsUnmoved | src/tltext/optionparser.h:884-899 | that is so for every vector if each check decides by the option alone whether it takes the next argument |
| ArgPermutation.OptionalArgumentMoves | src/tltext/optionparser.h:1095-1100 | a vector that is parsed differently again, with an option that takes an argument if there is one |
| ArgReparse.HandleAfter | src/tltext/optionparser.h:1547-1659 | for an action that accepts everything, how an argument is handled does not depend on the options before it |
| ArgReparse.FailsFrom | src/tltext/optionparser.h:1508-1665 | whether parsing fails from some point on depends on the arguments from there on |
| ArgReparse.NeighbourOf | src/tltext/optionparser.h:1333-1346 | which neighbour an option can get by the reordering |
| ArgReparse.DecidedIsSteady | src/tltext/optionparser.h:884-899 | checks that decide by the option alone treat all neighbours alike |
| ArgReparse.ReparsedAlikeExactly | src/tltext/optionparser.h:1095-1100 | for such an action every vector is parsed again to the same options, with either flag, exactly if each option treats the pairs of neighbours that can come about alike |

## Left out

- All input and output, the web programs, character conversion, library loading, debug printing and the generation of C++ code.
- Compressed character lookup beyond splitting a character into bytes, and the iterators that decode UTF.
- The construction of the tables from regular expressions, and `basic_char_state_machine`, which rewrites output fields.
- Calling the matcher in a lexer state without a start row, which reads outside the table in the source: the model is stuck there.
- MaximalMunch.Next: requires that no end-of-line entries lead in a circle and that what an empty token can be recorded as is neither skipped nor the end of the input. A call on such a machine can run for ever; what it does on inputs where it ends all the same is not stated.
- A table as one flat vector of numbers: it is a vector of rows here, so index arithmetic and overflow of the id type are not captured.
- The cache tree's in-place update through references: the visitors return the changed subtree and the cache object stores it. Hit and miss counters are left out, and ages do not overflow.
- Threads and the time argument of cached evaluation, and a `CacheWS` with caching switched off.
- CacheWorkshop.CacheWS.EvaluateCached: the evaluator is a function that reads only what it is given and does not call the same cache again while it runs; what such calls are answered is stated by `SharedCache.EveryAnswerIsRight` and `SharedLoops.EveryLoopIsRight`, and the value that a loop then yields is not modelled.
- SharedLoops.EveryLoopIsRight: sweeps come between evaluations, as in the source, which sweeps between instants; they spare what a loop that met SP_LOOP may have left pending.
- The perturber that the cached evaluator opens for supplied dimensions, which it does not read from.
- `Context::restore` from a tuple, `reset`, `fillDelta` and the rho queue: only perturbing and restoring from a list keep the whole invariant.
- ContextWindow.Window.Restore: restoring requires that the listed dimensions were perturbed, as its documentation does.
- Union, nested region and tuple ordinates, and the types `range` and `region` as plain ordinates of unknown kind; ranges are intervals with optional bounds.
- The evaluation of guards and conditions, the loop over priorities, and the lookup of an equation by `getEquation`: best fitting starts from the evaluated regions of the applicable equations.
- Which equations are live at a time, and the uuid bookkeeping of replacing and deleting them: what is compiled at a change is one opaque value.
- The truncation of the time ordinate to a machine integer.
- Operators with variable or comparing associativity, which the lexer never builds.
- The demand loop's check of the region against the variance of an output, which is empty in the source.
- Which descriptor a long name, an abbreviation or a short character selects, the check of an argument, and the relinking of option lists: these are parameters of the parser. What was performed within the argument that made parsing fail is not reported.
- Dependency analysis, type inference and semantic transforms, and reference counting of constants.
