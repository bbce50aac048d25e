# Verified model of osmem's algorithms

osmem is an in-memory search engine with the HTTP interface of OpenSearch. This project models the
parts of it whose correctness is not visible from reading one function, and proves what those parts
are for. Each `.dfy` file names the source file it follows in its first comment; modules are named
like their files (`DateRounding.dfy` holds `Clocks` and `Zones`). `dafny verify dfyconfig.toml`
checks everything.

Loops of the source are methods with loops, proved against functions or predicates; objects that the
source updates in place (clusters, indices, the route trie, the break iterator, the depth-first walk)
are classes. What the results mean is stated by independent definitions: languages of strings,
reading a clock, sets of registered patterns, tuples of a hit, runs of a system.

## What is modelled

* **Copy-on-write clusters.** `CopyOnWrite` is a transition system: any number of goroutines and
  clusters, with one step for every atomic access to a reference count. Reference counts are exact in
  every reachable state, a write in place only touches an unshared index, and every run is
  indistinguishable from one of clusters that share nothing. `Clusters` has the same operations on
  objects, one at a time.
* **Alias metadata.** `Aliases`, `AliasLifecycle`, `AliasCluster`: batches of alias actions are
  planned, applied to a work copy, validated and committed; index creation and deletion.
  `AliasMeaning` says what a batch leaves of every alias and why one is refused. Over every run each alias keeps at most one write index and is hidden everywhere or nowhere.
* **Time zones.** `Clocks` are wall clocks with gaps and overlaps, `Zones` the period searches,
  `Rounding` rounds to calendar units and fixed intervals, `NextRounding` goes from a key to the next,
  `GapFilling` and `AutoDateHistogram` build histograms on rounding keys.
* **Text languages.** `IntervalRegexp` (intervals of numbers as regular expressions), `Glob` and
  `Wildcard` (backtracking matchers), `FilterPath` and `FilterSyntax` (response filtering),
  `AggPath` (buckets paths), `QueryString`.
* **Routing.** `PathTrie`, `RouteTable`, `Router`: the trie lookup agrees with the set of registered
  patterns.
* **Aggregations.** `PipelineOrder` (topological sort with cycle detection), `CompositeOrder`,
  `Composite`, `CompositePages`, `CompositeClient` (paging), `TermsOrder`, `TermsReduction`, `Terms` (counting and
  cutting off).
* **Break iterators.** `BreakRules` (the tables), `BreakMachines` (forward and backward machines),
  `BreakIterator` (the object with its cached break). `BreakTraces` has the rule for the break
  positions, and `BreakLaws` what the tables mean for sentences and words.
* **Printers.** `Cbor` and `Smile` print cat tables (`CatTables`); each has a decoder written from the format.
* **By-scroll workers.** `ByScroll`: batches, `max_docs`, conflicts, slices.

## Where the code does not do what it promises

Each of these is proved: a concrete input that shows it, or the exact condition, or both.

* A width in `<lo-hi>` (leading zeros) constrains the numbers only when `hi - lo < 5000`, and not when
  `hi` is the greatest integer: the loop counter wraps then, and negative numerals match, unless the
  interval has just 5000 numbers (`IntervalRegexp.WidthKeptIffNarrow`, `IntervalRegexp.CounterWraps`).
* Rounding to a unit below a day returns the last shown multiple exactly at instants that are no offset
  change, that show a multiple, or that truncate to the one shown last before the change
  (`Rounding.LastShownExactly`, which also has the one coincidence with the epoch). At another change, such as
  one from 2:00 to 2:30, it returns an hour before the previous change, in real zones months earlier
  (`Rounding.EarlierHourReturned`).
* In particular, it returns the epoch when the instant is the first offset
  change of its zone and jumps over the truncated local time; before the epoch that is a later instant
  (`Rounding.RoundNotAfter`, `Rounding.RoundsForwardHappens`).
* Rounding to a fixed interval misses a later boundary exactly when the multiple below the local time
  was jumped over and the clock has reached the next multiple since (`Rounding.OvershootsExactly`,
  `Rounding.OvershotHappens`).
* From a boundary of a fixed interval, the next one is found exactly when the clock steps on from it:
  before an overlap it is passed over or even lies in the past, and at a gap the result may be no boundary
  (`NextRounding.IntervalNextExactly`, `NextRounding.NextGoesBack`). Histograms on such intervals are
  filled wrongly (`NextRounding.IntervalLaws`).
* For units below a day, a first offset change before the epoch can make the epoch the next key
  (`NextRounding.SubDayNextExactly`, `NextRounding.EpochInTheWayHappens`).
* An index can be created with its own name as an alias (`AliasLifecycle.CreateDisjoint`,
  `AliasLifecycle.OwnAliasAccepted`).
* With several indices and `shard_min_doc_count`, the documents of an index appear in no count of the
  response exactly when it has some and none of its terms reaches that count (`Terms.LostExactly`,
  `Terms.PairsLost`).
* A batch that `max_docs` cuts short ends before `max_docs` is reached exactly when none of the writes so far
  fails and one in the batch is a noop or a tolerated conflict. If hits follow, the rest of the batch is
  skipped; otherwise the worker stops short (`ByScroll.SkipsExactly`, `ByScroll.StopsShortExactly`,
  `ByScroll.SkipHappens`).
* A client that sends back the after keys of composite pages gets all tuples exactly when the last key of
  every page is read back as a key from there up to the next; with a format that loses information pages
  may repeat without end (`CompositeClient.ClientPagesExact`, `CompositeClient.DaysNeverEnd`).
* A sentence can break before the period that ends it: behind more than one space, one opening character
  or symbol that no letter follows, as in "a.  (1)", does that (`BreakLaws.OpenerAlone`).
* A path of a filter in which a segment other than the last ends with a backslash cannot be written
  (`FilterSyntax.CompilesExactly`).

## Model

| member | source | states |
|---|---|---|
| IntervalRegexp.SplitFixedExact | internal/engine/aggs_regexp.go:479-505 | a digit string of the width is matched by exactly one alternative when it lies between the bounds, and any other string by none |
| IntervalRegexp.SameLengthIsFixed | internal/engine/aggs_regexp.go:443-476 | between numerals of one length, the numeric split is the fixed-width split behind the common prefix |
| IntervalRegexp.SplitNumericRangeExact | internal/engine/aggs_regexp.go:433-476 | a string is matched by exactly one alternative when it is a numeral without leading zeros of [lo, hi], and by none otherwise; for all lo and hi |
| IntervalRegexp.PrefixedFan | internal/engine/aggs_regexp.go:507-513 | prefixing all alternatives of a fan is building the fan behind the prefix |
| IntervalRegexp.ZerosThenExact | internal/engine/aggs_regexp.go:428 | with leading zeros allowed, exactly the digit strings whose value is in the interval match |
| IntervalRegexp.PaddedRunExact | internal/engine/aggs_regexp.go:417-427 | the padded literals match exactly the digit strings of the width whose value is in the interval, and the negative numerals that the counter wraps to |
| IntervalRegexp.DecimalIntervalRegexp | internal/engine/aggs_regexp.go:415-429 | the loop with its 64-bit counter builds the padded alternatives when there are at most 5000 of them, and the split otherwise |
| IntervalRegexp.DecimalIntervalDenotes | internal/engine/aggs_regexp.go:415-429 | what the expression matches, in terms of value, length and wrapped numerals, for all bounds up to the greatest integer |
| IntervalRegexp.WidthKeptIffNarrow | internal/engine/aggs_regexp.go:412-429 | the width constrains the matches if and only if the interval has at most 5000 numbers, and exactly 5000 when it ends at the greatest integer |
| IntervalRegexp.CounterWraps | internal/engine/aggs_regexp.go:420 | an interval of fewer numbers that ends at the greatest integer also matches the least integer |
| Glob.GlobsIsDenotes | http_filterpath.go:182-216 | the recursive meaning of a pattern is: some strings in place of the stars give the text |
| Glob.SearchPart | http_filterpath.go:204-214 | the loop over the occurrences of a literal finds a fitting one whenever there is one |
| Glob.GlobMatch | http_filterpath.go:185-216 | true if and only if the text comes from the pattern by replacing every star with some string |
| Wildcard.WildcardMatch | internal/engine/mapping.go:1290-1318 | decides the declarative meaning of `*` and `?`, although it goes back to the last star only |
| Wildcard.NextStar | internal/engine/mapping.go:1301-1303 | a later star makes the choices for the earlier one irrelevant |
| Wildcard.Backtrack | internal/engine/mapping.go:1307-1309 | a mismatch rules out the attempt at the mark and no other |
| Wildcard.AliasPatternMatches | internal/engine/alias.go:521-542 | the excluding list semantics of alias patterns |
| FilterPath.EvaluateFilterPath | http_filterpath.go:94-112 | the loop gives the verdict of one step of all cursors |
| FilterPath.SegmentIsGlob | http_filterpath.go:94-112 | a segment matches what it denotes as a pattern; `*` and `**` denote every name |
| FilterPath.EvaluateStep | http_filterpath.go:94-112 | after the step, the remaining cursors select below the name exactly what the old ones select with it; `**` is one or more levels |
| FilterPath.FilterValueExact | http_filterpath.go:114-147 | inclusive keeps exactly the scalars with a selected path, exclusive exactly the others, in document order |
| FilterPath.ModesPartition | http_filterpath.go:114-147 | the scalars of any tree are those the one mode keeps and those the other keeps |
| FilterPath.FilterPrunes | http_filterpath.go:114-147 | the result is the tree without some members and items: what stays keeps its name, its nesting and its place, and nothing inside is emptied |
| FilterPath.ApplyPrunes | http_filterpath.go:150-180 | so is the filtered response |
| FilterPath.ApplyExact | http_filterpath.go:150-180 | a scalar survives both passes, as often as it occurs, iff an include filter selects it (or there is none) and no exclude filter does |
| FilterSyntax.CutPath | http_filterpath.go:69-76 | the loop cuts at the dots that no backslash precedes |
| FilterSyntax.CompilePath | http_filterpath.go:69-83 | cutting, dropping empty segments at the end, unescaping |
| FilterSyntax.CutsWritten | http_filterpath.go:69-76 | a written path is cut into its segments, unless a backslash ends one before the last, and then into fewer |
| FilterSyntax.CompileWritten | http_filterpath.go:69-83 | a path is read back from its escaped form if and only if no segment but the last ends with a backslash |
| FilterSyntax.CompilesExactly | http_filterpath.go:69-83 | some text compiles to a path if and only if its last segment is not empty and only that may end with a backslash |
| FilterSyntax.CompileFilterPaths | http_filterpath.go:62-86 | blank filters are skipped, the others compiled in order |
| FilterSyntax.ParseFilterPath | http_filterpath.go:34-59 | the loops over the parts and the error test compute `Parse` |
| FilterSyntax.RejectedExactly | http_filterpath.go:55-57 | the value is rejected if and only if it excludes something and all its exclusions are blank; inclusions never cause it |
| FilterSyntax.ParsedSelects | http_filterpath.go:40-54 | the compiled filters select what the parts of the value select, duplicates or not |
| FilterSyntax.ResponseExact | http_filterpath.go:34-180 | from the text of filter_path to the scalars that are left of the response |
| Clocks.AfterChange | internal/engine/aggs_dates.go:461-498 | from a change on a clock with changes over 36 hours apart never shows less than right after it |
| Clocks.Reached | internal/engine/aggs_dates.go:526-536 | every local time the clock has passed was shown or jumped over |
| Clocks.GapUnique | internal/engine/aggs_dates.go:526-536 | a local time is jumped over by at most one change |
| Zones.PeriodAt | internal/engine/aggs_dates.go:461-498 | the longest stretch of one offset around the instant, neighbours with the same offset merged |
| Zones.ValidOffsets | internal/engine/aggs_dates.go:504-523 | exactly the offsets at which the local time occurs, in the order of their instants |
| Zones.GapTransition | internal/engine/aggs_dates.go:526-536 | the change that jumps over the local time |
| Zones.PreviousTransition | internal/engine/aggs_dates.go:540-546 | the last offset change strictly before the instant, none exactly when there is none |
| Rounding.FloorMillisIsFloor | internal/engine/aggs_dates.go:366-371 | the quotient is floored on either side of zero |
| Rounding.TruncateIsFloor | internal/engine/aggs_dates.go:385-411 | truncating a local time to any unit is a monotone idempotent floor |
| Rounding.WeekIsShiftedFloor | internal/engine/aggs_dates.go:395-400 | weeks start on Mondays |
| Rounding.FirstTimeOnDay | internal/engine/aggs_dates.go:435-440 | the first instant that shows the local midnight, or the change that jumps over it |
| Rounding.RoundDay | internal/engine/aggs_dates.go:287-293 | rounding to a day or more is the start of the truncated local day |
| Rounding.DayRoundingIdempotent | internal/engine/aggs_dates.go:287-293 | it never goes forward and rounding again changes nothing, gaps and overlaps included |
| Rounding.TruncateAsLocalTime | internal/engine/aggs_dates.go:317-326 | the last instant up to the argument that shows the truncated local time, or that there is none |
| Rounding.RoundSubDay | internal/engine/aggs_dates.go:294-315 | the last instant that shows the truncated local time when there is one since the change before; otherwise the last multiple shown before that change, or the epoch when there was none |
| Rounding.SubDayUnique | internal/engine/aggs_dates.go:294-315 | there is one such result |
| Rounding.LastShownExactly | internal/engine/aggs_dates.go:294-315 | the result is the last shown multiple if and only if the instant is no change, shows a multiple, or truncates to the last one shown before it, or the first change skips its multiple and the last shown one is that of the epoch |
| Rounding.EarlierHourReturned | internal/engine/aggs_dates.go:302-312 | in a zone that goes back and 91.5 hours later forward from 2:00 to 2:30, the hour of 2:30 is one before the first change |
| Rounding.RoundInterval | internal/engine/aggs_dates.go:346-364 | recursion terminates; the result is the jump over the multiple below the local time when there is one, and otherwise the last boundary up to the argument |
| Rounding.IntervalUnique | internal/engine/aggs_dates.go:346-364 | there is one such result |
| Rounding.OvershootsExactly | internal/engine/aggs_dates.go:346-364 | the result is the last boundary if and only if the multiple below the local time was not jumped over with the next multiple reached since |
| Rounding.OvershotHappens | internal/engine/aggs_dates.go:346-364 | in a zone with a gap and an overlap 100 hours later the rounding returns the gap and passes over a boundary 99 hours after the epoch |
| Rounding.Round | internal/engine/aggs_dates.go:279-315 | rounding with an offset is rounding of the shifted instant |
| Rounding.RoundNotAfter | internal/engine/aggs_dates.go:287-364 | the result is not after the argument if and only if the argument is not a first change before the epoch that skips its truncated time |
| Rounding.RoundsForwardHappens | internal/engine/aggs_dates.go:294-315 | a zone and an instant for which the result is after the argument |
| NextRounding.NextIsNext | internal/engine/aggs_dates.go:417-432 | the next midnight is the next local time that truncation keeps |
| NextRounding.NextZonedDay | internal/engine/aggs_dates.go:334-337 | the start of the day of the next midnight |
| NextRounding.NextDayIsLeast | internal/engine/aggs_dates.go:328-337 | from the start of a day, week, month, quarter or year to the least later one, in every zone, with gaps of a whole day and overlaps across midnight |
| NextRounding.ZonedOfLocal | internal/engine/aggs_dates.go:551-557 | the first instant that shows the local time, or the local time read with the offset before the gap |
| NextRounding.NextZonedInterval | internal/engine/aggs_dates.go:329-333 | one interval later in local time |
| NextRounding.IntervalNextExactly | internal/engine/aggs_dates.go:328-333 | it is the least boundary after a boundary if and only if the clock steps on from there |
| NextRounding.NextGoesBack | internal/engine/aggs_dates.go:328-333 | a zone and a boundary from which it goes back |
| NextRounding.NextZonedSubDay | internal/engine/aggs_dates.go:338-343 | rounding one step later, or two |
| NextRounding.SubDayNextExactly | internal/engine/aggs_dates.go:328-343 | it is the least key after a key if and only if the epoch is not in the way |
| NextRounding.EpochInTheWayHappens | internal/engine/aggs_dates.go:328-343 | a zone and an hour from which the next hour is that of the epoch |
| NextRounding.Next | internal/engine/aggs_dates.go:283-343 | the next key of a rounding with an offset |
| NextRounding.DayLaws | internal/engine/aggs_hist.go:674-733 | histograms on days and longer units can be filled in every zone |
| NextRounding.IntervalLaws | internal/engine/aggs_hist.go:674-733 | histograms on intervals can be filled if and only if the clock steps on from every boundary |
| NextRounding.SubDayLaws | internal/engine/aggs_hist.go:674-733 | histograms on hours or less can be filled if and only if the epoch is in the way of no key |
| GapFilling.KeysExact | internal/engine/aggs_hist.go:674-733 | for every rounding whose next is the least later key: the keys of a stretch are exactly the rounding keys in it, in order, once each |
| GapFilling.AddEmpty | internal/engine/aggs_hist.go:677-706 | one empty bucket for every key of a stretch, or too many |
| GapFilling.AddBuckets | internal/engine/aggs_hist.go:710-722 | the buckets with empty ones for exactly the keys between them |
| GapFilling.FillDateHistogram | internal/engine/aggs_hist.go:674-733 | every key from the first to the last once, all buckets kept, extended bounds covered; an error if and only if that exceeds the limit |
| AutoDateHistogram.OriginLaws | internal/engine/aggs_auto_date_histogram.go:64-67 | multiples of an interval from an origin are a monotone idempotent floor with its successor |
| AutoDateHistogram.CalendarLaws | internal/engine/aggs_dates.go:328-432 | every calendar unit is such a rounding in a fixed-offset zone |
| AutoDateHistogram.FixedZoneRounds | internal/engine/aggs_dates.go:287-315 | with a clock that never changes, rounding is truncation of the local time |
| AutoDateHistogram.AutoTierCount | internal/engine/aggs_auto_date_histogram.go:132-147 | the number of keys from the least to the greatest value, exact up to the cap |
| AutoDateHistogram.ChooseTier | internal/engine/aggs_auto_date_histogram.go:264-276 | the first permitted tier that fits the target, or the last one when none does |
| AutoDateHistogram.CountedOnce | internal/engine/aggs_auto_date_histogram.go:277-326 | every value counts once, for its key |
| AutoDateHistogram.Bucketed | internal/engine/aggs_auto_date_histogram.go:277-326 | every value is counted once in the bucket of its key, and every key in between has a bucket |
| AutoDateHistogram.CollectAutoDateHistogram | internal/engine/aggs_auto_date_histogram.go:230-340 | the histogram of the chosen tier over the whole span, an error if and only if it has more buckets than the limit |
| AutoDateHistogram.FinestThatFits | internal/engine/aggs_auto_date_histogram.go:132-326 | it has as many buckets as the tier was counted to have, at most the target exactly when some permitted tier fits, and every finer permitted tier would exceed it |
| CopyOnWrite.InitInv | internal/engine/cluster.go:70-153 | the invariant holds at the start |
| CopyOnWrite.InvDefined | internal/engine/cluster.go:70-153 | no step meets a missing entry or reference |
| CopyOnWrite.StepCounts | internal/engine/cluster.go:70-153 | every step keeps reference counts equal to the number of holders, and an index closed exactly when nobody holds it |
| CopyOnWrite.StepInv | internal/engine/cluster.go:70-153 | the invariant holds in every reachable state, whatever the interleaving |
| CopyOnWrite.NothingHeldIsClosed | internal/engine/index.go:245-250 | a closed index is never reached through a reference |
| CopyOnWrite.RefsCoverMappings | internal/engine/cluster.go:70-153 | the count of an index is at least the number of clusters that map to it, and equal when no operation is in between |
| CopyOnWrite.WriteIsUnshared | internal/engine/cluster.go:138-153 | an index that is written in place has count 1 and no other holder |
| CopyOnWrite.StepRefines | internal/engine/cluster.go:70-153 | every step does to what can be read what it would do to clusters that share nothing |
| CopyOnWrite.RunRefines | internal/engine/cluster.go:70-153 | so does every run |
| CopyOnWrite.RunIsolated | internal/engine/cluster.go:70-153 | no cluster and no snapshot observes the writes of others |
| Clusters.Index.Release | internal/engine/index.go:245-250 | one reference less; the last one closes |
| Clusters.Cluster.Share | internal/engine/cluster.go:80-83 | a shared entry keeps all reference counts exact |
| Clusters.Cluster.Clone | internal/engine/cluster.go:70-97 | the clone maps to the same indices, reads the same, and counts stay exact in all clusters |
| Clusters.Cluster.Drop | internal/engine/cluster.go:634-655 | one entry and its reference go; the index is closed if and only if it was the last |
| Clusters.Cluster.Close | internal/engine/cluster.go:100-117 | all references are given back and no other cluster loses an index |
| Clusters.Cluster.SetEntry | internal/engine/cluster.go:146-151 | after the swap the old index has exactly one reference too many |
| Clusters.Cluster.Replace | internal/engine/cluster.go:146-151 | swap and release make the counts exact again |
| Clusters.Cluster.Writable | internal/engine/cluster.go:138-153 | the index returned has this cluster as its only holder, with unchanged content everywhere |
| Clusters.Cluster.Write | internal/engine/cluster.go:138-153 | a write changes what this cluster reads under this name and nothing any other cluster reads |
| AliasCluster.Cluster.AliasTargets | internal/engine/cluster.go:189-201 | exactly the indices that have the alias |
| AliasCluster.Cluster.WriteIndex | internal/engine/cluster.go:240-260 | an answer is a write target; an error means there is none |
| AliasLifecycle.WriteTargetUnique | internal/engine/cluster.go:240-260 | in a consistent cluster two answers are the same, whatever the order of the map |
| AliasCluster.Cluster.ActionTargets | internal/engine/alias.go:480-516 | the indices of an action, in order and once each, or its first error |
| AliasCluster.Cluster.ExpandOne | internal/engine/alias.go:595-637 | the final actions of one action on one index |
| AliasCluster.Cluster.ExpandActions | internal/engine/alias.go:581-643 | all final actions in order, or the first error |
| AliasCluster.Cluster.RunActions | internal/engine/alias.go:648-705 | the work copy over the tables of the cluster is what the actions do, and no table of the cluster has changed |
| AliasMeaning.ReplayExact | internal/engine/alias.go:648-705 | for any final actions, index and alias: the entry is the one of the last add about it, absent after the last remove, and as before when no action is about it |
| AliasMeaning.ReplayFails | internal/engine/alias.go:648-705 | a batch of final actions fails with an error if and only if that is the error of its first failing action; a remove that must find its alias fails exactly when the alias is absent at that point |
| AliasCluster.Cluster.ValidateAliasProperties | internal/engine/alias.go:740-778 | an alias is accepted if and only if it has at most one write index and is hidden everywhere or nowhere; the error says which |
| AliasCluster.Cluster.Commit | internal/engine/alias.go:712-735 | removed indices go, and the tables become those of the work copy |
| AliasCluster.Cluster.ApplyAliasActions | internal/engine/alias.go:562-735 | everything or nothing, and nothing exactly when the plan fails or would leave some alias of the cluster inconsistent; after a commit every index that is not removed has each alias as the last action about it says, or as before |
| AliasMeaning.ExpandExact | internal/engine/alias.go:581-643 | the last final action about an alias of an index is one of the last action of the request that affects it |
| AliasMeaning.ActionFailsExactly | internal/engine/alias.go:480-637 | an action cannot be expanded, with an error, if and only if that is the error of its first refused expression or it must remove something that is absent |
| AliasMeaning.PlanMeans | internal/engine/alias.go:562-735 | a plan that succeeds leaves, for every index and alias, what the last action about it says; exactly the indices named for removal go |
| AliasMeaning.PlanFails | internal/engine/alias.go:562-735 | a plan fails with an error if and only if the first action that cannot be expanded, or else the first failing final action, has that error |
| Aliases.TouchedSuffice | internal/engine/alias.go:706-711 | from a consistent state, validating the added aliases validates all of them |
| Aliases.AddedNames | internal/engine/alias.go:648-705 | an added alias is not named like an index that stays |
| Aliases.PlannedDisjoint | internal/engine/alias.go:562-735 | a committed batch keeps alias and index names apart |
| AliasCluster.Cluster.ResolveIndexAliases | internal/engine/alias.go:1081-1108 | the aliases of the request, then those of the templates with new names |
| AliasLifecycle.NewAliasesExact | internal/engine/alias.go:1081-1121 | aliases of the request come first and unchanged, no template name is left out, all are valid and free |
| AliasLifecycle.NewAliasesTaken | internal/engine/alias.go:1081-1108 | of all template definitions in order, exactly those are taken whose own and filled names are both new at their turn, under their filled names and otherwise unchanged |
| AliasLifecycle.TableExact | internal/engine/alias.go:1125-1155 | an alias of the new index has the last of its definitions |
| AliasCluster.Cluster.ApplyIndexAliases | internal/engine/alias.go:1125-1155 | the aliases of a new index are stored, or nothing is left of the index |
| AliasLifecycle.CreateSuffices | internal/engine/alias.go:1125-1155 | validating the aliases of the new index validates the cluster |
| AliasCluster.Cluster.CreateIndex | internal/engine/cluster.go:388-439 | an index is created exactly when it can be, and a failure changes nothing |
| AliasCluster.Cluster.DeleteIndex | internal/engine/cluster.go:634-655 | exactly the resolved indices go |
| AliasLifecycle.FewerIsConsistent | internal/engine/cluster.go:634-655 | deleting indices keeps aliases consistent |
| AliasLifecycle.CreateDisjoint | internal/engine/alias.go:1110-1121 | a new index keeps names apart if and only if it is not its own alias |
| AliasLifecycle.OwnAliasAccepted | internal/engine/alias.go:1110-1121 | an index that is its own alias is accepted |
| AliasLifecycle.RequestKeeps | internal/engine/alias.go:562-778 | every request keeps the invariants |
| AliasLifecycle.RunKeeps | internal/engine/alias.go:562-778 | so does every run of alias updates, index creations and deletions |
| PathTrie.RetrieveBest | http_router.go:145-183 | with wildcards anywhere the lookup finds the key that prefers literal segments leftmost, among all that fit |
| PathTrie.RetrieveSound | http_router.go:145-183 | in every mode the answer belongs to a key that fits |
| PathTrie.RetrieveExplicit | http_router.go:145-183 | without wildcards the answer belongs to the path itself |
| PathTrie.RetrieveExact | http_router.go:145-183 | in each of the four modes the lookup finds the key that prefers literal segments leftmost, among the keys that the mode may take, and nothing exactly when none of them has handlers |
| PathTrie.PrefersExactly | http_router.go:145-183 | a key is preferred to those that have a wildcard where the two first differ and it has a literal |
| RouteTable.RegisteredExact | http_router.go:107-117 | a key has a method if and only if a route with that key registered it, and the first such route has it |
| RouteTable.FitsByText | http_router.go:78-103 | a key fits a path exactly when the pattern has its segments, with any segment at a named wildcard |
| RouteTable.SameKeyByText | http_router.go:78-103 | two patterns share a key exactly when they have wildcards at the same places, whatever their names, and the same texts elsewhere |
| RouteTable.GrownWalk | http_router.go:78-103 | a new edge keeps all walks and adds no handlers |
| RouteTable.SetHandlers | http_router.go:78-103 | setting the handlers of a node sets those of one key |
| Router.AddRouteMethods | http_router.go:107-117 | methods that are taken stay |
| Router.Router.Insert | http_router.go:78-103 | after any sequence of inserts the trie holds exactly the registered handlers under every key |
| Router.WildcardLookup | http_router.go:133-183 | the lookup answers with the handlers of the best registered pattern, none exactly when none fits |
| Router.ModeLookup | http_router.go:133-183 | the same for every mode, with the keys that it may take |
| Router.Router.ValidMethodsOf | http_router.go:234-250 | the methods some lookup mode has for the path |
| Router.SomeMethodValid | http_router.go:234-250 | a path has valid methods if and only if some registered pattern fits it |
| Router.Router.Dispatch | http_router.go:200-226 | a route is found if and only if its method is valid, in the first mode that has it; the texts of its pattern fit the path, and no earlier route of that shape has the method; otherwise exactly the valid methods are reported |
| Router.FoundRoute | http_router.go:200-226 | the found route was registered, first with its key for the method, and its key fits |
| Router.BoundExact | http_router.go:278-294 | a variable has the decoded segment of the last wildcard with its name |
| Router.BoundOnly | http_router.go:278-294 | there are no other variables |
| Router.VarNameTrims | http_router.go:278-294 | the name of a variable is its segment without the braces at both ends |
| AggPath.ParseAggPath | internal/engine/aggs_parse.go:473-504 | the loop computes the parse, or the failure of the first element that has one |
| AggPath.ParseClean | internal/engine/aggs_parse.go:473-504 | a parsed path is a list of clean elements |
| AggPath.RoundTrip | internal/engine/aggs_parse.go:473-516 | exactly the clean lists are parsed, and rendering then parsing gives them back |
| AggPath.Canonical | internal/engine/aggs_parse.go:473-516 | rendering what was parsed and parsing again changes nothing |
| PipelineOrder.LookUp | internal/engine/aggs_parse.go:519-527 | the maps of the level as lookups by name |
| PipelineOrder.LeadsExactly | internal/engine/aggs_parse.go:534-575 | the walk along the elements succeeds exactly when they name a chain of sub-aggregations, each the first of its name, except that the last may be a sub-pipeline, `_count` or a `_key` form |
| PipelineOrder.FoldsByCharacter | internal/engine/aggs_parse.go:558 | the names that equal `_key` under simple case folding, character by character |
| PipelineOrder.TargetExactly | internal/engine/aggs_parse.go:534-594 | a path leads to a pipeline exactly when no aggregation of the level and no later pipeline has its first name; it is missing exactly when neither list has the name or the elements lead nowhere below the last aggregation of that name |
| PipelineOrder.IgnoredExactly | internal/engine/aggs_parse.go:534-594 | the other paths, which the level does not look at |
| PipelineOrder.Walk.Visit | internal/engine/aggs_parse.go:534-594 | the closure keeps the order closed under dependencies and reports a cycle only along the path it is on |
| PipelineOrder.ResolvePipelineOrder | internal/engine/aggs_parse.go:519-601 | terminates; a permutation with every dependency before its user, if and only if there is no cycle and all paths resolve; an error is a real one |
| PipelineOrder.OrderedIsAcyclic | internal/engine/aggs_parse.go:519-601 | a level that can be put in order has no cycle |
| PipelineOrder.OrderLevel | internal/engine/aggs_parse.go:446-458 | the level is reordered and each pipeline validated, or it is left as it is with its failure; every finding is a real one |
| PipelineOrder.ValidateAggLevel | internal/engine/aggs_parse.go:446-463 | nothing is found if and only if every level of the tree can be ordered and every pipeline is fine in its level, and then all are in order |
| CompositeOrder.CompareFlips | internal/engine/aggs_composite.go:553-590 | antisymmetric, equal only on equal keys, for every mix of directions, missing orders and missing values |
| CompositeOrder.CompareChains | internal/engine/aggs_composite.go:553-590 | transitive |
| CompositeOrder.OrderIsTotal | internal/engine/aggs_composite.go:456-473 | a strict total order of the keys |
| CompositeOrder.TextExactly | internal/engine/aggs_composite.go:571-576 | texts compare by the first differing character, a prefix first |
| CompositeOrder.KeyExactly | internal/engine/aggs_composite.go:553-590 | the first source in which two keys differ decides: smaller values first or last by its direction, a missing one first or last as asked for, by default first exactly when ascending |
| Composite.HitTuples | internal/engine/aggs_composite.go:488-517 | the nested loops compute the tuples of a hit |
| Composite.TuplesExact | internal/engine/aggs_composite.go:488-517 | exactly the tuples that take one value of every source, missing ones included where asked for |
| Composite.Group | internal/engine/aggs_composite.go:512-527 | every tuple once, with the number of its occurrences and the hits that have it |
| Composite.HitsWithExact | internal/engine/aggs_composite.go:512-527 | the hits of a bucket are exactly those with its tuple, in order |
| CompositePages.CollectComposite | internal/engine/aggs_composite.go:475-636 | the keys of a page are those after the given one in the sorted distinct tuples, up to the size, with exact counts; by the order of `KeyExactly`, and a tuple that is not on the page and comes after the given key comes after all of a full page |
| CompositePages.PagesComplete | internal/engine/aggs_composite.go:553-634 | following after keys yields every distinct tuple once and in order |
| CompositePages.PagesStop | internal/engine/aggs_composite.go:553-634 | and comes to an end |
| CompositeClient.SentBackExactly | internal/engine/aggs_composite.go:335-379 | a key written as JSON is read back if and only if the formats of its sources read back what they write |
| CompositeClient.ResumesExactly | internal/engine/aggs_composite.go:590-603 | the next page starts right behind a key if and only if the key that is read back lies from there up to the next |
| CompositeClient.ClientPagesExact | internal/engine/aggs_composite.go:475-662 | a client that sends back JSON keys gets every tuple once and in order if and only if the end of every page resumes |
| CompositeClient.ClientStops | internal/engine/aggs_composite.go:475-662 | and then its session ends |
| CompositeClient.FaithfulResumes | internal/engine/aggs_composite.go:335-379 | formats that read back the values of all tuples make every page end resume, for every page size |
| CompositeClient.NeverEnds | internal/engine/aggs_composite.go:590-603 | with pages of one key, a key that is read back as an earlier one is answered with itself without end |
| CompositeClient.DaysNeverEnd | internal/engine/aggs_composite.go:335-379 | with any date format that writes the day and nothing smaller, the pages of a single date within a day never end |
| TermsOrder.WithKeyTiebreak | internal/engine/aggs_order.go:85-94 | the order ends with the key; what was given comes first, and only an ascending key is added |
| TermsOrder.BucketsFlip | internal/engine/aggs_order.go:204-278 | antisymmetric for every compound order, missing values last in either direction; equal only on equal keys |
| TermsOrder.BucketsChain | internal/engine/aggs_order.go:256-278 | transitive |
| TermsOrder.OrderIsTotal | internal/engine/aggs_order.go:85-94 | a strict total order on buckets of distinct keys |
| TermsOrder.PrecedesExactly | internal/engine/aggs_order.go:204-278 | counts and numbers by size, texts by their first differing character, values by size, each in its direction; missing values after all others in both |
| TermsOrder.RanksExactly | internal/engine/aggs_order.go:256-278 | a bucket comes before another exactly when the first order that tells them apart puts it first |
| TermsOrder.LeadingOrder | internal/engine/aggs_order.go:256-278 | a list in order rises or falls by its leading order, and the later orders decide where that ties |
| TermsReduction.CountsAreComplete | internal/engine/aggs_terms.go:229-253 | the counts of an index add up to its accepted pairs |
| TermsReduction.CountedOnce | internal/engine/aggs_terms.go:229-253 | the count of a term in an index is the number of its pairs, that of an index the number of positions with it |
| TermsReduction.CutTwice | internal/engine/aggs_terms.go:294-361 | cutting off at a larger size before the filter loses nothing when counts fall |
| Terms.IndexCandidates | internal/engine/aggs_terms.go:298-311 | the terms of an index that reach the minimum |
| Terms.MergeIndices | internal/engine/aggs_terms.go:294-338 | merged counts and cut off counts add up to the candidates of all indices |
| Terms.NoCandidates | internal/engine/aggs_terms.go:298-314 | an index is without candidates exactly when no term of it reaches the minimum |
| Terms.NothingLost | internal/engine/aggs_terms.go:298-314 | with minimum 0 nothing is lost |
| Terms.LostExactly | internal/engine/aggs_terms.go:298-314 | pairs are lost if and only if some index has pairs and no term that reaches the minimum |
| Terms.PairsLost | internal/engine/aggs_terms.go:298-314 | three documents in two indices of which one is lost |
| TermsReduction.MergeExact | internal/engine/aggs_terms.go:322-336 | merging has the keys of both lists, once each, and adds up the documents of every key |
| Terms.MergedIsExact | internal/engine/aggs_terms.go:229-340 | one merged bucket for every term that some index has among its first shard-size candidates by rank, with the values of sub-aggregations in that index, and with the pairs of the term in all such indices |
| Terms.ReturnedIsExact | internal/engine/aggs_terms.go:341-361 | the returned buckets are the first by rank of the merged ones with enough documents, each ranking before all later ones by the first order that tells them apart |
| Terms.CollectTerms | internal/engine/aggs_terms.go:221-381 | the merged and the returned buckets are those two; returned counts, sum_other_doc_count, counts dropped by min_doc_count and those of indices without candidates add up to all accepted pairs; for one index and falling counts the result is the exact top of all its buckets by rank |
| Terms.ShardIsFirst | internal/engine/aggs_terms.go:259-323 | the shard result is the front of all sorted buckets |
| Terms.ExactTop | internal/engine/aggs_terms.go:259-361 | for one index ordered by falling count, the best terms under the full order come back |
| BreakRules.SentencesGood | internal/engine/breakiter.go:311-344 | the sentence tables stay in range, stop and never get stuck |
| BreakRules.SentencesArm | internal/engine/breakiter.go:311-344 | once a period has been read, a position is saved until the sentence goes on |
| BreakRules.WordsGood | internal/engine/breakiter.go:433-479 | the same for the word tables |
| BreakMachines.PairsAreCharacters | internal/engine/breakiter.go:98-106 | surrogate pairs are the characters from 0x10000 to 0x10ffff, each in one way |
| BreakMachines.NextBreakGood | internal/engine/breakiter.go:151-180 | the next break is further on, at most at the end, and splits no surrogate pair |
| BreakTraces.NextBreakExact | internal/engine/breakiter.go:151-180 | over the states that the characters lead through: the break is the end of the last character whose state accepts; if that state looks ahead too, the end of the last earlier one whose state looks ahead and does not accept; at the end of the text, the end when it was saved last |
| BreakTraces.TraceExists | internal/engine/breakiter.go:151-180 | every start has such states |
| BreakTraces.BreakOnce | internal/engine/breakiter.go:151-180 | and they determine the break |
| BreakTraces.SafePositionExact | internal/engine/breakiter.go:182-201 | the backward machine stops where the text ends backwards, or at the end of the character that led to state 0, one character on from its start, and at its start when the character read before it is skipped |
| BreakTraces.BackTraceExists | internal/engine/breakiter.go:182-201 | every position has such states |
| BreakLaws.TextGoesOn | internal/engine/breakiter.go:311-328 | letters, digits, spaces, commas, quotes and other text do not break: the break is the one that follows from the last of them |
| BreakLaws.PeriodUpper | internal/engine/breakiter.go:311-328 | text, a period with what closes it and one space break right before an upper-case letter |
| BreakLaws.PeriodLower | internal/engine/breakiter.go:311-328 | and not before a lower-case letter, a comma, a digit or a closing character |
| BreakLaws.PeriodSpaces | internal/engine/breakiter.go:311-328 | with two or more spaces they break before any letter, and not before a comma, a digit or a closing character |
| BreakLaws.PeriodNumber | internal/engine/breakiter.go:311-328 | without a space they do not break before a digit or a comma |
| BreakLaws.PeriodLetter | internal/engine/breakiter.go:311-328 | nor before a letter, without quotes behind the period |
| BreakLaws.PeriodQuote | internal/engine/breakiter.go:311-328 | but right behind the quotes |
| BreakLaws.PeriodOpeners | internal/engine/breakiter.go:311-328 | openers and symbols between the spaces and a letter belong to the next sentence |
| BreakLaws.OpenerAlone | internal/engine/breakiter.go:311-328 | one of them behind more than one space and without a letter makes the break come before the period |
| BreakLaws.PeriodAtEnd | internal/engine/breakiter.go:175-177 | a text that ends in a period, closers and spaces is one sentence |
| BreakLaws.ParagraphEnds | internal/engine/breakiter.go:311-328 | a paragraph separator ends a sentence |
| BreakLaws.DandaEnds | internal/engine/breakiter.go:311-328 | so does a danda, with the spaces behind it |
| BreakLaws.TerminatorEnds | internal/engine/breakiter.go:311-328 | and a terminator, with the terminators, periods, quotes and closers behind it |
| BreakLaws.TerminatorSpaces | internal/engine/breakiter.go:311-328 | with the spaces behind those |
| BreakLaws.TerminatorParagraph | internal/engine/breakiter.go:311-328 | and a paragraph separator behind them |
| BreakLaws.LettersEnd | internal/engine/breakiter.go:436-460 | a run of letters with their marks is a word: it breaks right after the run |
| BreakLaws.LettersNumber | internal/engine/breakiter.go:436-460 | digits continue it |
| BreakLaws.LettersInner | internal/engine/breakiter.go:436-460 | a period, quote, soft hyphen or dash continues it exactly when a letter follows |
| BreakLaws.LettersDanda | internal/engine/breakiter.go:436-460 | a danda ends it unless digits follow |
| BreakLaws.NumbersEnd | internal/engine/breakiter.go:436-460 | a run of digits breaks right after the run |
| BreakLaws.NumbersLetter | internal/engine/breakiter.go:436-460 | letters continue it |
| BreakLaws.NumbersInner | internal/engine/breakiter.go:436-460 | a period, quote or comma continues it exactly when a digit follows |
| BreakLaws.NumbersAfter | internal/engine/breakiter.go:436-460 | one percent sign or the like ends it |
| BreakLaws.Blanks | internal/engine/breakiter.go:436-460 | spaces and tabs run together, and with the line end behind them |
| BreakLaws.Returns | internal/engine/breakiter.go:436-460 | a carriage return and a line feed stay together |
| BreakLaws.Alone | internal/engine/breakiter.go:436-460 | control characters, line ends, soft hyphens and leading marks stand alone |
| BreakLaws.Symbol | internal/engine/breakiter.go:436-460 | symbols stand alone with their marks |
| BreakLaws.Prefix | internal/engine/breakiter.go:436-460 | so does a period or a currency sign, unless digits follow |
| BreakLaws.KanjiRun | internal/engine/breakiter.go:436-460 | ideographs run together |
| BreakLaws.HiraganaRun | internal/engine/breakiter.go:436-460 | hiragana with voiced marks and kana signs |
| BreakLaws.KatakanaRun | internal/engine/breakiter.go:436-460 | katakana likewise |
| BreakMachines.BreaksGood | internal/engine/breakiter.go:151-180 | breaks increase strictly and end at the length of the text |
| BreakMachines.SafePositionBounds | internal/engine/breakiter.go:182-201 | where the backward machine may stop |
| BreakMachines.FirstAfterGood | internal/engine/breakiter.go:226-243 | iterating from a base gives a boundary after the offset |
| BreakMachines.LastBeforeGood | internal/engine/breakiter.go:203-223 | iterating from a base before the offset gives a boundary before it |
| BreakMachines.RealNeighbours | internal/engine/breakiter.go:203-243 | from the start of the text or any of its breaks, these are the least break after and the greatest before the offset of all breaks of the text |
| BreakIterator.Iterator.GetNext | internal/engine/breakiter.go:108-118 | moves by one character, and not past the last |
| BreakIterator.Iterator.GetPrevious | internal/engine/breakiter.go:127-142 | moves back by one character |
| BreakIterator.Iterator.HandleNext | internal/engine/breakiter.go:151-180 | the loop with look-ahead stops at the next break of the machine, for which `NextBreakExact` has the rule and `BreakLaws` the laws |
| BreakIterator.Iterator.HandlePrevious | internal/engine/breakiter.go:182-201 | the backward loop stops at the safe position |
| BreakIterator.Iterator.Previous | internal/engine/breakiter.go:203-223 | the last break before the position that iterating from the cached break, or from the position backed up to, comes to |
| BreakIterator.Iterator.Preceding | internal/engine/breakiter.go:246-249 | in [0, o), at a character boundary whatever the cached break, and the last that iterating from the base comes to |
| BreakIterator.Iterator.Following | internal/engine/breakiter.go:226-243 | in (o, length], at a character boundary whatever the cached break, and the first that iterating from the base comes to |
| Utf8.LengthsTell | http.go:1656-1666 | bytes and UTF-16 units are equally many for ASCII text and for no other |
| Utf8.BytesBelow | http.go:1924-1986 | the end marks of the printers are no bytes of a text |
| Utf8.BytesInjective | http.go:1656-1666 | two texts with the same bytes are the same text |
| Cbor.CatCBOR | http.go:1891-1920 | the loops write the printed form of the table |
| Cbor.HeadIsShortest | http.go:1893-1906 | the head of a text of at most 255 units is the shortest that says its length |
| Cbor.RoundTrip | http.go:1891-1920 | decoding per section 3 of RFC 8949 returns the names and rows |
| Smile.CatSmile | http.go:1924-1986 | the loops with the map of seen names write the printed form |
| Smile.HeaderReads | http.go:1925 | the header says version 0, shared names, no shared values, raw bytes |
| Smile.RoundTrip | http.go:1924-1986 | decoding with a rebuilt table of shared names returns the names and rows, past any number of table resets |
| Smile.FirstRowReads | http.go:1931-1954 | the first row is read back whatever its names |
| Smile.DecodesExactly | http.go:1924-1986 | a table with different column names, at most 1024, is read back if and only if all names are short enough to be shared or it has at most one row |
| QueryString.DecodeURLComponent | http_params.go:75-111 | the decoded bytes, or a failure exactly when an escape is malformed |
| QueryString.EscapeMeans | http_params.go:96-123 | two hexadecimal digits of either case are the byte that they write |
| QueryString.EscapeFails | http_params.go:96-123 | without a digit in one of the two places an escape fails, except `%%` |
| QueryString.ParseQueryString | http_params.go:29-72 | the loop with its look-behind variables: pieces between separators assign names in order |
| QueryString.SeparatorSplits | http_params.go:47-54 | the parameters on both sides of `&` or `;` are read one after the other |
| QueryString.NeverEmptyName | http_params.go:29-72 | no parse has an empty name |
| QueryString.EscapeDecodes | http.go:3519-3528 | decoding an escaped text returns it |
| QueryString.WrittenParses | http.go:3519-3528 | writing parameters and parsing them returns them if and only if no name is empty, in any order of the names |
| QueryString.ParseWriteParse | http.go:3519-3528 | writing what was parsed and parsing again changes nothing |
| ByScroll.RunWorker | internal/engine/byquery.go:345-401 | the batch loop computes the tally of a worker; each of created, updated, deleted, noops and conflicts is the number of visits whose write had that outcome, and the failures are the visited hits that failed, in order |
| ByScroll.WorkerReported | internal/engine/byquery.go:365-395 | from any point of a run on, the counters stay the numbers of visits with their outcome, and the failures the failed hits in order |
| ByScroll.WorkerAccounts | internal/engine/byquery.go:345-401 | for all outcomes of the writes: hits visited in order, at most once, each accounted for once, successes at most max_docs |
| ByScroll.UnlimitedVisitsAll | internal/engine/byquery.go:345-401 | without max_docs no hit is skipped, and all are visited when nothing fails |
| ByScroll.SkipsExactly | internal/engine/byquery.go:345-401 | a hit is skipped if and only if the first batch that max_docs cuts short ends early and more batches follow |
| ByScroll.StopsShortExactly | internal/engine/byquery.go:345-401 | a worker without skips and failures stops before max_docs and before the last hit if and only if the last batch ends early |
| ByScroll.LimitedVisitsFirst | internal/engine/byquery.go:345-401 | with max_docs no hit is skipped when every write that is made succeeds or fails |
| ByScroll.BatchesFill | internal/engine/byquery.go:345-401 | without max_docs and failures there are as many batches as the hits fill |
| ByScroll.SkipHappens | internal/engine/byquery.go:345-401 | a run in which a hit is skipped |
| ByScroll.SliceInRange | internal/engine/byquery.go:314-321 | the slice is the non-negative residue of the hash |
| ByScroll.SliceHits | internal/engine/byquery.go:435-441 | the hits of a slice, in order |
| ByScroll.PartitionCovers | internal/engine/byquery.go:445-449 | every hit is in one slice |
| ByScroll.OneSlice | internal/engine/byquery.go:435-441 | the hits of the slice that a request names, in order |
| ByScroll.SlicesAgree | internal/engine/byquery.go:435-449 | requests for all slices work on the same hits as one sliced request |
| ByScroll.ExecuteSliced | internal/engine/byquery.go:445-470 | the status adds up each counter over the workers; it counts every visit once, its total is that of all hits up to max_docs, and successes stay within max_docs |
| ByScroll.ShareIsFloor | internal/engine/byquery.go:445-470 | the share of a slice is the greatest number of documents that every slice can have |
| ByScroll.SummedEach | internal/engine/byquery.go:445-470 | each counter of the status is the sum of that counter over the workers |
| ByScroll.ExecuteByScroll | internal/engine/byquery.go:423-473 | the branches for a named slice, for several slices and for one, with the number of slices from the shards when it is left open |
| ByScroll.VisitedOnce | internal/engine/byquery.go:423-488 | no hit is visited twice, in whatever slices |

## Left out

- CopyOnWrite.StepInv: models a mutex per cluster by a guard on the steps of that cluster; `Close` and `DeleteIndex` release an index and delete its entry in one step, because nobody else reads the map of a locked cluster in between. Points in time are one kind of read-only holder.
- Clusters.Cluster.Write: an index is its reference count, whether it is closed, and one text as its content; documents, mappings and settings are not told apart.
- AliasCluster.Cluster.ApplyAliasActions: expression resolution, checks of names and filters, and cluster blocks are parameters; copying a shared index during the commit is taken to succeed, and the copy is the subject of `Clusters` alone.
- AliasLifecycle.RunKeeps: names are kept apart only over runs without an index that is its own alias, since the code accepts one.
- Rounding.Round: instants, zone changes and intervals lie within 2^60 ms of the epoch, offsets within 18 hours, changes more than 36 hours apart, and no more than 1000 of them have one offset in a row, so that the bounded loops never reach their limit.
- Rounding.TruncateIsFloor: months, quarters and years are any monotone idempotent floor of the local time; Go's calendar arithmetic is not modelled.
- AutoDateHistogram.FinestThatFits: targets up to 1,000,000; above that the counts that choose the tier are capped.
- AutoDateHistogram.CollectAutoDateHistogram: a calendar tier is any rounding with the laws of a floor and its successor, which holds in zones with a fixed offset; the rendering of buckets and their sub-aggregations.
- GapFilling.FillDateHistogram: `min_doc_count` above 0, which skips it, and the sub-aggregations of empty buckets; roundings whose next is not the least later key, for which `NextRounding` has the exact conditions.
- IntervalRegexp.DecimalIntervalRegexp: alternatives are sequences of literals and classes, not text; Go's `regexp` and the rest of the dialect's parser are not part of this model.
- FilterPath.ApplyExact: the re-encoding of the body as JSON before filtering; an object is the list of its members.
- FilterSyntax.ParseFilterPath: error texts; characters stand for bytes and runes alike.
- Router.Router.Insert: patterns do not name a segment `*`, nodes are entries of one map instead of objects, and `insert` and `retrieve` walk by id.
- Router.Router.Dispatch: the order in which valid methods are printed and the root endpoints without an implementation.
- Composite.Group: tuples are grouped by equality where the source uses their JSON text, which is the same for numbers, text and dates but not for addresses.
- CompositePages.CollectComposite: sub-aggregations of buckets, and how values are read from documents.
- CompositeOrder.OrderIsTotal: doubles are integers that are compared and nothing else.
- TermsOrder.OrderIsTotal: terms that are addresses, and values of sub-aggregations, which are opaque numbers or missing.
- Terms.CollectTerms: doc_count_error_upper_bound, include and exclude lists, and significance; sorting is a function whose result is the only ascending arrangement.
- BreakMachines.NextBreakGood: the Unicode categories of characters are a parameter.
- BreakIterator.Iterator.Following: the position backed up to need not be a break of the whole text; when it is, `BreakMachines.RealNeighbours` applies. From inside a surrogate pair the base of the search may be the end of that pair, and a unit 0xffff ends the text like in the source.
- QueryString.ParseQueryString: strings are bytes; what Go does to invalid UTF-8 later is not modelled.
- Cbor.RoundTrip: texts shorter than 2^32 bytes.
- Smile.DecodesExactly: tables with a column name twice or with more than 1024 columns.
- PipelineOrder.ValidateAggLevel: what each type of pipeline requires of its level is a parameter.
- ByScroll.RunWorker: reading the hits, the scripts and the writes are functions of the number of the write and the hit; retries, throttling, the default number of slices and the rendered response are not modelled.
- HTTP serving, request bodies, JSON, seed files, bleve, Painless, and floating-point aggregations: no model.
