# dns-sync: a verified model of the reconciliation loop

dns-sync keeps DNS zones in step with a desired list of records. A controller
reads the records of a provider, computes a plan that moves them towards the
desired list, and hands the plan to the provider, over and over. This project
models that loop and the parts around it in Dafny, and proves what the loop is
for: it converges, it reaches the desired state, controllers with different
owners never touch each other's records even with stale snapshots, and a name
with a CNAME stays free of other records.

`dafny verify dfyconfig.toml` checks the whole project. Nothing in it is meant to be executed.

| files | what they model |
|---|---|
| `Strings`, `Sorting`, `Wrappers` | the library functions the program relies on: string order, splitting, stable sorting |
| `Targets`, `TargetOrder`, `Endpoints`, `Conflict`, `Policies`, `DomainFilters`, `FilterWire` | records, comparison of target lists, the choice among candidates, policies, domain matching, domain filters on the wire |
| `Cells`, `PlanMeaning`, `Plan` | the plan: cell by cell, told from the record lists alone, and the table and loops that compute it |
| `Store`, `Routing`, `InMemory` | the provider: batches, validation, routing of names to zones, zones changed in place |
| `Reconcile`, `Convergence`, `Sharing`, `Cname`, `Isolation`, `Controller` | the loop as a state machine: one turn, runs of turns, several controllers, several zones |
| `Scheduler` | when the loop runs |
| `LabelText`, `Registry` | the text form of labels, and the registry that stores labels in companion TXT records |
| `Arpa`, `ArpaNames`, `ArpaCollisions` | reverse-lookup names of networks |

How the loop is proved. `Plan.Calculate` and the methods of
`InMemory.InMemoryProvider` are loops over mutable tables whose iteration order
is open; each is proved against a specification that does not mention order. A
*cell* is a normalised name, a set identifier and a record type. `Cells.IsPlan`
says what the four lists of a plan hold in each cell; `Store.Apply` says what a
batch does to a zone. `Reconcile.Next` is the meaning of a turn for one key: the
record it will hold, as a function of the zone and the desired list. The turn
theorem, `Reconcile.TurnIsNext`, says that planning, validating and applying do
to every key what `Next` says. `PlanMeaning` says what plans do without cells and
without `Next`, on the two lists of records: `PlanMeaning.CreatedIff`,
`PlanMeaning.DeletedIff` and `PlanMeaning.UpdatedIff`. Convergence, the desired state, exclusivity of
CNAMEs and owner isolation all follow from it, and
`Controller.Controller.RunOnce` ties it to the imperative code and to several zones.

Well-formed data. The theorems about the loop hold for zones and desired lists
that satisfy `Reconcile.WfZone` and `Reconcile.WfList`, for some set of names
that satisfies `Reconcile.WfNames`; `Convergence.TurnKeepsWf` and
`Isolation.StepKeepsInv` show that turns keep this. A set of names has no two
spellings of one normalised name, no trailing dots and no over-long labels.
Target lists are not empty, are without trailing dots, and spell addresses the
way they print; they may come in any order. Provider-specific names are not repeated. Each
condition answers to a place in the code: the planner keys on normalised names
(`plan/plan.go:137-141`) and the store on raw ones
(`endpoint/endpoint.go:319-325`); validation looks at first targets
(`pkg/mem/inmemory.go:308`); reading trims targets again
(`pkg/mem/inmemory.go:178`); and repeated property names are out of
date for ever (`Cells.SettlesIffDistinct`).

Where comments and code disagree, the model follows the code:

- `pkg/mem/inmemory.go:116` promises that a batch is checked before anything is
  changed; zones are checked and changed one at a time. `Routing.AllOrNothingIff`
  says exactly which batches keep the promise.
- `pkg/sources/dnsmesh/txt.go:177` stamps created records with the label `mesh`,
  but updates and deletes are filtered by `owner` (`pkg/sources/dnsmesh/txt.go:169-171`).
  `Registry.DeleteUndoesCreateIff` says exactly when creating and deleting cancel out.
- `plan/conflict.go:39` speaks of string comparison; lists are compared by length
  first, and addresses come before other texts.
- `plan/plan.go:303-305` says that TXT records are removed; which types are
  removed is a matter of configuration (`Cells.IsManagedRecord`).
- `endpoint/labels.go:58-60` mentions a heritage check; there is none.

Results that a reader may not expect:

- `Targets.SameDecidesIff`: comparing target lists is comparing multisets exactly
  when no two texts are equal up to case or spell one address and the sorting
  order has no circles. Without the first, lists that differ can compare as the
  same (`Targets.SameStopsEarly`); with a circle, which takes addresses that are
  not spelled the way they print, a list and a permutation of it compare as
  different (`Targets.SameMissesPermutation`).
- `Reconcile.PlansAreAcceptedIff`: comparing sorts the old side of an update in
  place, so that a plan is refused exactly when some record to be replaced has no
  TTL to update, as many targets as are wanted, and something else than its least
  target stored first.
- `Cname.UpsertKeepsExclusiveIff`: without deletions a CNAME and other records
  end up side by side exactly when an accepted plan creates a record beside one of
  the other kind.
- `Controller.SettlesIffRouted`: a record whose name no zone takes is planned for in every turn.
- `Registry.CreateIsAcceptedIff`: records that share name and set identifier, such
  as two types at one name, cannot be created together through the registry, nor
  can a record beside a TXT record of its name and set identifier.
- `Registry.CreateThenReadIff`: records of one name with different set identifiers
  read back with each other's labels unless their labels are the same, and targets
  that end in a dot read back without it.
- `LabelText.RoundTripIff`: quotes within labels come back, except one that begins or ends the whole text.
- `FilterWire.MarshalKeepsMatchIff`: which filters let the same names through
  after a trip over the wire; `FilterWire.MarshalLosesBlankFilter` and
  `FilterWire.MarshalMovesDottedBlank` are two that do not.
- `ArpaCollisions.NameIsUniqueIff`: an IPv4-mapped network with an explicit prefix
  shares its name with another network, and so does every IPv4 network on a label
  boundary; among networks that are not IPv4-mapped names are unique (`ArpaNames.NamesAreDistinct`).

## Model

| member | source | states |
|---|---|---|
| `Targets.SameInPlace` | endpoint/endpoint.go:96-130 | on the two slices themselves: the answer of the pairwise loop, and that both slices end up sorted unless their lengths differ |
| `Targets.IsLessInPlace` | endpoint/endpoint.go:137-187 | on the two slices themselves: the answer of the loop for the ordering of target lists, which `FirstDifferenceDecides` explains, and the slices sorted unless their lengths differ |
| `Targets.LessIsTotalOrder` | endpoint/endpoint.go:77-89 | on canonically spelled targets the order used for sorting is a strict total order |
| `Targets.IsLessIsWeakOrder` | endpoint/endpoint.go:137-187 | on canonically spelled lists `IsLess` is a strict weak order |
| `Targets.TiesArePermutations` | endpoint/endpoint.go:137-187 | two canonically spelled lists tie exactly when they are permutations of each other |
| `Targets.SameIsPermutation` | endpoint/endpoint.go:96-130 | on canonical lower-case lists `Same` is true exactly for permutations |
| `Targets.SameDecidesIff` | endpoint/endpoint.go:96-130 | for any set of texts: on the lists over it `Same` decides equality of multisets exactly when no two of the texts are equal up to case or are addresses that print alike, and the sorting order is a weak order on it |
| `Targets.SameStopsEarly` | endpoint/endpoint.go:122-125 | two lists that differ and compare as the same: after one pair of spellings of an address the rest is not compared |
| `Targets.SameMissesPermutation` | endpoint/endpoint.go:77-89 | a list and a permutation of it that compare as different, for three texts the order runs around in a circle |
| `TargetOrder.FirstDifferenceDecides` | endpoint/endpoint.go:147-184 | between lists of one length the first difference of the sorted lists decides: two addresses by family, value and zone, an address before any other text, and other texts by their first different character |
| `TargetOrder.FewerTargetsAreLess` | endpoint/endpoint.go:138-143 | the shorter of two lists is less |
| `TargetOrder.SortedAscends` | endpoint/endpoint.go:77-89 | canonically spelled targets are sorted by their characters |
| `TargetOrder.SameUpToCase` | endpoint/endpoint.go:103-104 | lists compare as the same if their sorted texts differ in case only |
| `TargetOrder.OneTargetSameIff` | endpoint/endpoint.go:103-126 | two single targets compare as the same exactly if they differ in case only or are addresses that print alike |
| `Strings.TextOrder` | endpoint/endpoint.go:80 | the order of texts: the first different character decides, or else the length |
| `Strings.LowerCaseMeans` | endpoint/domain_filter.go:106 | lower-casing turns the ASCII capitals into small letters and keeps everything else |
| `Sorting.SortInPlace` | plan/conflict.go:57-59 | sorting in place computes the stable sort of the old contents |
| `Sorting.SortFilter` | plan/conflict.go:57-59 | stability: the elements of any class come out in the order the sort gives them alone, and ties keep their input order |
| `Endpoints.FilterEndpointsByOwnerID` | endpoint/endpoint.go:339-350 | keeps exactly the endpoints whose owner label is the one given, in order |
| `Endpoints.RemoveDuplicates` | endpoint/endpoint.go:396-412 | keeps what `Distinct` keeps |
| `Endpoints.DistinctKeepsFirst` | endpoint/endpoint.go:396-412 | of the endpoints of one key exactly the first is kept |
| `Endpoints.NewEndpointWithTTL` | endpoint/endpoint.go:245-265 | trims one final dot off name and targets; nothing exactly for a label of more than 63 bytes |
| `Strings.BytesOfText` | endpoint/endpoint.go:252-257 | a label of ASCII characters is as long as it has characters, any other one is longer |
| `Policies.ApplyAll` | plan/plan.go:240-242 | a chain of policies lets deletes through exactly if all are sync, updates exactly if none is create-only, and creates always |
| `Conflict.ResolveCreate` | plan/conflict.go:40-48 | on the candidates in place: the choice of the running minimum, and the candidates afterwards, with the targets of those that were compared sorted |
| `Conflict.ScannedIsLeast` | plan/conflict.go:40-48 | although comparing sorts targets as the loop goes, the choice is the candidate that is least among the candidates as they were, its targets sorted unless no other has its length; every other candidate is as it was or sorted |
| `Conflict.LeastIsFirstMin` | plan/conflict.go:40-48 | on canonical targets the choice is the first of the least candidates, in input order |
| `TargetOrder.SmallestAddressWins` | plan/conflict.go:40-48 | among candidates with one address of one family each, the loop chooses one with the smallest address |
| `Conflict.ComparedMeans` | plan/conflict.go:42-46 | targets come out sorted exactly for candidates that are not the only ones with their number of targets |
| `Conflict.SortCandidates` | plan/conflict.go:57-59 | sorting the candidates in place puts them in the order of the stable sort, with the targets of all that were compared sorted |
| `Conflict.ResolveUpdate` | plan/conflict.go:53-66 | sorts the candidates in place and takes the first of the current resource, else the minimum, with its targets as the comparisons leave them; states the whole array afterwards |
| `Conflict.UpdateIsChosen` | plan/conflict.go:53-66 | on canonical targets this is the least candidate of the resource that holds the name, or the least of all if it has none |
| `TargetOrder.CurrentResourceWins` | plan/conflict.go:60-64 | for any candidates: if one is of the resource that holds the name, one of that resource is chosen |
| `Conflict.ChoiceIsStable` | plan/conflict.go:40-66 | a chosen candidate is chosen again once it is the current record, whichever way it was chosen |
| `Conflict.ResolveRecordTypes` | plan/conflict.go:75-118 | computes the groups that `CnameCandidatesGiveWay` describes |
| `Conflict.CnameCandidatesGiveWay` | plan/conflict.go:95-112 | every other type keeps its group, CNAME keeps its current record, and its candidates exactly when no other type is wanted beside it |
| `Cells.PlansAgree` | plan/plan.go:175-250 | two plans for the same records differ in order only, whatever the iteration order of rows and types |
| `Cells.ProviderSpecificIsSetComparison` | plan/plan.go:283-301 | with distinct names the two loops compare the property lists as sets |
| `Cells.SettlesIffDistinct` | plan/plan.go:283-301 | a property list is up to date against itself exactly when no name is repeated |
| `Cells.LastPropertyCounts` | plan/plan.go:284-286 | of the desired properties of one name the last one counts |
| `PlanMeaning.SameNameIff` | plan/plan.go:327-335 | names are planned as one exactly if they are equal up to case, blanks around them and a final dot |
| `PlanMeaning.CreatedIff` | plan/plan.go:175-238 | a cell gets a new record exactly when one is desired for it, with CNAME giving way, none is there, and every record of the name carries the owner label; and only one |
| `PlanMeaning.CreatedFrom` | plan/plan.go:180-182 | what is created is the least desired record of the cell, its targets sorted exactly if it was compared |
| `PlanMeaning.DeletedMeans` | plan/plan.go:187-250 | whatever is deleted is in scope and owned, nothing is desired for its cell, and every policy is sync |
| `PlanMeaning.DeletedIff` | plan/plan.go:187-250 | of records listed under their own keys exactly these are deleted, where other types of the name are desired only the last of a cell |
| `PlanMeaning.UpdatedIff` | plan/plan.go:212-250 | the last record of a cell is replaced exactly when it is owned, something is desired for its cell, no policy only creates, and the TTL is given and differs, the targets are not the same, or the properties changed; the new side has the owner of the old one and its targets sorted exactly if they were compared |
| `PlanMeaning.UnsetTtlKeeps` | plan/plan.go:276-281 | a desired TTL that is not positive never causes an update |
| `PlanMeaning.CnameGivesWay` | plan/conflict.go:95-112 | where another type is desired in scope, no CNAME of the name is created or updated, and the other type has its candidates |
| `PlanMeaning.PlanStaysInScope` | plan/plan.go:310-325 | of every entry of a plan the name passes every filter that is present, and the type is not excluded and, if there is a list of managed types, on it |
| `Plan.PlanTable.NewPlanKey` | plan/plan.go:137-154 | creates the missing row and type entry and changes nothing else |
| `Plan.PlanTable.AddCurrent` | plan/plan.go:125-129 | one more current record; the table goes on to be the grouping of all records added, by key and by type, in input order |
| `Plan.PlanTable.AddCandidate` | plan/plan.go:131-135 | the same for a desired record |
| `Plan.FilterRecordsForPlan` | plan/plan.go:310-325 | keeps, in order, exactly the records whose name passes every filter that is present and whose type is not excluded and, if there is a list of managed types, on it |
| `Plan.IsManaged` | plan/plan.go:337-352 | a type is managed if it is not excluded and is listed, or no list is given |
| `Plan.ProviderSpecificChanged` | plan/plan.go:283-301 | the loop that removes matched properties computes the comparison that `ProviderSpecificIsSetComparison` explains |
| `Plan.NeedsUpdating` | plan/plan.go:216 | a record is out of date by TTL, targets or properties; both sides come out with sorted targets exactly if their target lists were compared |
| `Plan.PlanFreeName` | plan/plan.go:177-184 | a free name: in each of its cells the least candidate is created, and no other cell is touched |
| `Plan.PlanReleasedName` | plan/plan.go:187-189 | a released name: all its records are deleted |
| `Plan.PlanTakenName` | plan/plan.go:192-237 | a taken name: per type delete, create or update, the creates only with a claim on every record of the name; old and new sides are paired, have one owner, and have their targets in the order the comparisons leave |
| `Plan.PlanRows` | plan/plan.go:175-238 | all rows, in any order: each cell gets its own decision, target order included, and nothing else |
| `Plan.Calculate` | plan/plan.go:159-260 | for any current and desired lists the result is a plan: in every cell the four lists hold exactly the decision for it after policies and owner filter, with targets in the order the comparisons leave, old and new sides of updates are paired, and every entry is in scope |
| `Store.ValidationIsExact` | pkg/mem/inmemory.go:285-321 | the four loops accept a batch exactly when creates are absent, updates and deletes are present with the same first target, and no key is named twice |
| `Store.ErrorSays` | pkg/mem/inmemory.go:285-321 | what each error says of the batch: something created is there, something updated or deleted is not or has another first target, a key is named twice, or a target list that is looked at is empty |
| `Store.ApplyAt` | pkg/mem/inmemory.go:264-272 | after an accepted batch the zone is the old one minus deletes, overlaid by creates and updates |
| `Store.ApplySize` | pkg/mem/inmemory.go:264-272 | its size is the old size plus creates minus deletes |
| `InMemory.InMemoryProvider.constructor` | pkg/mem/inmemory.go:70-90 | one empty zone per configured domain, or one that takes every name |
| `InMemory.InMemoryProvider.CreateZone` | pkg/mem/inmemory.go:238-245 | adds an empty zone, or refuses and changes nothing |
| `InMemory.InMemoryProvider.ValidateChangeBatch` | pkg/mem/inmemory.go:285-321 | the first complaint in the order of the loops |
| `InMemory.InMemoryProvider.ApplyChangesZone` | pkg/mem/inmemory.go:247-274 | applied entirely exactly if the batch is acceptable; otherwise the zone, and every other zone, stays as it was |
| `InMemory.InMemoryProvider.RecordsZone` | pkg/mem/inmemory.go:218-228 | each record of the zone once, in some order, or the error for a missing zone |
| `InMemory.InMemoryProvider.Records` | pkg/mem/inmemory.go:98-113 | for any zones: a copy of each record of each configured zone, each place once; fails exactly for a missing zone or an over-long label, with the error for it; a listing of the flat view where records are placed and copies faithful |
| `InMemory.CopyEndpoints` | pkg/mem/inmemory.go:175-187 | copies all fields; stops for a name that cannot be built |
| `InMemory.InMemoryProvider.SplitList` | pkg/mem/inmemory.go:130-157 | for any domains, equal ones included: each endpoint goes, in order, to one zone with a longest matching domain, or nowhere if none matches |
| `InMemory.InMemoryProvider.ApplyChanges` | pkg/mem/inmemory.go:120-173 | for any domains, equal ones included: the batch is split as `SplitList` says and applied zone by zone, each all or nothing; without an error every zone has its part, with one the failing zone is unchanged; with distinct domains the split is unique |
| `Routing.EndpointZoneID` | pkg/mem/inmemory.go:206-215 | a zone with a longest matching domain, or none if none matches |
| `Routing.ZoneForMeans` | pkg/mem/inmemory.go:206-215 | which zone may take a name: one whose domain is an ending of it, and no other such domain is longer |
| `Routing.ZoneIsUnique` | pkg/mem/inmemory.go:206-215 | with pairwise distinct domains the zone does not depend on iteration order |
| `Routing.FindZone` | provider/zonefinder.go:27-37 | a zone with a longest name that is the host or a label-aligned suffix of it |
| `Routing.SuitableZoneMeans` | provider/zonefinder.go:27-37 | which zone suits a host: one of its name or with the host under it, and no other such name is longer |
| `Routing.SuitableZoneIsUnique` | provider/zonefinder.go:27-37 | with distinct names the answer does not depend on iteration order |
| `Routing.SplitConserves` | pkg/mem/inmemory.go:123-157 | an endpoint occurs in the part of its own zone as often as in the batch, and in no other part |
| `Routing.AllOrNothingIff` | pkg/mem/inmemory.go:116-173 | every outcome of a batch changes nothing or applies all of it, exactly when all parts are acceptable or no acceptable part changes its zone |
| `Routing.PlacedIsKept` | pkg/mem/inmemory.go:120-173 | every stored record stays in the zone its name routes to, whatever the batch and the outcome |
| `Routing.PlacedAlongRun` | pkg/mem/inmemory.go:120-173 | over every run of batches, accepted or refused, records stay where they are routed to and no key is ever in two zones |
| `Routing.KeysAcrossZones` | pkg/mem/inmemory.go:51-67 | no key is in two zones |
| `Reconcile.PlansAreAcceptedIff` | plan/plan.go:175-238 | a plan made from the provider's own records passes validation exactly when each record to be replaced has a TTL to update, or a list of another length, or its least target stored first; no key is named twice, and the size of the zone changes by creates minus deletes |
| `Reconcile.RefusedPlan` | pkg/mem/inmemory.go:307-311 | a family of records and desired endpoints whose plan is refused: the first of two targets has changed, and the other is stored behind it though it is less |
| `Reconcile.TurnIsNext` | controller/controller.go:208-279 | the turn theorem: planning and applying takes every key to its `Next`, independently of all other keys |
| `Convergence.TurnKeepsWf` | controller/controller.go:208-279 | a turn keeps the zone well-formed |
| `Convergence.HasChangesIsExact` | endpoint/apis.go:33-38 | for a plan, `HasChanges` is false exactly when all four lists are empty, and exactly when applying it would change nothing |
| `Convergence.TurnSettles` | plan/plan.go:159-260 | after a turn every record is at rest: the next turn would leave it alone |
| `Convergence.LoopConverges` | controller/controller.go:208-279 | for every well-formed zone, desired list, owner and policy: zone and list tell whether the plan is accepted, and a second plan from the zone it leads to is empty |
| `Convergence.PoliciesLimitTurns` | plan/policy.go:36-63 | without deletions no record disappears in a turn; with creations alone no record changes |
| `Convergence.DesiredStateIsMet` | plan/plan.go:166-238 | under sync and ownership a turn whose plan is accepted leaves a key stored exactly when something is wanted for it, with the targets, TTL and properties of the selected candidate; keys out of scope are unchanged, and all keys if the plan is refused |
| `Convergence.RealisedTargets` | plan/plan.go:272-274 | with lower-case targets the stored list is a permutation of the wanted one |
| `Convergence.SortedIsKept` | pkg/mem/inmemory.go:307-311 | with sorted lists in zone and desired list the plan is accepted, and the new zone is sorted again |
| `Sharing.LoopConvergesAlike` | plan/plan.go:262-270 | convergence holds too if the desired endpoints had their owner labels written and their targets sorted between the turns, which is what a turn does to them |
| `Sharing.TurnLeavesAlike` | plan/plan.go:196-221 | choosing, comparing and inheriting change the owner label and the order of the targets of a desired endpoint, and nothing else |
| `Cname.TurnKeepsExclusive` | plan/conflict.go:75-118 | one sync turn keeps CNAMEs alone at their names, whoever owns what |
| `Cname.RunsStayExclusive` | plan/plan.go:192-237 | so does every run of sync turns, accepted or refused, with owners, desired lists and record order varying |
| `Cname.UpsertKeepsExclusiveIff` | plan/policy.go:47-63 | without deletions a turn keeps exclusivity exactly when its plan is refused or nothing is created beside a record of the other kind, both told from zone and desired list |
| `Isolation.StaleWriteAt` | plan/plan.go:217-250 | an accepted plan, however stale, fills a free key, or replaces or deletes a record of the writer's own, or does nothing, at each key |
| `Isolation.CreateNeedsClaim` | plan/plan.go:224-236 | nothing is created at a name that has a record in scope of somebody else |
| `Isolation.WriteIsolates` | pkg/mem/inmemory.go:247-321 | a stale batch is refused and leaves the zone, or touches own records and free keys only; a surviving record keeps its owner |
| `Isolation.StepKeepsInv` | controller/controller.go:208-279 | reading and writing at any pace keep the zone well-formed and every pending plan true of its owner's records |
| `Isolation.OwnerIsolation` | controller/controller.go:208-279 | in every run of any number of controllers with distinct owners each step changes records of one owner only |
| `Isolation.AbsentOwnerKeepsRecords` | controller/controller.go:208-279 | over a run in which a controller does not write, its records stay exactly as they were |
| `Controller.PartsAcceptedIff` | pkg/mem/inmemory.go:120-173 | for any batch: every zone accepts its part exactly when all zones seen as one accept what is routed |
| `Controller.ZonesActAsOne` | pkg/mem/inmemory.go:120-173 | for any batch: applying it zone by zone succeeds exactly when its routed part is acceptable for all zones seen as one, and then is applying it; otherwise every key stays or gets what the routed part has for it |
| `Controller.TurnOverZones` | controller/controller.go:208-279 | whatever names are desired, a turn over several zones does to the keys with a zone what a turn over the flat view does; it fails exactly when the plan is not acceptable, and leaves the zones fit for the next turn either way |
| `Controller.Controller.RunOnce` | controller/controller.go:208-279 | if reading or the source fails nothing changes; otherwise a plan is made for copies of everything stored and the desired list, and applied if it changes anything, whatever zones and names there are; records stay in the zones they are routed to; and well-formed zones stay so, there is an error exactly if the plan is not acceptable, and every key with a zone goes to its `Next` or, with an error, stays |
| `Controller.RoutedPartAcceptedIff` | pkg/mem/inmemory.go:130-136 | skipping what has no zone does not change whether a plan is accepted |
| `Controller.SettlesIffRouted` | pkg/mem/inmemory.go:130-136 | after an accepted batch the loop settles exactly when every name that is newly wanted, told from zone and desired list, has a zone; a name without one is planned for again |
| `Scheduler.Throttle.ScheduleRunOnce` | controller/controller.go:322-330 | an event moves the appointment to no later than the event interval from now |
| `Scheduler.Throttle.ShouldRunOnce` | controller/controller.go:332-340 | a poll runs exactly if the appointment has come, and then makes the next one |
| `Scheduler.RunsAreSpaced` | controller/controller.go:322-340 | over any interleaving, two runs are at least the smaller interval apart |
| `Scheduler.WindowBound` | controller/controller.go:322-340 | a window of some length holds at most its quotient by the smaller interval, plus one, runs |
| `Scheduler.EventsAreServed` | controller/controller.go:322-340 | the first poll at or after an event's deadline runs, unless a run happened since the event |
| `Scheduler.PollsAreServed` | controller/controller.go:332-340 | a poll an interval after the last run runs |
| `Scheduler.QuietRunsAreSpaced` | controller/controller.go:332-340 | without events runs are at least the interval apart |
| `DomainFilters.ShortcutIsCovers` | endpoint/domain_filter.go:112-120 | the test with its dot-count shortcut is the plain definition, for every filter and name |
| `DomainFilters.CoversIff` | endpoint/domain_filter.go:112-120 | a filter with a leading dot covers what ends in it, any other one itself and what lies under it |
| `DomainFilters.MatchFilter` | endpoint/domain_filter.go:101-123 | true exactly if some filter that is not blank is the name, a parent of it, or, with a leading dot, a suffix of it |
| `DomainFilters.MatchRegex` | endpoint/domain_filter.go:130-137 | not matched by the exclusion if there is one, matched by the other expression otherwise, on the stripped lower-case name |
| `DomainFilters.MatchDomain` | endpoint/domain_filter.go:90-96 | with an expression set what the expressions say, otherwise included and not excluded |
| `DomainFilters.MatchMeans` | endpoint/domain_filter.go:90-137 | which names are let through, in lower case and without a final dot: an exclusion expression decides alone, then the other expression, then the lists, and whatever an exclude covers is kept out |
| `DomainFilters.MatchAllFilters` | endpoint/domain_filter.go:30-40 | every filter that is present matches |
| `DomainFilters.MatchParent` | endpoint/domain_filter.go:203-222 | not excluded, and strictly above some filter without a leading dot |
| `DomainFilters.ParentMeans` | endpoint/domain_filter.go:203-222 | which names are let through as parents: not covered by an exclude and strictly above an include without a leading dot, or there are no includes |
| `DomainFilters.CoveredIsNoParent` | endpoint/domain_filter.go:203-222 | no filter sees a name both as its own and as its parent |
| `DomainFilters.PrepareFilters` | endpoint/domain_filter.go:63-71 | trimmed, lower-cased and not blank, in order |
| `FilterWire.WireAnswer` | endpoint/domain_filter.go:148-201 | a filter whose expressions are what their texts compile to comes back without an error, as `Returned` says |
| `FilterWire.RefusedMeans` | endpoint/domain_filter.go:168-201 | what is refused: lists beside expressions, and expressions that do not compile, with the error for each |
| `FilterWire.MatchAlikeIff` | endpoint/domain_filter.go:90-123 | two filters of lists let the same of all names through exactly when they agree on the empty name and on each of their filters that can match, at the filter and below it |
| `FilterWire.ListsAlikeIff` | endpoint/domain_filter.go:101-123 | two lists that are not empty match the same names exactly when each filter of either that can match lies within a filter of the other |
| `FilterWire.MarshalKeepsMatchIff` | endpoint/domain_filter.go:148-201 | a filter lets the same names through after the wire exactly when it has an expression, or agrees at its filters with what comes back |
| `FilterWire.ListSurvivesIff` | endpoint/domain_filter.go:63-71 | one list matches the same names after the wire exactly when it is empty, or is an exclude list of blanks that matched nothing, or its filters and their prepared forms lie within each other |
| `FilterWire.MarshalRoundTrip` | endpoint/domain_filter.go:148-180 | filters whose lists survive let the same names through after the wire |
| `FilterWire.PreparedRoundTrip` | endpoint/domain_filter.go:148-180 | so do filters that preparation leaves alone |
| `FilterWire.MarshalKeepsListsIff` | endpoint/domain_filter.go:148-180 | both lists come back, up to order, exactly when every filter is a fixed point of preparation |
| `FilterWire.MarshalLosesBlankFilter` | endpoint/domain_filter.go:63-71 | an include list of one blank filter lets nothing through and comes back letting everything through |
| `FilterWire.MarshalMovesDottedBlank` | endpoint/domain_filter.go:63-71 | preparing twice is not preparing once, so that even a constructed filter can change |
| `LabelText.SerializePlain` | endpoint/labels.go:82-103 | the text of the map, whatever its iteration order |
| `LabelText.SortedKeysUnique` | endpoint/labels.go:85-89 | every enumeration of the keys sorts to the same list |
| `LabelText.SortedKeysAscend` | endpoint/labels.go:89 | the keys are written in ascending order |
| `LabelText.NewLabelsFromStringPlain` | endpoint/labels.go:61-78 | what the tokens of the text say, later ones winning |
| `LabelText.LastTokenWins` | endpoint/labels.go:68-75 | of the tokens for one key the last one counts |
| `LabelText.OnlyTokensAreRead` | endpoint/labels.go:68-75 | every label read is one of the tokens |
| `LabelText.RoundTripIff` | endpoint/labels.go:61-103 | parsing the text, quoted or not, gives the map without the nonce exactly when no comma or equals sign occurs in the other keys and values and the text has no quote at either end |
| `LabelText.SerializeInjective` | endpoint/labels.go:82-103 | different labels without commas and equals signs have different texts, up to the nonce |
| `LabelText.SerializeSkipsNonce` | endpoint/labels.go:91-94 | the nonce makes no difference to the text |
| `Registry.TXTRegistry.ApplyChanges` | pkg/sources/dnsmesh/txt.go:166-199 | the provider gets the owned part of the batch, creates stamped, each record with its companion, and applies it zone by zone, for any domains |
| `Registry.UpdateIsAcceptedIff` | pkg/sources/dnsmesh/txt.go:169-198 | updates through the registry are accepted exactly when the owned new sides differ in name or set identifier and are stored with companions, and the owned old sides have the stored first target and the labels of the stored companion |
| `Registry.UpdateIsStored` | pkg/sources/dnsmesh/txt.go:187-198 | after an accepted update the key holds the new side and the companion the text of its labels |
| `Registry.UpdateLeavesOthers` | pkg/sources/dnsmesh/txt.go:169-170 | everything else stays as it is, and so unowned updates do nothing |
| `Registry.CreateThenUpdate` | pkg/sources/dnsmesh/txt.go:166-199 | updating what was created and read back is accepted, whatever the new sides are |
| `Registry.GenerateTXTRecord` | pkg/sources/dnsmesh/txt.go:141-162 | the companion of a record, if its name can be built |
| `Registry.TXTRegistry.Records` | pkg/sources/dnsmesh/txt.go:75-138 | for any zones: copies of the provider's records without own companions, with the labels they hold; fails exactly if the provider does or a TXT record has no target |
| `Registry.ViewMeans` | pkg/sources/dnsmesh/txt.go:89-134 | what a reader gets: every record but the TXT records that name this mesh, with the labels found for its name on top of its own |
| `Registry.LastCompanionCounts` | pkg/sources/dnsmesh/txt.go:102-106 | those are the labels of the last such TXT record of the name |
| `Registry.CreateIsAcceptedIff` | pkg/sources/dnsmesh/txt.go:166-199 | a creation through the registry is accepted exactly when its records differ in name or set identifier and their keys and those of their companions are free |
| `Registry.CreateThenReadIff` | pkg/sources/dnsmesh/txt.go:75-199 | creating where the names are free is accepted; reading copies, in any order, gives for these names exactly the created records with their labels and the mesh mark, each once, exactly when records of one name have the same labels, no target ends in a dot, and what was stored before can be read; this whether or not the provider keeps labels itself |
| `Registry.RebuiltTxtIsStored` | pkg/sources/dnsmesh/txt.go:182-191 | the companion rebuilt from a record that was read, its nonce lost or not, is the stored one |
| `Registry.DeleteUndoesCreateIff` | pkg/sources/dnsmesh/txt.go:166-199 | creating and then deleting what is read back, through the registry, is accepted and restores the zone exactly when every record carried the registry's owner label |
| `Arpa.ReverseAddr` | pkg/rfc2317/arpa.go:100-121 | octets or nibbles in reverse order as labels, then the zone |
| `Arpa.CidrToInAddr` | pkg/rfc2317/arpa.go:30-91 | what the code answers for each kind of input, errors included |
| `ArpaNames.AnswerIsLabels` | pkg/rfc2317/arpa.go:59-90 | the name is made of the labels of just the digits that the prefix fixes, last digit first; for /25 to /31 of first address and prefix length, over the /24 |
| `ArpaCollisions.Slash24Text` | pkg/rfc2317/arpa.go:28 | the text for an IPv4 /24 |
| `ArpaCollisions.ClasslessText` | pkg/rfc2317/arpa.go:29 | the text for a /25 to /31, with the slash |
| `ArpaCollisions.Slash16Text` | pkg/rfc2317/arpa.go:27 | the text for an IPv6 /16, in lower-case hexadecimal |
| `ArpaNames.RefusedIff` | pkg/rfc2317/arpa.go:46-90 | which networks are refused and why: an address that is no multiple of the size of the network, an empty prefix, or one that ends inside a label |
| `ArpaNames.ContainmentIsNameSuffix` | pkg/rfc2317/arpa.go:59-90 | with the container on a label boundary, one network contains another exactly when the name of the contained one equals or lies under the container's |
| `ArpaNames.NameDecodes` | pkg/rfc2317/arpa.go:46-90 | address and prefix length can be recovered from the name |
| `ArpaNames.BareAddressDecodes` | pkg/rfc2317/arpa.go:31-44 | every bare address is accepted and can be recovered from its name, as IPv4 if it is an IPv4 address in any form |
| `ArpaNames.NamesAreDistinct` | pkg/rfc2317/arpa.go:46-90 | distinct networks, of either family, have distinct names |
| `ArpaNames.DecodesIff` | pkg/rfc2317/arpa.go:46-90 | the decoder recovers an accepted network from its name exactly when it is not an IPv4-mapped address with an explicit prefix |
| `ArpaCollisions.NameIsUniqueIff` | pkg/rfc2317/arpa.go:46-90 | an accepted network has a name that no other accepted network has exactly when it is a /25 to /31 or an IPv6 network that is not IPv4-mapped |
| `ArpaCollisions.MappedPrefixCollides` | pkg/rfc2317/arpa.go:80-84 | an IPv4-mapped /128, /124, /120 or /116 shares its name with the IPv4 /32, /24, /16 or /8 of the same octets, where those that the latter leaves out are zero |

## Left out

- Sharing: endpoints are values. The source passes pointers, so that sorting a
  target list inside a comparison, stamping a label and inheriting an owner are
  visible through every holder of the endpoint, and a stored record is the
  desired object itself. The model sorts where the sorted endpoints are used: the
  slices (`Targets.SameInPlace`), the candidates (`Conflict.ResolveCreate`,
  `Conflict.ResolveUpdate`) and both sides of an update (`Plan.NeedsUpdating`). What
  a turn does to the desired endpoints that the next turn sees again does not
  matter (`Sharing.LoopConvergesAlike`). What a turn or a source does, through
  sharing, to an object that is also stored is not modelled.
- Nil and empty: nil maps and slices are empty ones. `cmp.Equal` is equality of values.
- Letters outside ASCII: lower-casing, case folding and trimming of blanks cover ASCII.
- Parsing of addresses: Go's `netip` enters as two functions, `net` as parsed addresses and prefix lengths.
- `sort.Sort`: modelled by the stable insertion sort that Go runs on short lists. On canonical targets only equal elements tie, so that any sort gives the same list.
- Panics: a nil pointer or an index out of range is the error `Panic` of the call; what the process does then is not modelled.
- Regular expressions enter as their text and a predicate on names, and compiling as a function. The JSON text of filters: only the structure that is encoded.
- Time: instants and durations are unbounded integers, and so are TTLs.
- The mutex, the ticker and the event handlers around the two calls of the scheduler; each call is one step.
- Atomicity across zones: the code does not have it; each zone is all or nothing.
- Configurations in which two zones have the same domain: routing depends on iteration order then, call by call. `InMemory.InMemoryProvider.ApplyChanges` states its outcome for them too; the theorems on several zones need distinct domains.
- Registry: wildcard replacement and caching, and turns of the loop that read and write through the registry. Updates through the registry are modelled, but recognising own records afterwards is not claimed, since the code does not stamp them.
- IPv4-mapped IPv6 addresses with an explicit prefix: excluded from the theorems on reverse names, exactly as `ArpaNames.DecodesIff` says they have to be where names are decoded.
- Providers other than the in-memory one, webhooks, HTTP, sources, custom resources, generated code, configuration, metrics and logging.
- Accessors for single provider-specific properties, `SameEndpoints`, and the callbacks of the provider: they would only add easy members.
