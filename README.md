# RoomAssign in Dafny

RoomAssign places the members of a roster into rooms. A spreadsheet of
survey answers is normalised into member records. Pairwise affinity scores
are derived from those records. A room set-up page turns "so many rooms of
each size" into a room list and saves it as a configuration. The optimizer
posts a constraint model to a CP-SAT solver and assembles the answer into
rooms. The board page, and the backend's manual-move endpoint, then let a
user drag members between rooms and a staging zone.

The model covers six pieces of that logic, one Dafny module each:

- `MoveValidation` models the manual move (`validate_solution_move`). The
  room list is an `array<Room>` updated in place. `ValidateSolutionMove` is
  proved against the function `ApplyMove`, and the lemmas state what
  `ApplyMove` does to every room.
- `Optimize` models the optimizer (`run_optimization`). A `CpModel` object
  collects linear constraints over the placement variables `x[p, r]`.
  - The posted list is proved equivalent to a feasibility predicate.
  - The solver is a function parameter (an oracle) from the posted
    constraints to a value for every `x[p, r]`.
  - The assembly of the answer into rooms and the over-capacity report are
    methods proved against specification functions.
  - The objective helpers `w(i, j)` and the rank bonus are functions with
    their properties.
- `PairwiseWeights` models `build_pairwise_weights`. Scores are integers
  in tenths. The nested dictionary is a `map` filled by nested loops whose
  invariant says which pairs are written and with what score.
- `Preprocess` models the roster normalisation:
  - name title-casing;
  - multi-value splitting with order-preserving de-duplication;
  - integer coercion and member ids;
  - column picking;
  - the per-row member record and the row loop.
- `Blueprint` models the board's drop handler (`onDragEnd`) as a function
  from the board state (rooms, staging) to the next one, and
  `isOverCapacity`.
- `Setup` models `makeRooms`, imperatively, against the function `Expand`,
  and the configuration record built by `saveConfig`.

Shared modules:

- `Common`: an option type and map lookup.
- `Text`: ASCII strings as Python and JavaScript treat them, meaning
  strip, split, join, capitalisation, decimal numerals and `int()`.
- `Board`: the rooms and member chips of a solution, with counting and
  search helpers.
- `Roster`: the member record.
- `Configuration`: the saved configuration.

Numbers that are decimal fractions in the source are integers here:
- pair scores are in tenths (3.0 is 30, 0.5 is 5, 0.3 is 3);
- soft weights are in hundredths (0.2 is 20).

Behaviour notes:

- The manual move never rejects anything. It only reports an over-full
  target room, and the rooms reflect the move even then.
- The move reads `memberId` and `toRoomId` only. `fromRoomId` and fixed
  room assignments are never consulted.
- `mutualDislikePairs` are posted as hard constraints, exactly like
  `mustApartPairs`.
- Malformed or unknown constraint pairs are skipped silently. They are not
  rejected as invalid input.
- The optimizer is a CP-SAT model.

## Model

| member | source | states |
|---|---|---|
| MoveValidation.RemoveFirstMeans | backend/app/services/validate.py:11-15 | a list without the id is kept; otherwise exactly the entry at the first position holding the id is removed, the others staying in order, so the multiset of entries loses that one entry |
| MoveValidation.SearchEntry | backend/app/services/validate.py:11-12 | the loop finds the position of the first entry with the id, or none |
| MoveValidation.ClearAt | backend/app/services/validate.py:11-15 | one room of the array loses its first entry with the id and no other array element changes; the remembered member becomes that entry when there is one, else stays as it was |
| MoveValidation.RemoveFromRooms | backend/app/services/validate.py:8-15 | the in-place removal loop leaves every room without its first entry of the id (`RemovedEverywhere`) and returns the last entry it took out (`FoundMember`) |
| MoveValidation.FoundMemberSource | backend/app/services/validate.py:10-15 | the remembered member is the first entry with the id in the last room that holds the id: no later room holds it |
| MoveValidation.FoundMemberMeans | backend/app/services/validate.py:13-18 | the remembered member carries the moved id, and there is none (so the placeholder is used) exactly when no room held the id |
| MoveValidation.TargetIndex | backend/app/services/validate.py:20-22 | a target exists only for a present, non-empty `toRoomId`; it is the first room with that id, and there is one whenever some room has that id |
| MoveValidation.FindRoom | backend/app/services/validate.py:21-22 | the search returns the first room whose id is the target id, or none |
| MoveValidation.ValidateSolutionMove | backend/app/services/validate.py:6-32 | the room array is updated in place to the rooms of `ApplyMove` and the violations of `ApplyMove` are returned; there is no failure outcome |
| MoveValidation.MoveKeepsRooms | backend/app/services/validate.py:9-27 | the move keeps the number and order of rooms and each room's id, label and capacity |
| MoveValidation.MoveRoomMembers | backend/app/services/validate.py:10-23 | a room's entries afterwards are its entries without the first of the id, followed by the moved member only when it is the target |
| MoveValidation.MoveRemovesFirstEntry | backend/app/services/validate.py:10-15 | in every room exactly the first entry of the id is gone and every other entry stays in order; a room that is not the target gains nothing |
| MoveValidation.RemoveFirstCount | backend/app/services/validate.py:11-15 | removing the first entry lowers the id's count by one when it occurs, else leaves it at 0 |
| MoveValidation.MoveCounts | backend/app/services/validate.py:10-23 | the moved id's count in each room drops by one if it was there and rises by one in the target room |
| MoveValidation.MoveAppendsAtTarget | backend/app/services/validate.py:16-23 | the target room ends with the moved member: the entry the removal loop remembered when some room held the id, the placeholder `{id, name: id}` otherwise |
| MoveValidation.MoveViolations | backend/app/services/validate.py:24-26 | at most one violation; there is one exactly when there is a target and it now holds more members than its capacity, and it names that room's label |
| MoveValidation.MoveToStaging | backend/app/services/validate.py:20-30 | without a target nothing is reported, and a member each room held at most once ends up in no room |
| MoveValidation.MoveLeavesOtherRooms | backend/app/services/validate.py:9-27 | a room that neither held the id nor is the target is left identical |
| MoveValidation.MoveIgnoresSource | backend/app/services/validate.py:6-32 | the outcome does not depend on `fromRoomId` or `roomId` |
| Board.FirstIndexOf | backend/app/services/validate.py:11-13 | the position found holds the id and no earlier entry does; none means no entry holds it |
| Board.FirstIndexOfNone | backend/app/services/validate.py:11-16 | the search finds nothing exactly when the id's count is 0 |
| Board.FirstRoomIndex | frontend/src/pages/Blueprint.tsx:73 | `findIndex` on the room ids: the first room with the id, or none when no room has it |
| Board.WithoutIdCount | frontend/src/pages/Blueprint.tsx:62-66 | filtering out an id leaves no entry of it and removes exactly its count of entries |
| Board.WithoutIdAppend | frontend/src/pages/Blueprint.tsx:62-66 | the filter distributes over concatenation, so the other entries keep their relative order |
| Optimize.MemberIndex | backend/app/services/optimize.py:20 | the index `id_to_idx` records for an id is a member with that id and the last such; none exactly when no member has it |
| Optimize.RoomIndex | backend/app/services/optimize.py:77 | the same for `room_id_to_idx` over the configured rooms |
| Optimize.ResolvePair | backend/app/services/optimize.py:53-60 | a pair entry yields two member indices exactly when it has length 2 and both ids are known |
| Optimize.ResolveFixed | backend/app/services/optimize.py:78-81 | a fixed assignment yields a member and a room index exactly when both ids are known |
| Optimize.SumAll | backend/app/services/optimize.py:40 | the sum of all placement variables is the number of placements made |
| Optimize.ExactlyOneMeans | backend/app/services/optimize.py:31-32 | the posted rows hold exactly when every member is placed in exactly one room |
| Optimize.CapacityBoundsMean | backend/app/services/optimize.py:35-38 | the posted per-room sums hold exactly when each room's occupancy is at most (or exactly) its capacity |
| Optimize.CapacityFamilyMeans | backend/app/services/optimize.py:35-47 | the capacity constraints hold exactly when rooms are within capacity (exactly full when empty beds are not allowed) and, with a budget, total capacity minus placements is at most the budget |
| Optimize.ApartMeans | backend/app/services/optimize.py:61-62 | `x[i,r] + x[j,r] <= 1` for every room holds exactly when the two never share a room |
| Optimize.TogetherMeans | backend/app/services/optimize.py:72-74 | `x[i,r] == x[j,r]` for every room holds exactly when the two share every room |
| Optimize.PairConstraintsMean | backend/app/services/optimize.py:53-74 | one pair entry's constraints hold exactly when, if the entry resolves, its members are kept apart (or together) |
| Optimize.ApartFamilyMeans | backend/app/services/optimize.py:53-62 | the posted apart constraints hold exactly when every resolvable pair is kept apart; malformed and unknown pairs impose nothing |
| Optimize.TogetherFamilyMeans | backend/app/services/optimize.py:65-74 | the posted together constraints hold exactly when every resolvable pair shares a room |
| Optimize.FixedFamilyMeans | backend/app/services/optimize.py:77-83 | the posted fixed constraints hold exactly when every fixed assignment with a known member and room is honoured |
| Optimize.PostedModelMeansFeasible | backend/app/services/optimize.py:30-83 | an answer satisfies every posted constraint exactly when it is feasible: one room each, capacities, budget, apart, dislike, together and fixed |
| Optimize.PostExactlyOne | backend/app/services/optimize.py:31-32 | the loop adds the exactly-one rows to the model, in member order |
| Optimize.PostCapacity | backend/app/services/optimize.py:35-47 | the loop adds the capacity family, including the budget row only with empty beds allowed and a budget given |
| Optimize.PostPairs | backend/app/services/optimize.py:53-74 | the loop adds the constraints of each pair entry in order, skipping malformed and unknown ones |
| Optimize.PostFixed | backend/app/services/optimize.py:77-83 | the loop adds one `x[i, r] == 1` per resolvable fixed assignment, in order |
| Optimize.PostConstraints | backend/app/services/optimize.py:30-83 | all posting together adds exactly the posted model |
| Optimize.AssembledRooms | backend/app/services/optimize.py:138-151 | one output room per configured room, in order, with its id, label and capacity; a room lists a roster member exactly when the answer places that member there, and as many entries as the answer places |
| Optimize.PlaceMembers | backend/app/services/optimize.py:138-151 | the nested loop builds exactly the assembled rooms |
| Optimize.ReportOverCapacity | backend/app/services/optimize.py:154-158 | the loop builds the over-capacity report |
| Optimize.RunOptimization | backend/app/services/optimize.py:7-168 | the rooms are the assembly of the solver's answer to the posted model, and the violations are the report on those rooms |
| Optimize.AssemblyListsEachMemberOnce | backend/app/services/optimize.py:31-32 | with one room per member, the output rooms together list every member exactly as often as the roster does, and no more |
| Optimize.MembersInCount | backend/app/services/optimize.py:148-151 | a room's member list is as long as its occupancy |
| Optimize.HoldsIdIff | backend/app/services/optimize.py:148-151 | with unique ids, a room's list holds a member's id exactly when the answer placed that member there |
| Optimize.ReportMeans | backend/app/services/optimize.py:154-158 | the report is empty exactly when no room is over capacity, and has at most one entry per room |
| Optimize.FeasibleFitsRooms | backend/app/services/optimize.py:35-47 | a feasible answer's rooms are within capacity (exactly full without empty beds), so the report is empty |
| Optimize.FeasibleWithinBudget | backend/app/services/optimize.py:39-44 | a feasible answer's output leaves at most the budget of beds empty |
| Optimize.FeasibleHonoursHardConstraints | backend/app/services/optimize.py:53-83 | in a feasible answer's output no room holds both members of a resolvable apart or dislike pair, a room holds one member of a together pair exactly when it holds the other, and a fixed room holds its member |
| Optimize.PairWeightProperties | backend/app/services/optimize.py:86-91 | `w(i, j)` is symmetric, is 0 when neither direction is stored, and is within twice the stored bound |
| Optimize.RankBonusProperties | backend/app/services/optimize.py:117 | the bonus is 0 exactly from rank 5 on, `5 - rank` below, and never grows as the rank worsens |
| Optimize.RankBonusCapacities | backend/app/services/optimize.py:111-117 | with ranks recorded under "2", "3" and "4", a member earns a rank bonus only in rooms of those capacities |
| PairwiseWeights.Clamp | backend/app/services/weights.py:48-52 | the score is within [-3, 3]; it is kept when already inside and cut to the nearer bound otherwise |
| PairwiseWeights.PairScore | backend/app/services/weights.py:22-52 | every pair score is within [-3, 3] |
| PairwiseWeights.ScorePair | backend/app/services/weights.py:22-52 | the accumulating `+=`/`-=` steps compute the pair score |
| PairwiseWeights.EmptyRows | backend/app/services/weights.py:16-18 | every member id gets an empty row and nothing else does |
| PairwiseWeights.FillRow | backend/app/services/weights.py:20-54 | one more member's row of pairs is written and the table invariant moves to the next member |
| PairwiseWeights.BuildPairwiseWeights | backend/app/services/weights.py:12-56 | the rows are exactly the member ids (an empty roster gives an empty map); every ordered pair of distinct positions has an entry; every entry is the score of the last pair of positions with those ids; all scores are within [-3, 3]; with unique ids every entry is its pair's score |
| PairwiseWeights.AttrSumRange | backend/app/services/weights.py:31-37 | the attribute terms add up to between -0.5 and 0.5 per attribute |
| PairwiseWeights.PairScoreSymmetric | backend/app/services/weights.py:24-46 | only the request and avoid terms depend on the direction: with those equal both ways, the score is symmetric |
| PairwiseWeights.UnrequestedScore | backend/app/services/weights.py:29-52 | without request or avoid, the score is the attribute terms plus the messiness term, within [-1.8, 1.8] |
| PairwiseWeights.RequestedScore | backend/app/services/weights.py:24-25 | a requested, not avoided, partner scores at least 1.2 |
| PairwiseWeights.AvoidedScore | backend/app/services/weights.py:26-27 | an avoided, not requested, partner scores at most -1.2 |
| PairwiseWeights.RequestedAndAvoidedScore | backend/app/services/weights.py:24-27 | a partner both requested and avoided gets +3 and -3, which cancel |
| PairwiseWeights.AgreeingScore | backend/app/services/weights.py:31-46 | three agreeing attributes and messiness within 1 give exactly 1.8 |
| Preprocess.CapitalizeAllIdempotent | backend/app/services/preprocess.py:10 | capitalising every word of capitalised words changes nothing |
| Preprocess.TitleCaseWellSpaced | backend/app/services/preprocess.py:7-10 | a title-cased name has no leading, trailing, doubled or non-space whitespace |
| Preprocess.TitleCaseWords | backend/app/services/preprocess.py:7-10 | the words of a title-cased name are the capitalised words of the input |
| Preprocess.TitleCaseIdempotent | backend/app/services/preprocess.py:7-10 | title-casing twice is title-casing once |
| Preprocess.TitleCaseNonEmpty | backend/app/services/preprocess.py:7-10 | a name with a non-space character title-cases to a non-empty name |
| Preprocess.Dedup | backend/app/services/preprocess.py:18-25 | the de-duplicated list holds exactly the values of the input |
| Preprocess.DedupNoDuplicates | backend/app/services/preprocess.py:18-25 | the de-duplicated list has no value twice |
| Preprocess.DedupOrder | backend/app/services/preprocess.py:18-25 | the kept values appear in the order of their first occurrences |
| Preprocess.SplitMulti | backend/app/services/preprocess.py:13-25 | the `seen`/`result` loop computes the split, cleaned, de-duplicated values, and no values for a non-string cell |
| Preprocess.MultiValuesMeans | backend/app/services/preprocess.py:13-25 | the result has no duplicates, holds exactly the cleaned parts, and keeps them in first-occurrence order |
| Preprocess.CoerceIntRoundTrip | backend/app/services/preprocess.py:28-34 | the text of any integer coerces back to that integer |
| Preprocess.KeepAlnum | backend/app/services/preprocess.py:69 | the id keeps only lower-case letters and digits |
| Preprocess.MemberIdIdempotent | backend/app/services/preprocess.py:69 | deriving an id from an id gives the same id |
| Preprocess.NormalizeColumnsKeys | backend/app/services/preprocess.py:39 | the keys of `cols` are the normalised headings in order of first occurrence |
| Preprocess.NormalizeColumnsUnique | backend/app/services/preprocess.py:39 | no key of `cols` occurs twice |
| Preprocess.NormalizeColumnsValues | backend/app/services/preprocess.py:39 | each key of `cols` maps to the last heading with that key |
| Preprocess.FirstKeyWith | backend/app/services/preprocess.py:43-45 | the first key containing the candidate, or none when no key does |
| Preprocess.PickedNone | backend/app/services/preprocess.py:41-46 | `pick` finds nothing exactly when no key contains any candidate |
| Preprocess.PickedMeans | backend/app/services/preprocess.py:41-46 | a picked heading comes from the first candidate found in some key, at the first key containing it |
| Preprocess.Pick | backend/app/services/preprocess.py:41-46 | the nested loop with early return computes `pick` |
| Preprocess.PickColumns | backend/app/services/preprocess.py:48-60 | the thirteen picks with their candidate lists |
| Preprocess.NameColumnMeans | backend/app/services/preprocess.py:48 | without a name column, or with an empty heading, "Name" is used |
| Preprocess.RowKept | backend/app/services/preprocess.py:65-67 | a row yields a member exactly when its name cell has a non-space character |
| Preprocess.RowMemberMeans | backend/app/services/preprocess.py:65-110 | a kept row gives a non-empty, well-spaced title-cased name, the id derived from it with only lower-case letters and digits, the year copied from the attributes, and request and avoid lists without duplicates |
| Preprocess.RankedSizesMeans | backend/app/services/preprocess.py:72-81 | the ranked sizes hold only "2", "3" and "4", each exactly when its rank coerced to an integer, with that rank |
| Preprocess.MessinessMeans | backend/app/services/preprocess.py:86-87 | messiness is never 0: missing, unreadable and 0 all become 3; any other integer is kept |
| Preprocess.MessinessRoundTrip | backend/app/services/preprocess.py:86-87 | the text of an integer reads back as that integer, except 0, which reads as 3 |
| Preprocess.EnforceMeans | backend/app/services/preprocess.py:96-98 | the flag is written exactly when the column was picked, and is true exactly for `yes`, `true` or `1` after stripping and lower-casing |
| Preprocess.FillRanks | backend/app/services/preprocess.py:72-81 | the conditional writes build the ranked sizes |
| Preprocess.BuildMember | backend/app/services/preprocess.py:65-110 | the per-row statements build the row's member, or skip the row |
| Preprocess.KeptMeans | backend/app/services/preprocess.py:64-110 | the roster holds exactly the members the rows yield, and no more entries than rows |
| Preprocess.BuildRoster | backend/app/services/preprocess.py:62-112 | the row loop appends the members of the kept rows, in row order |
| Preprocess.PreprocessDataframe | backend/app/services/preprocess.py:37-112 | the whole step: normalise the columns, pick, then build the roster from the rows |
| Preprocess.RosterMembers | backend/app/services/preprocess.py:64-110 | every roster member has a non-empty, well-spaced name and the id derived from it |
| Blueprint.LastIn | frontend/src/pages/Blueprint.tsx:62-66 | the entry captured in one room carries the id, and there is none exactly when the room does not hold it |
| Blueprint.LastInMeans | frontend/src/pages/Blueprint.tsx:62-66 | the entry captured in one room is its last entry with the id: no later entry carries it |
| Blueprint.CapturedMember | frontend/src/pages/Blueprint.tsx:60-68 | the entry captured over all rooms carries the id, and there is none exactly when no room holds it |
| Blueprint.CapturedMemberMeans | frontend/src/pages/Blueprint.tsx:60-68 | the entry captured over all rooms is the one captured in the last room that holds the id: no later room holds it |
| Blueprint.TotalCountFiltered | frontend/src/pages/Blueprint.tsx:61-68 | after the filter no room holds the id |
| Blueprint.RoomDropTarget | frontend/src/pages/Blueprint.tsx:71-72 | a drop target `room-X` is recognised as a room and yields the room id X |
| Blueprint.DropNowhere | frontend/src/pages/Blueprint.tsx:56 | a drop outside every droppable changes nothing |
| Blueprint.DropOntoRoom | frontend/src/pages/Blueprint.tsx:59-76 | dropping a member some room held onto an existing room leaves it exactly once on the board, as the last entry of that room and as the very entry the filter captured, and not in staging |
| Blueprint.DropOverCapacity | frontend/src/pages/Blueprint.tsx:83-85 | after such a drop the target shows as over capacity exactly when its other entries already filled it |
| Blueprint.DropOntoRoomClearsStaging | frontend/src/pages/Blueprint.tsx:69-76 | after any drop onto a room id, staging does not hold the member |
| Blueprint.StagedMemberLost | frontend/src/pages/Blueprint.tsx:60-76 | a member held only in staging and dropped onto a room leaves staging, the rooms are unchanged, and it is nowhere on the board |
| Blueprint.DropOntoStaging | frontend/src/pages/Blueprint.tsx:77-79 | a member found in a room leaves every room and the captured entry itself is appended to staging; otherwise nothing changes, so a staging-to-staging drop is a no-op |
| Blueprint.DropKeepsRooms | frontend/src/pages/Blueprint.tsx:61-74 | any drop keeps the rooms in order with their ids, labels and capacities, and each room's other entries in order |
| Blueprint.DropElsewhere | frontend/src/pages/Blueprint.tsx:71-80 | a drop onto anything that is neither a room nor the staging zone changes nothing |
| Setup.RoomIdInjective | frontend/src/pages/Setup.tsx:9 | two rooms get the same id only for the same capacity and number |
| Setup.BatchMeans | frontend/src/pages/Setup.tsx:9 | a count gives that many rooms (none below 1), the k-th with id `cap-k` and label `capp-k`, every one with the capacity and no two with the same id |
| Setup.AddBatch | frontend/src/pages/Setup.tsx:9 | the counting loop appends one entry's batch |
| Setup.MakeRooms | frontend/src/pages/Setup.tsx:5-12 | the loops build exactly the expansion of the entries |
| Setup.ExpandSize | frontend/src/pages/Setup.tsx:5-11 | the number of rooms is the sum of the counts (counts below 1 give none) |
| Setup.BatchBeds | frontend/src/pages/Setup.tsx:9 | a batch holds capacity times count beds |
| Setup.ExpandBeds | frontend/src/pages/Setup.tsx:7-9 | the total capacity is the sum of capacity times count |
| Setup.ExpandShape | frontend/src/pages/Setup.tsx:8-9 | every room is the k-th room of one entry's capacity, for k from 1 to its count |
| Setup.ExpandCapacities | frontend/src/pages/Setup.tsx:8-9 | every room's capacity is one of the map's keys |
| Setup.ExpandIdsDistinct | frontend/src/pages/Setup.tsx:9 | with distinct keys, all room ids are distinct |
| Setup.SizeEntriesTotals | frontend/src/pages/Setup.tsx:27 | the three counts ask for their sum of rooms and 2, 3 and 4 beds per room |
| Setup.SetupRooms | frontend/src/pages/Setup.tsx:27 | the page's rooms number the sum of the counts, hold 2, 3 and 4 beds per room, have distinct ids and capacities 2, 3 or 4 |
| Setup.SaveConfig | frontend/src/pages/Setup.tsx:25-32 | nothing is saved without a dataset; otherwise the config holds the expanded rooms, the empty-bed settings as given, empty hard-constraint lists and weights 0.2, 0.1, 0.1 |
| Text.WordsStrip | backend/app/services/preprocess.py:8-10 | stripping first does not change the words `re.split(r"\s+")` keeps |
| Text.ParseIntToString | backend/app/services/preprocess.py:32 | `int()` reads back the decimal text of every integer |
| Text.StripEmptyIffBlank | backend/app/services/preprocess.py:65-66 | a stripped text is empty exactly when the text has no non-space character |

## Left out

- The CP-SAT search itself (solver parameters, `Solve`, eight workers, time limit) is a foreign, parallel library. It is a function parameter here, with no assumption about its answer.
- The solver status is left out. The code reads the answer whatever the status, and so does the model, which does not say which answer an infeasible model yields.
- The objective is left out: the `both` variables, objective terms, `Maximize`, `score` and `runtimeMs`. Only its helpers `w(i, j)` and the rank bonus are modelled. The configuration schema's `maxPerRoom` map is never read by the optimizer and is not part of the configuration record here. The `gamma` weight is carried in `SoftWeights` (and set to 10 by `SaveConfig`) but the optimizer never reads it.
- Floating point is not modelled. Weights are integer tenths and soft weights integer hundredths; every constant in the code is an exact tenth or hundredth.
- pandas is not modelled: CSV reading, `iterrows` and `pd.isna`. A row is a map from column label to an optional text cell, and a non-text cell is represented by the text `str()` gives it.
- Duplicate column labels in a table are not modelled (pandas makes `row.get` return a series for them).
- Full Unicode is not modelled. Characters are ASCII; `str.lower`, `str.capitalize`, `str.title`, `\s` and `str.strip` use the ASCII whitespace and letters.
- Preprocess.SplitMulti: the non-string branch of `_split_multi` is the missing cell. The row loop always passes `str(...)`, so there a missing cell is the text `nan`, as modelled.
- Preprocess.TitleCaseIdempotent: the test sample "  alice  smith " to "Alice Smith" is covered by the general lemmas, not proved as a concrete instance.
- Preprocess.BuildMember: the attributes are computed by the function `RowAttributes` in one step, not key by key into a dictionary.
- Routers, database, authentication, settings, PDF and CSV export, and persistence of a move's result are left out; they are I/O.
- The frontend's rendering, dnd-kit sensors, routing and API client are left out, as are `ConfigAPI.save` and the navigation after `saveConfig`.
- A JavaScript count that is fractional or NaN in `makeRooms` is not modelled: counts are integers. A count below 1, negative ones included, gives no rooms, as the `for` loop does.
- Setup.SaveConfig: the `fixedRoomAssignments` dictionary is represented as an empty list of pairs, like every other hard-constraint list.
- Room records without a `capacity` key (read as 0), or with a capacity that is not an integer, are not modelled. Capacity is an integer field.
- A board drag without an active draggable (`if (!active) return`) is not modelled: the dragged id is always given.
- Member records on the board carry only `id` and `name`. Other fields travel with the record unchanged and play no part in any decision.
