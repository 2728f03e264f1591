/** The optimizer (`run_optimization`): the constraint model it posts to the
    CP-SAT solver, read as a feasibility predicate over the solver's answer,
    and the assembly of that answer into rooms and a violation report. The
    solver itself is an oracle: a function from the posted constraints to a
    value for every placement variable `x[p, r]`. */
module Optimize {
  import opened Common
  import opened Text
  import opened Roster
  import opened Configuration
  import opened Board

  // -----------------------------------------------------------------------
  // Index lookups
  // -----------------------------------------------------------------------

  /** `idx_of`: the member position recorded for `id` by the dictionary
      comprehension over the member list, so the LAST position with that id. */
  function MemberIndex(members: seq<Member>, id: string): (i: Option<nat>)
    ensures i.Some? ==> i.value < |members| && members[i.value].id == id
    ensures i.Some? ==> forall k :: i.value < k < |members| ==> members[k].id != id
    ensures i.None? <==> forall k :: 0 <= k < |members| ==> members[k].id != id
  {
    if members == [] then None
    else if members[|members| - 1].id == id then Some(|members| - 1)
    else MemberIndex(members[..|members| - 1], id)
  }

  /** `room_id_to_idx.get`: the last room position with the id `id`. */
  function RoomIndex(rooms: seq<RoomSpec>, id: string): (r: Option<nat>)
    ensures r.Some? ==> r.value < |rooms| && rooms[r.value].id == id
    ensures r.Some? ==> forall k :: r.value < k < |rooms| ==> rooms[k].id != id
    ensures r.None? <==> forall k :: 0 <= k < |rooms| ==> rooms[k].id != id
  {
    if rooms == [] then None
    else if rooms[|rooms| - 1].id == id then Some(|rooms| - 1)
    else RoomIndex(rooms[..|rooms| - 1], id)
  }

  /** A pair entry that is posted: exactly two ids, both known. */
  function ResolvePair(members: seq<Member>, pair: seq<string>): (ij: Option<(nat, nat)>)
    ensures ij.Some? <==> |pair| == 2 && MemberIndex(members, pair[0]).Some? && MemberIndex(members, pair[1]).Some?
    ensures ij.Some? ==> ij.value.0 < |members| && ij.value.1 < |members|
  {
    if |pair| != 2 then None
    else match (MemberIndex(members, pair[0]), MemberIndex(members, pair[1]))
      case (Some(i), Some(j)) => Some((i, j))
      case _ => None
  }

  /** A fixed assignment that is posted: member and room both known. */
  function ResolveFixed(members: seq<Member>, rooms: seq<RoomSpec>, entry: (string, string)): (ir: Option<(nat, nat)>)
    ensures ir.Some? <==> MemberIndex(members, entry.0).Some? && RoomIndex(rooms, entry.1).Some?
    ensures ir.Some? ==> ir.value.0 < |members| && ir.value.1 < |rooms|
  {
    match (MemberIndex(members, entry.0), RoomIndex(rooms, entry.1))
    case (Some(i), Some(r)) => Some((i, r))
    case _ => None
  }

  // -----------------------------------------------------------------------
  // Linear constraints over the placement variables
  // -----------------------------------------------------------------------

  /** The solver's answer: `x(p, r)` is the value of `x[p, r]`, member `p`
      placed in room `r`. */
  type Assignment = (nat, nat) -> bool

  function Bit(x: Assignment, p: nat, r: nat): nat {
    if x(p, r) then 1 else 0
  }

  datatype Term = Term(coef: int, p: nat, r: nat)
  datatype Relation = AtMost | Equal | AtLeast
  datatype Linear = Linear(terms: seq<Term>, rel: Relation, bound: int)

  function Sum(x: Assignment, ts: seq<Term>): int {
    if ts == [] then 0
    else Sum(x, ts[..|ts| - 1]) + Weighted(x, ts[|ts| - 1])
  }

  /** `coef * x[p, r]` for the 0/1 value of `x[p, r]`. */
  function Weighted(x: Assignment, t: Term): int {
    if x(t.p, t.r) then t.coef else 0
  }

  predicate Holds(x: Assignment, c: Linear) {
    match c.rel
    case AtMost => Sum(x, c.terms) <= c.bound
    case Equal => Sum(x, c.terms) == c.bound
    case AtLeast => Sum(x, c.terms) >= c.bound
  }

  predicate SatisfiesAll(x: Assignment, cs: seq<Linear>) {
    forall k :: 0 <= k < |cs| ==> Holds(x, cs[k])
  }

  lemma SatisfiesAllAppend(x: Assignment, a: seq<Linear>, b: seq<Linear>)
    ensures SatisfiesAll(x, a + b) <==> SatisfiesAll(x, a) && SatisfiesAll(x, b)
  {
    if SatisfiesAll(x, a) && SatisfiesAll(x, b) {
      forall k | 0 <= k < |a + b|
        ensures Holds(x, (a + b)[k])
      {
        if k >= |a| {
          assert (a + b)[k] == b[k - |a|];
        }
      }
    }
    if SatisfiesAll(x, a + b) {
      forall k | 0 <= k < |a|
        ensures Holds(x, a[k])
      {
        assert (a + b)[k] == a[k];
      }
      forall k | 0 <= k < |b|
        ensures Holds(x, b[k])
      {
        assert (a + b)[|a| + k] == b[k];
      }
    }
  }

  // -----------------------------------------------------------------------
  // Counting placements
  // -----------------------------------------------------------------------

  /** How many of the first `n` rooms hold member `p`. */
  function RowCount(x: Assignment, p: nat, n: nat): nat {
    if n == 0 then 0 else RowCount(x, p, n - 1) + Bit(x, p, n - 1)
  }

  /** How many of the first `n` members room `r` holds. */
  function Occupancy(x: Assignment, n: nat, r: nat): nat {
    if n == 0 then 0 else Occupancy(x, n - 1, r) + Bit(x, n - 1, r)
  }

  /** `total_assigned`: placements of the first `n` members over `rooms` rooms. */
  function AssignedCount(x: Assignment, n: nat, rooms: nat): nat {
    if n == 0 then 0 else AssignedCount(x, n - 1, rooms) + RowCount(x, n - 1, rooms)
  }

  /** `sum(capacities)`. */
  function TotalCapacity(rooms: seq<RoomSpec>): int {
    if rooms == [] then 0 else TotalCapacity(rooms[..|rooms| - 1]) + rooms[|rooms| - 1].capacity
  }

  /** When every member is in exactly one room, the placements number the
      members. */
  lemma {:induction false} AssignedCountAllPlaced(x: Assignment, n: nat, rooms: nat)
    requires forall p :: 0 <= p < n ==> RowCount(x, p, rooms) == 1
    ensures AssignedCount(x, n, rooms) == n
  {
    if n > 0 {
      AssignedCountAllPlaced(x, n - 1, rooms);
    }
  }

  // -----------------------------------------------------------------------
  // The posted constraint families
  // -----------------------------------------------------------------------

  /** `x[p, r] for r in range(R)`. */
  function RowTerms(p: nat, rooms: nat): (ts: seq<Term>)
    ensures |ts| == rooms
  {
    seq(rooms, r requires 0 <= r < rooms => Term(1, p, r))
  }

  /** `x[p, r] for p in range(P)`. */
  function ColumnTerms(n: nat, r: nat): (ts: seq<Term>)
    ensures |ts| == n
  {
    seq(n, p requires 0 <= p < n => Term(1, p, r))
  }

  /** `x[p, r] for p in range(P) for r in range(R)`, member-major. */
  function AllTerms(n: nat, rooms: nat): seq<Term> {
    if n == 0 then [] else AllTerms(n - 1, rooms) + RowTerms(n - 1, rooms)
  }

  lemma {:induction false} SumAppend(x: Assignment, a: seq<Term>, b: seq<Term>)
    ensures Sum(x, a + b) == Sum(x, a) + Sum(x, b)
  {
    if b == [] {
      assert a + b == a;
    } else {
      SumAppend(x, a, b[..|b| - 1]);
      assert (a + b)[..|a + b| - 1] == a + b[..|b| - 1];
    }
  }

  lemma {:induction false} SumRow(x: Assignment, p: nat, rooms: nat)
    ensures Sum(x, RowTerms(p, rooms)) == RowCount(x, p, rooms)
  {
    if rooms > 0 {
      SumRow(x, p, rooms - 1);
      assert RowTerms(p, rooms)[..rooms - 1] == RowTerms(p, rooms - 1);
    }
  }

  lemma {:induction false} SumColumn(x: Assignment, n: nat, r: nat)
    ensures Sum(x, ColumnTerms(n, r)) == Occupancy(x, n, r)
  {
    if n > 0 {
      SumColumn(x, n - 1, r);
      assert ColumnTerms(n, r)[..n - 1] == ColumnTerms(n - 1, r);
    }
  }

  lemma {:induction false} SumAll(x: Assignment, n: nat, rooms: nat)
    ensures Sum(x, AllTerms(n, rooms)) == AssignedCount(x, n, rooms)
  {
    if n > 0 {
      var head, row := AllTerms(n - 1, rooms), RowTerms(n - 1, rooms);
      assert Sum(x, AllTerms(n, rooms)) == Sum(x, head) + Sum(x, row) by {
        assert AllTerms(n, rooms) == head + row;
        SumAppend(x, head, row);
      }
      assert Sum(x, head) == AssignedCount(x, n - 1, rooms) by {
        SumAll(x, n - 1, rooms);
      }
      assert Sum(x, row) == RowCount(x, n - 1, rooms) by {
        SumRow(x, n - 1, rooms);
      }
    }
  }

  /** The exactly-one-room constraints: one equality per member, its row
      summing to 1. */
  function ExactlyOneFamily(n: nat, rooms: nat): (cs: seq<Linear>)
    ensures |cs| == n
  {
    if n == 0 then [] else ExactlyOneFamily(n - 1, rooms) + [Linear(RowTerms(n - 1, rooms), Equal, 1)]
  }

  /** One capacity bound per room, for the first `n` rooms. */
  function CapacityBounds(members: nat, rooms: seq<RoomSpec>, n: nat, rel: Relation): (cs: seq<Linear>)
    requires n <= |rooms|
    ensures |cs| == n
  {
    if n == 0 then []
    else CapacityBounds(members, rooms, n - 1, rel) + [Linear(ColumnTerms(members, n - 1), rel, rooms[n - 1].capacity)]
  }

  /** The capacity constraints: `<=` bounds plus the optional empty-bed
      budget when empty beds are allowed, `==` bounds otherwise. */
  function CapacityFamily(members: nat, cfg: Config): seq<Linear> {
    var rooms := cfg.rooms;
    if cfg.allowEmptyBeds then
      CapacityBounds(members, rooms, |rooms|, AtMost)
      + (match cfg.emptyBedBudget
         case None => []
         case Some(budget) => [Linear(AllTerms(members, |rooms|), AtLeast, TotalCapacity(rooms) - budget)])
    else CapacityBounds(members, rooms, |rooms|, Equal)
  }

  /** `x[i, r] + x[j, r] <= 1` for every room. */
  function ApartConstraints(i: nat, j: nat, rooms: nat): (cs: seq<Linear>)
    ensures |cs| == rooms
  {
    seq(rooms, r requires 0 <= r < rooms => Linear([Term(1, i, r), Term(1, j, r)], AtMost, 1))
  }

  /** `x[i, r] == x[j, r]` for every room. */
  function TogetherConstraints(i: nat, j: nat, rooms: nat): (cs: seq<Linear>)
    ensures |cs| == rooms
  {
    seq(rooms, r requires 0 <= r < rooms => Linear([Term(1, i, r), Term(-1, j, r)], Equal, 0))
  }

  /** What one pair entry posts; malformed or unknown entries post nothing. */
  function PairConstraints(members: seq<Member>, pair: seq<string>, rooms: nat, together: bool): seq<Linear> {
    match ResolvePair(members, pair)
    case None => []
    case Some((i, j)) => if together then TogetherConstraints(i, j, rooms) else ApartConstraints(i, j, rooms)
  }

  /** The constraints of one pair list (must-together, must-apart or
      mutual dislike), entry by entry. */
  function PairFamily(members: seq<Member>, pairs: seq<seq<string>>, rooms: nat, together: bool): seq<Linear> {
    if pairs == [] then []
    else PairFamily(members, pairs[..|pairs| - 1], rooms, together)
         + PairConstraints(members, pairs[|pairs| - 1], rooms, together)
  }

  /** What one fixed assignment posts. */
  function FixedConstraints(members: seq<Member>, rooms: seq<RoomSpec>, entry: (string, string)): seq<Linear> {
    match ResolveFixed(members, rooms, entry)
    case None => []
    case Some((i, r)) => [Linear([Term(1, i, r)], Equal, 1)]
  }

  /** The fixed-room constraints, entry by entry. */
  function FixedFamily(members: seq<Member>, rooms: seq<RoomSpec>, fixed: seq<(string, string)>): seq<Linear> {
    if fixed == [] then []
    else FixedFamily(members, rooms, fixed[..|fixed| - 1]) + FixedConstraints(members, rooms, fixed[|fixed| - 1])
  }

  /** Every constraint `run_optimization` posts, in posting order. */
  function PostedModel(members: seq<Member>, cfg: Config): seq<Linear> {
    var n, rooms := |members|, |cfg.rooms|;
    ExactlyOneFamily(n, rooms)
    + CapacityFamily(n, cfg)
    + PairFamily(members, cfg.hard.mustApartPairs, rooms, false)
    + PairFamily(members, cfg.hard.mutualDislikePairs, rooms, false)
    + PairFamily(members, cfg.hard.mustTogetherPairs, rooms, true)
    + FixedFamily(members, cfg.rooms, cfg.hard.fixedRoomAssignments)
  }

  // -----------------------------------------------------------------------
  // Feasibility, stated directly
  // -----------------------------------------------------------------------

  predicate NeverShare(x: Assignment, ij: (nat, nat), rooms: nat) {
    forall r :: 0 <= r < rooms ==> !(x(ij.0, r) && x(ij.1, r))
  }

  predicate AlwaysShare(x: Assignment, ij: (nat, nat), rooms: nat) {
    forall r :: 0 <= r < rooms ==> x(ij.0, r) == x(ij.1, r)
  }

  /** Every well-formed, known entry of `pairs` is kept apart. */
  predicate KeptApart(x: Assignment, members: seq<Member>, pairs: seq<seq<string>>, rooms: nat) {
    forall k :: 0 <= k < |pairs| && ResolvePair(members, pairs[k]).Some? ==>
      NeverShare(x, ResolvePair(members, pairs[k]).value, rooms)
  }

  /** Every well-formed, known entry of `pairs` shares every room. */
  predicate KeptTogether(x: Assignment, members: seq<Member>, pairs: seq<seq<string>>, rooms: nat) {
    forall k :: 0 <= k < |pairs| && ResolvePair(members, pairs[k]).Some? ==>
      AlwaysShare(x, ResolvePair(members, pairs[k]).value, rooms)
  }

  predicate PlacedAt(x: Assignment, ir: (nat, nat)) {
    x(ir.0, ir.1)
  }

  /** Every fixed assignment naming a known member and a known room holds. */
  predicate FixedHonoured(x: Assignment, members: seq<Member>, rooms: seq<RoomSpec>, fixed: seq<(string, string)>) {
    forall k :: 0 <= k < |fixed| && ResolveFixed(members, rooms, fixed[k]).Some? ==>
      PlacedAt(x, ResolveFixed(members, rooms, fixed[k]).value)
  }

  predicate OnePerMember(x: Assignment, n: nat, rooms: nat) {
    forall p :: 0 <= p < n ==> RowCount(x, p, rooms) == 1
  }

  predicate WithinCapacity(x: Assignment, n: nat, rooms: seq<RoomSpec>, exact: bool) {
    forall r :: 0 <= r < |rooms| ==>
      if exact then Occupancy(x, n, r) == rooms[r].capacity else Occupancy(x, n, r) <= rooms[r].capacity
  }

  predicate WithinBudget(x: Assignment, n: nat, cfg: Config) {
    cfg.allowEmptyBeds && cfg.emptyBedBudget.Some? ==>
      TotalCapacity(cfg.rooms) - AssignedCount(x, n, |cfg.rooms|) <= cfg.emptyBedBudget.value
  }

  /** What an assignment must satisfy to be a solution of the posted model. */
  predicate Feasible(members: seq<Member>, cfg: Config, x: Assignment) {
    var n, rooms := |members|, |cfg.rooms|;
    && OnePerMember(x, n, rooms)
    && WithinCapacity(x, n, cfg.rooms, !cfg.allowEmptyBeds)
    && WithinBudget(x, n, cfg)
    && KeptApart(x, members, cfg.hard.mustApartPairs, rooms)
    && KeptApart(x, members, cfg.hard.mutualDislikePairs, rooms)
    && KeptTogether(x, members, cfg.hard.mustTogetherPairs, rooms)
    && FixedHonoured(x, members, cfg.rooms, cfg.hard.fixedRoomAssignments)
  }

  // -----------------------------------------------------------------------
  // The posted model means exactly feasibility
  // -----------------------------------------------------------------------

  lemma SumTwo(x: Assignment, a: Term, b: Term)
    ensures Sum(x, [a, b]) == Weighted(x, a) + Weighted(x, b)
  {
    assert [a, b][..1] == [a];
    SumOne(x, a);
  }

  lemma SumOne(x: Assignment, a: Term)
    ensures Sum(x, [a]) == Weighted(x, a)
  {
    assert [a][..0] == [];
  }

  lemma SatisfiesOne(x: Assignment, c: Linear)
    ensures SatisfiesAll(x, [c]) <==> Holds(x, c)
  {
    assert [c][0] == c;
  }

  lemma {:induction false} ExactlyOneMeans(x: Assignment, n: nat, rooms: nat)
    ensures SatisfiesAll(x, ExactlyOneFamily(n, rooms)) <==> OnePerMember(x, n, rooms)
  {
    if n > 0 {
      ExactlyOneMeans(x, n - 1, rooms);
      var c := Linear(RowTerms(n - 1, rooms), Equal, 1);
      SatisfiesAllAppend(x, ExactlyOneFamily(n - 1, rooms), [c]);
      SumRow(x, n - 1, rooms);
      SatisfiesOne(x, c);
    }
  }

  predicate BoundedRooms(x: Assignment, members: nat, rooms: seq<RoomSpec>, n: nat, exact: bool)
    requires n <= |rooms|
  {
    forall r :: 0 <= r < n ==>
      if exact then Occupancy(x, members, r) == rooms[r].capacity else Occupancy(x, members, r) <= rooms[r].capacity
  }

  lemma {:induction false} CapacityBoundsMean(x: Assignment, members: nat, rooms: seq<RoomSpec>, n: nat, rel: Relation)
    requires n <= |rooms| && rel != AtLeast
    ensures SatisfiesAll(x, CapacityBounds(members, rooms, n, rel)) <==> BoundedRooms(x, members, rooms, n, rel == Equal)
  {
    if n > 0 {
      CapacityBoundsMean(x, members, rooms, n - 1, rel);
      var c := Linear(ColumnTerms(members, n - 1), rel, rooms[n - 1].capacity);
      SatisfiesAllAppend(x, CapacityBounds(members, rooms, n - 1, rel), [c]);
      SumColumn(x, members, n - 1);
      SatisfiesOne(x, c);
    }
  }

  lemma CapacityFamilyMeans(x: Assignment, members: nat, cfg: Config)
    ensures SatisfiesAll(x, CapacityFamily(members, cfg)) <==>
      WithinCapacity(x, members, cfg.rooms, !cfg.allowEmptyBeds) && WithinBudget(x, members, cfg)
  {
    var rooms := cfg.rooms;
    if cfg.allowEmptyBeds {
      CapacityBoundsMean(x, members, rooms, |rooms|, AtMost);
      match cfg.emptyBedBudget
      case None =>
        assert CapacityFamily(members, cfg) == CapacityBounds(members, rooms, |rooms|, AtMost) + [];
        SatisfiesAllAppend(x, CapacityBounds(members, rooms, |rooms|, AtMost), []);
      case Some(budget) =>
        var c := Linear(AllTerms(members, |rooms|), AtLeast, TotalCapacity(rooms) - budget);
        SatisfiesAllAppend(x, CapacityBounds(members, rooms, |rooms|, AtMost), [c]);
        SumAll(x, members, |rooms|);
        SatisfiesOne(x, c);
    } else {
      CapacityBoundsMean(x, members, rooms, |rooms|, Equal);
    }
  }

  lemma ApartMeans(x: Assignment, i: nat, j: nat, rooms: nat)
    ensures SatisfiesAll(x, ApartConstraints(i, j, rooms)) <==> NeverShare(x, (i, j), rooms)
  {
    forall r | 0 <= r < rooms
      ensures Holds(x, ApartConstraints(i, j, rooms)[r]) <==> !(x(i, r) && x(j, r))
    {
      SumTwo(x, Term(1, i, r), Term(1, j, r));
    }
  }

  lemma TogetherMeans(x: Assignment, i: nat, j: nat, rooms: nat)
    ensures SatisfiesAll(x, TogetherConstraints(i, j, rooms)) <==> AlwaysShare(x, (i, j), rooms)
  {
    forall r | 0 <= r < rooms
      ensures Holds(x, TogetherConstraints(i, j, rooms)[r]) <==> x(i, r) == x(j, r)
    {
      SumTwo(x, Term(1, i, r), Term(-1, j, r));
    }
  }

  /** What one pair entry's constraints demand. */
  lemma PairConstraintsMean(x: Assignment, members: seq<Member>, pair: seq<string>, rooms: nat, together: bool)
    ensures SatisfiesAll(x, PairConstraints(members, pair, rooms, together)) <==>
      (ResolvePair(members, pair).Some? ==>
         if together then AlwaysShare(x, ResolvePair(members, pair).value, rooms)
         else NeverShare(x, ResolvePair(members, pair).value, rooms))
  {
    match ResolvePair(members, pair)
    case None =>
    case Some((i, j)) =>
      if together {
        TogetherMeans(x, i, j, rooms);
      } else {
        ApartMeans(x, i, j, rooms);
      }
  }

  lemma KeptApartStep(x: Assignment, members: seq<Member>, pairs: seq<seq<string>>, rooms: nat)
    requires pairs != []
    ensures var n := |pairs| - 1;
      KeptApart(x, members, pairs, rooms) <==>
        KeptApart(x, members, pairs[..n], rooms) &&
        (ResolvePair(members, pairs[n]).Some? ==> NeverShare(x, ResolvePair(members, pairs[n]).value, rooms))
  {
    var n := |pairs| - 1;
    assert forall k :: 0 <= k < n ==> pairs[..n][k] == pairs[k];
  }

  lemma KeptTogetherStep(x: Assignment, members: seq<Member>, pairs: seq<seq<string>>, rooms: nat)
    requires pairs != []
    ensures var n := |pairs| - 1;
      KeptTogether(x, members, pairs, rooms) <==>
        KeptTogether(x, members, pairs[..n], rooms) &&
        (ResolvePair(members, pairs[n]).Some? ==> AlwaysShare(x, ResolvePair(members, pairs[n]).value, rooms))
  {
    var n := |pairs| - 1;
    assert forall k :: 0 <= k < n ==> pairs[..n][k] == pairs[k];
  }

  lemma FixedHonouredStep(x: Assignment, members: seq<Member>, rooms: seq<RoomSpec>, fixed: seq<(string, string)>)
    requires fixed != []
    ensures var n := |fixed| - 1;
      FixedHonoured(x, members, rooms, fixed) <==>
        FixedHonoured(x, members, rooms, fixed[..n]) &&
        (ResolveFixed(members, rooms, fixed[n]).Some? ==> PlacedAt(x, ResolveFixed(members, rooms, fixed[n]).value))
  {
    var n := |fixed| - 1;
    assert forall k :: 0 <= k < n ==> fixed[..n][k] == fixed[k];
  }

  lemma {:induction false} ApartFamilyMeans(x: Assignment, members: seq<Member>, pairs: seq<seq<string>>, rooms: nat)
    ensures SatisfiesAll(x, PairFamily(members, pairs, rooms, false)) <==> KeptApart(x, members, pairs, rooms)
  {
    if pairs != [] {
      var n := |pairs| - 1;
      ApartFamilyMeans(x, members, pairs[..n], rooms);
      SatisfiesAllAppend(x, PairFamily(members, pairs[..n], rooms, false), PairConstraints(members, pairs[n], rooms, false));
      PairConstraintsMean(x, members, pairs[n], rooms, false);
      KeptApartStep(x, members, pairs, rooms);
    }
  }

  lemma {:induction false} TogetherFamilyMeans(x: Assignment, members: seq<Member>, pairs: seq<seq<string>>, rooms: nat)
    ensures SatisfiesAll(x, PairFamily(members, pairs, rooms, true)) <==> KeptTogether(x, members, pairs, rooms)
  {
    if pairs != [] {
      var n := |pairs| - 1;
      TogetherFamilyMeans(x, members, pairs[..n], rooms);
      SatisfiesAllAppend(x, PairFamily(members, pairs[..n], rooms, true), PairConstraints(members, pairs[n], rooms, true));
      PairConstraintsMean(x, members, pairs[n], rooms, true);
      KeptTogetherStep(x, members, pairs, rooms);
    }
  }

  /** What one fixed entry's constraints demand. */
  lemma FixedConstraintsMean(x: Assignment, members: seq<Member>, rooms: seq<RoomSpec>, entry: (string, string))
    ensures SatisfiesAll(x, FixedConstraints(members, rooms, entry)) <==>
      (ResolveFixed(members, rooms, entry).Some? ==> PlacedAt(x, ResolveFixed(members, rooms, entry).value))
  {
    match ResolveFixed(members, rooms, entry)
    case None =>
    case Some((i, r)) =>
      SumOne(x, Term(1, i, r));
      SatisfiesOne(x, Linear([Term(1, i, r)], Equal, 1));
  }

  lemma {:induction false} FixedFamilyMeans(x: Assignment, members: seq<Member>, rooms: seq<RoomSpec>, fixed: seq<(string, string)>)
    ensures SatisfiesAll(x, FixedFamily(members, rooms, fixed)) <==> FixedHonoured(x, members, rooms, fixed)
  {
    if fixed != [] {
      var n := |fixed| - 1;
      FixedFamilyMeans(x, members, rooms, fixed[..n]);
      SatisfiesAllAppend(x, FixedFamily(members, rooms, fixed[..n]), FixedConstraints(members, rooms, fixed[n]));
      FixedConstraintsMean(x, members, rooms, fixed[n]);
      FixedHonouredStep(x, members, rooms, fixed);
    }
  }

  /** An assignment satisfies every posted constraint exactly when it is
      feasible: one room per member, the capacity rule, the empty-bed
      budget, the apart, dislike and together pairs, and the fixed rooms. */
  lemma PostedModelMeansFeasible(members: seq<Member>, cfg: Config, x: Assignment)
    ensures SatisfiesAll(x, PostedModel(members, cfg)) <==> Feasible(members, cfg, x)
  {
    var n, rooms := |members|, |cfg.rooms|;
    var f1 := ExactlyOneFamily(n, rooms);
    var f2 := CapacityFamily(n, cfg);
    var f3 := PairFamily(members, cfg.hard.mustApartPairs, rooms, false);
    var f4 := PairFamily(members, cfg.hard.mutualDislikePairs, rooms, false);
    var f5 := PairFamily(members, cfg.hard.mustTogetherPairs, rooms, true);
    var f6 := FixedFamily(members, cfg.rooms, cfg.hard.fixedRoomAssignments);
    SatisfiesAllAppend(x, f1, f2);
    SatisfiesAllAppend(x, f1 + f2, f3);
    SatisfiesAllAppend(x, f1 + f2 + f3, f4);
    SatisfiesAllAppend(x, f1 + f2 + f3 + f4, f5);
    SatisfiesAllAppend(x, f1 + f2 + f3 + f4 + f5, f6);
    ExactlyOneMeans(x, n, rooms);
    CapacityFamilyMeans(x, n, cfg);
    ApartFamilyMeans(x, members, cfg.hard.mustApartPairs, rooms);
    ApartFamilyMeans(x, members, cfg.hard.mutualDislikePairs, rooms);
    TogetherFamilyMeans(x, members, cfg.hard.mustTogetherPairs, rooms);
    FixedFamilyMeans(x, members, cfg.rooms, cfg.hard.fixedRoomAssignments);
  }

  // -----------------------------------------------------------------------
  // Posting the model
  // -----------------------------------------------------------------------

  /** The solver's model object: the constraints added so far, in order. */
  class CpModel {
    var constraints: seq<Linear>

    constructor()
      ensures constraints == []
    {
      constraints := [];
    }

    /** `model.Add`. */
    method Add(c: Linear)
      modifies this
      ensures constraints == old(constraints) + [c]
    {
      constraints := constraints + [c];
    }
  }

  method PostExactlyOne(model: CpModel, n: nat, rooms: nat)
    modifies model
    ensures model.constraints == old(model.constraints) + ExactlyOneFamily(n, rooms)
  {
    for p := 0 to n
      invariant model.constraints == old(model.constraints) + ExactlyOneFamily(p, rooms)
    {
      model.Add(Linear(RowTerms(p, rooms), Equal, 1));
    }
  }

  method PostCapacity(model: CpModel, n: nat, cfg: Config)
    modifies model
    ensures model.constraints == old(model.constraints) + CapacityFamily(n, cfg)
  {
    var rooms := cfg.rooms;
    var rel := if cfg.allowEmptyBeds then AtMost else Equal;
    for r := 0 to |rooms|
      invariant model.constraints == old(model.constraints) + CapacityBounds(n, rooms, r, rel)
    {
      model.Add(Linear(ColumnTerms(n, r), rel, rooms[r].capacity));
    }
    if cfg.allowEmptyBeds && cfg.emptyBedBudget.Some? {
      model.Add(Linear(AllTerms(n, |rooms|), AtLeast, TotalCapacity(rooms) - cfg.emptyBedBudget.value));
    }
  }

  lemma AppendAssoc(a: seq<Linear>, b: seq<Linear>, c: seq<Linear>)
    ensures (a + b) + c == a + (b + c)
  {
  }

  lemma PairFamilyStep(members: seq<Member>, pairs: seq<seq<string>>, k: nat, rooms: nat, together: bool)
    requires k < |pairs|
    ensures PairFamily(members, pairs[..k + 1], rooms, together)
      == PairFamily(members, pairs[..k], rooms, together) + PairConstraints(members, pairs[k], rooms, together)
  {
    assert pairs[..k + 1][..k] == pairs[..k];
  }

  /** The inner `for r in range(R)` loop for one posted pair. */
  method PostPair(model: CpModel, i: nat, j: nat, rooms: nat, together: bool)
    modifies model
    ensures model.constraints == old(model.constraints)
      + (if together then TogetherConstraints(i, j, rooms) else ApartConstraints(i, j, rooms))
  {
    ghost var posted := if together then TogetherConstraints(i, j, rooms) else ApartConstraints(i, j, rooms);
    for r := 0 to rooms
      invariant model.constraints == old(model.constraints) + posted[..r]
    {
      assert posted[..r + 1] == posted[..r] + [posted[r]];
      if together {
        model.Add(Linear([Term(1, i, r), Term(-1, j, r)], Equal, 0));
      } else {
        model.Add(Linear([Term(1, i, r), Term(1, j, r)], AtMost, 1));
      }
    }
    assert posted[..rooms] == posted;
  }

  /** One entry of a pair list: skipped unless it has two known ids. */
  method PostPairEntry(model: CpModel, members: seq<Member>, pair: seq<string>, rooms: nat, together: bool)
    modifies model
    ensures model.constraints == old(model.constraints) + PairConstraints(members, pair, rooms, together)
  {
    if |pair| == 2 {
      var i := MemberIndex(members, pair[0]);
      var j := MemberIndex(members, pair[1]);
      if i.Some? && j.Some? {
        PostPair(model, i.value, j.value, rooms, together);
      }
    }
  }

  method PostPairs(model: CpModel, members: seq<Member>, pairs: seq<seq<string>>, rooms: nat, together: bool)
    modifies model
    ensures model.constraints == old(model.constraints) + PairFamily(members, pairs, rooms, together)
  {
    ghost var start := model.constraints;
    var k := 0;
    while k < |pairs|
      invariant k <= |pairs|
      invariant model.constraints == start + PairFamily(members, pairs[..k], rooms, together)
    {
      PairFamilyStep(members, pairs, k, rooms, together);
      PostPairEntry(model, members, pairs[k], rooms, together);
      AppendAssoc(start, PairFamily(members, pairs[..k], rooms, together), PairConstraints(members, pairs[k], rooms, together));
      k := k + 1;
    }
    assert pairs[..k] == pairs;
  }

  lemma FixedFamilyStep(members: seq<Member>, rooms: seq<RoomSpec>, fixed: seq<(string, string)>, k: nat)
    requires k < |fixed|
    ensures FixedFamily(members, rooms, fixed[..k + 1])
      == FixedFamily(members, rooms, fixed[..k]) + FixedConstraints(members, rooms, fixed[k])
  {
    assert fixed[..k + 1][..k] == fixed[..k];
  }

  /** One fixed assignment: posted only when both ids are known. */
  method PostFixedEntry(model: CpModel, members: seq<Member>, rooms: seq<RoomSpec>, entry: (string, string))
    modifies model
    ensures model.constraints == old(model.constraints) + FixedConstraints(members, rooms, entry)
  {
    var (mid, rid) := entry;
    var i := MemberIndex(members, mid);
    var r := RoomIndex(rooms, rid);
    if i.Some? && r.Some? {
      model.Add(Linear([Term(1, i.value, r.value)], Equal, 1));
    }
  }

  method PostFixed(model: CpModel, members: seq<Member>, rooms: seq<RoomSpec>, fixed: seq<(string, string)>)
    modifies model
    ensures model.constraints == old(model.constraints) + FixedFamily(members, rooms, fixed)
  {
    ghost var start := model.constraints;
    for k := 0 to |fixed|
      invariant model.constraints == start + FixedFamily(members, rooms, fixed[..k])
    {
      FixedFamilyStep(members, rooms, fixed, k);
      PostFixedEntry(model, members, rooms, fixed[k]);
      AppendAssoc(start, FixedFamily(members, rooms, fixed[..k]), FixedConstraints(members, rooms, fixed[k]));
    }
    assert fixed[..|fixed|] == fixed;
  }

  /** The constraint-posting part of `run_optimization`: the constraints,
      family by family, in the order posted. */
  method PostConstraints(model: CpModel, members: seq<Member>, cfg: Config)
    modifies model
    ensures model.constraints == old(model.constraints) + PostedModel(members, cfg)
  {
    var n, rooms := |members|, |cfg.rooms|;
    ghost var c0 := model.constraints;
    PostExactlyOne(model, n, rooms);
    ghost var c1 := model.constraints;
    PostCapacity(model, n, cfg);
    ghost var c2 := model.constraints;
    PostPairs(model, members, cfg.hard.mustApartPairs, rooms, false);
    ghost var c3 := model.constraints;
    PostPairs(model, members, cfg.hard.mutualDislikePairs, rooms, false);
    ghost var c4 := model.constraints;
    PostPairs(model, members, cfg.hard.mustTogetherPairs, rooms, true);
    ghost var c5 := model.constraints;
    PostFixed(model, members, cfg.rooms, cfg.hard.fixedRoomAssignments);
    ghost var f1 := ExactlyOneFamily(n, rooms);
    ghost var f2 := CapacityFamily(n, cfg);
    ghost var f3 := PairFamily(members, cfg.hard.mustApartPairs, rooms, false);
    ghost var f4 := PairFamily(members, cfg.hard.mutualDislikePairs, rooms, false);
    ghost var f5 := PairFamily(members, cfg.hard.mustTogetherPairs, rooms, true);
    ghost var f6 := FixedFamily(members, cfg.rooms, cfg.hard.fixedRoomAssignments);
    AppendAssoc(c0, f1, f2);
    AppendAssoc(c0, f1 + f2, f3);
    AppendAssoc(c0, f1 + f2 + f3, f4);
    AppendAssoc(c0, f1 + f2 + f3 + f4, f5);
    AppendAssoc(c0, f1 + f2 + f3 + f4 + f5, f6);
  }

  // -----------------------------------------------------------------------
  // Assembling the answer
  // -----------------------------------------------------------------------

  /** An output room: the configuration's room with its member records. */
  datatype AssignedRoom = AssignedRoom(id: string, caption: string, capacity: int, members: seq<Member>)

  /** The result record, without the objective value and the run time. */
  datatype Solution = Solution(rooms: seq<AssignedRoom>, hardViolations: seq<string>)

  /** The members placed in room `r`, in member order. */
  function MembersIn<T>(members: seq<T>, x: Assignment, r: nat): seq<T> {
    if members == [] then []
    else
      var n := |members| - 1;
      MembersIn(members[..n], x, r) + (if x(n, r) then [members[n]] else [])
  }

  /** Room `r` of the output after the first members have been placed. */
  function Slot(members: seq<Member>, rooms: seq<RoomSpec>, x: Assignment, r: nat): AssignedRoom
    requires r < |rooms|
  {
    AssignedRoom(rooms[r].id, rooms[r].caption, rooms[r].capacity, MembersIn(members, x, r))
  }

  /** The output rooms: the configuration's rooms, in order, each listing
      the members the answer places there. */
  function Assembled(members: seq<Member>, rooms: seq<RoomSpec>, x: Assignment): seq<AssignedRoom> {
    seq(|rooms|, r requires 0 <= r < |rooms| => Slot(members, rooms, x, r))
  }

  /** `hardViolations`: one message per over-full room, in room order. */
  function OverCapacityReport(rooms: seq<AssignedRoom>): seq<string> {
    if rooms == [] then []
    else
      var last := rooms[|rooms| - 1];
      OverCapacityReport(rooms[..|rooms| - 1])
      + (if |last.members| > last.capacity then [OverCapacityMessage(last.caption)] else [])
  }

  /** The assembly of the answer: the empty output rooms, then every
      `x[p, r]` read back, member by member. */
  method PlaceMembers(members: seq<Member>, rooms: seq<RoomSpec>, x: Assignment) returns (filled: seq<AssignedRoom>)
    ensures filled == Assembled(members, rooms, x)
  {
    filled := seq(|rooms|, r requires 0 <= r < |rooms| => AssignedRoom(rooms[r].id, rooms[r].caption, rooms[r].capacity, []));
    for p := 0 to |members|
      invariant |filled| == |rooms|
      invariant forall r :: 0 <= r < |rooms| ==> filled[r] == Slot(members[..p], rooms, x, r)
    {
      assert members[..p + 1][..p] == members[..p];
      for r := 0 to |rooms|
        invariant |filled| == |rooms|
        invariant forall q :: 0 <= q < r ==> filled[q] == Slot(members[..p + 1], rooms, x, q)
        invariant forall q :: r <= q < |rooms| ==> filled[q] == Slot(members[..p], rooms, x, q)
      {
        if x(p, r) {
          filled := filled[r := filled[r].(members := filled[r].members + [members[p]])];
        }
      }
    }
    assert members[..|members|] == members;
  }

  /** The capacity check run after assembly. */
  method ReportOverCapacity(filled: seq<AssignedRoom>) returns (violations: seq<string>)
    ensures violations == OverCapacityReport(filled)
  {
    violations := [];
    for k := 0 to |filled|
      invariant violations == OverCapacityReport(filled[..k])
    {
      assert filled[..k + 1][..k] == filled[..k];
      if |filled[k].members| > filled[k].capacity {
        violations := violations + [OverCapacityMessage(filled[k].caption)];
      }
    }
    assert filled[..|filled|] == filled;
  }

  /** `run_optimization` with the solver given as `solve`: post the model,
      ask the solver, read every `x[p, r]` back into the rooms, and report
      over-full rooms. */
  method RunOptimization(members: seq<Member>, cfg: Config, solve: seq<Linear> -> Assignment)
    returns (solution: Solution)
    ensures solution.rooms == Assembled(members, cfg.rooms, solve(PostedModel(members, cfg)))
    ensures solution.hardViolations == OverCapacityReport(solution.rooms)
  {
    var model := new CpModel();
    PostConstraints(model, members, cfg);
    assert model.constraints == PostedModel(members, cfg);
    var x := solve(model.constraints);
    var filled := PlaceMembers(members, cfg.rooms, x);
    var violations := ReportOverCapacity(filled);
    solution := Solution(filled, violations);
  }

  // -----------------------------------------------------------------------
  // What a feasible answer looks like in the output
  // -----------------------------------------------------------------------

  /** All member lists of the output, room after room. */
  function Flatten(out: seq<AssignedRoom>): seq<Member> {
    if out == [] then [] else Flatten(out[..|out| - 1]) + out[|out| - 1].members
  }

  /** Free beds over all output rooms. */
  function EmptyBeds(out: seq<AssignedRoom>): int {
    if out == [] then 0 else EmptyBeds(out[..|out| - 1]) + (out[|out| - 1].capacity - |out[|out| - 1].members|)
  }

  /** A member with the id `id` is listed in `ms`. */
  predicate HoldsId(ms: seq<Member>, id: string) {
    exists m :: m in ms && m.id == id
  }

  /** How many entries of `ms` equal `m`. */
  function Occurrences<T(==)>(ms: seq<T>, m: T): nat {
    if ms == [] then 0 else Occurrences(ms[..|ms| - 1], m) + (if ms[|ms| - 1] == m then 1 else 0)
  }

  /** The count is the multiplicity of `m` in the multiset of `ms`. */
  lemma {:induction false} OccurrencesMultiset<T>(ms: seq<T>, m: T)
    ensures Occurrences(ms, m) == multiset(ms)[m]
  {
    if ms != [] {
      var n := |ms| - 1;
      assert ms == ms[..n] + [ms[n]];
      OccurrencesMultiset(ms[..n], m);
    }
  }

  lemma {:induction false} OccurrencesAppend<T>(a: seq<T>, b: seq<T>, m: T)
    ensures Occurrences(a + b, m) == Occurrences(a, m) + Occurrences(b, m)
  {
    if b == [] {
      assert a + b == a;
    } else {
      OccurrencesAppend(a, b[..|b| - 1], m);
      assert (a + b)[..|a + b| - 1] == a + b[..|b| - 1];
    }
  }

  /** How often `m` is listed over the first `k` rooms. */
  function PlacedCount<T(==)>(members: seq<T>, x: Assignment, m: T, k: nat): nat {
    if k == 0 then 0 else PlacedCount(members, x, m, k - 1) + Occurrences(MembersIn(members, x, k - 1), m)
  }

  /** Room `r` lists the last member of the roster once if the answer
      places it there, after the rest of the roster. */
  lemma LastListing<T>(members: seq<T>, x: Assignment, m: T, r: nat)
    requires members != []
    ensures var n := |members| - 1;
      Occurrences(MembersIn(members, x, r), m)
        == Occurrences(MembersIn(members[..n], x, r), m) + (if members[n] == m then Bit(x, n, r) else 0)
  {
    var n := |members| - 1;
    var added := if x(n, r) then [members[n]] else [];
    OccurrencesAppend(MembersIn(members[..n], x, r), added, m);
    if x(n, r) {
      assert Occurrences(added, m) == Occurrences(added[..0], m) + (if members[n] == m then 1 else 0);
    }
  }

  /** The last member of the roster contributes one listing per room it is
      placed in. */
  lemma {:induction false} PlacedCountStep<T>(members: seq<T>, x: Assignment, m: T, k: nat)
    requires members != []
    ensures var n := |members| - 1;
      PlacedCount(members, x, m, k)
        == PlacedCount(members[..n], x, m, k) + (if members[n] == m then RowCount(x, n, k) else 0)
  {
    if k > 0 {
      var n := |members| - 1;
      PlacedCountStep(members, x, m, k - 1);
      LastListing(members, x, m, k - 1);
      assert PlacedCount(members, x, m, k) == PlacedCount(members, x, m, k - 1) + Occurrences(MembersIn(members, x, k - 1), m);
      assert PlacedCount(members[..n], x, m, k) == PlacedCount(members[..n], x, m, k - 1) + Occurrences(MembersIn(members[..n], x, k - 1), m);
      assert RowCount(x, n, k) == RowCount(x, n, k - 1) + Bit(x, n, k - 1);
      if members[n] == m {
        assert PlacedCount(members, x, m, k) == PlacedCount(members[..n], x, m, k) + RowCount(x, n, k);
      } else {
        assert PlacedCount(members, x, m, k) == PlacedCount(members[..n], x, m, k);
      }
    }
  }

  lemma {:induction false} PlacedCountEmpty<T>(x: Assignment, m: T, k: nat)
    ensures PlacedCount<T>([], x, m, k) == 0
  {
    if k > 0 {
      PlacedCountEmpty(x, m, k - 1);
    }
  }

  /** A last member placed in exactly one room adds as many listings as it
      adds entries to the roster. */
  lemma PlacedCountLast<T>(members: seq<T>, x: Assignment, m: T, rooms: nat)
    requires members != [] && RowCount(x, |members| - 1, rooms) == 1
    ensures var n := |members| - 1;
      PlacedCount(members, x, m, rooms) - Occurrences(members, m)
        == PlacedCount(members[..n], x, m, rooms) - Occurrences(members[..n], m)
  {
    var n := |members| - 1;
    PlacedCountStep(members, x, m, rooms);
    assert Occurrences(members, m) == Occurrences(members[..n], m) + if members[n] == m then 1 else 0;
  }

  lemma {:induction false} PlacedCountAll<T>(members: seq<T>, x: Assignment, m: T, rooms: nat)
    requires OnePerMember(x, |members|, rooms)
    ensures PlacedCount(members, x, m, rooms) == Occurrences(members, m)
  {
    if members != [] {
      var n := |members| - 1;
      assert OnePerMember(x, n, rooms);
      PlacedCountAll(members[..n], x, m, rooms);
      PlacedCountLast(members, x, m, rooms);
    } else {
      PlacedCountEmpty(x, m, rooms);
    }
  }

  lemma {:induction false} FlattenAssembled(members: seq<Member>, rooms: seq<RoomSpec>, x: Assignment, m: Member, k: nat)
    requires k <= |rooms|
    ensures Occurrences(Flatten(Assembled(members, rooms, x)[..k]), m) == PlacedCount(members, x, m, k)
  {
    if k > 0 {
      var out := Assembled(members, rooms, x);
      FlattenAssembled(members, rooms, x, m, k - 1);
      assert out[..k][..k - 1] == out[..k - 1];
      OccurrencesAppend(Flatten(out[..k - 1]), out[k - 1].members, m);
    }
  }

  /** With every member in exactly one room, the output lists every member
      exactly once over all rooms: the member lists together are a
      permutation of the roster. */
  lemma AssemblyListsEachMemberOnce(members: seq<Member>, rooms: seq<RoomSpec>, x: Assignment)
    requires OnePerMember(x, |members|, |rooms|)
    ensures multiset(Flatten(Assembled(members, rooms, x))) == multiset(members)
    ensures |Flatten(Assembled(members, rooms, x))| == |members|
  {
    var out := Assembled(members, rooms, x);
    assert out[..|rooms|] == out;
    forall m
      ensures multiset(Flatten(out))[m] == multiset(members)[m]
    {
      FlattenAssembled(members, rooms, x, m, |rooms|);
      PlacedCountAll(members, x, m, |rooms|);
      OccurrencesMultiset(Flatten(out), m);
      OccurrencesMultiset(members, m);
    }
    assert |multiset(Flatten(out))| == |Flatten(out)|;
  }

  /** Room `r` lists as many members as the answer places there. */
  lemma {:induction false} MembersInCount<T>(members: seq<T>, x: Assignment, r: nat)
    ensures |MembersIn(members, x, r)| == Occupancy(x, |members|, r)
  {
    if members != [] {
      MembersInCount(members[..|members| - 1], x, r);
    }
  }

  /** Every listed entry is a roster member the answer places in that room. */
  lemma {:induction false} MembersInFrom<T>(members: seq<T>, x: Assignment, r: nat, a: T)
    requires a in MembersIn(members, x, r)
    ensures exists q :: 0 <= q < |members| && members[q] == a && x(q, r)
  {
    var n := |members| - 1;
    if a in MembersIn(members[..n], x, r) {
      MembersInFrom(members[..n], x, r, a);
      var q :| 0 <= q < n && members[..n][q] == a && x(q, r);
      assert members[q] == a;
    } else {
      assert members[n] == a && x(n, r);
    }
  }

  /** Every member the answer places in a room is listed there. */
  lemma {:induction false} MembersInHas<T>(members: seq<T>, x: Assignment, r: nat, p: nat)
    requires p < |members| && x(p, r)
    ensures members[p] in MembersIn(members, x, r)
  {
    var n := |members| - 1;
    if p < n {
      MembersInHas(members[..n], x, r, p);
    }
  }

  /** With unique ids, a room lists a member's id exactly when the answer
      places that member there. */
  lemma HoldsIdIff(members: seq<Member>, x: Assignment, r: nat, p: nat)
    requires UniqueIds(members) && p < |members|
    ensures HoldsId(MembersIn(members, x, r), members[p].id) <==> x(p, r)
  {
    if x(p, r) {
      MembersInHas(members, x, r, p);
    }
    if HoldsId(MembersIn(members, x, r), members[p].id) {
      var a :| a in MembersIn(members, x, r) && a.id == members[p].id;
      MembersInFrom(members, x, r, a);
      var q :| 0 <= q < |members| && members[q] == a && x(q, r);
      assert q == p;
    }
  }

  /** The output lists the configured rooms in order with their ids, labels
      and capacities; room `r` lists a roster member exactly when the answer
      places that member there, and as many entries as the answer places. */
  lemma AssembledRooms(members: seq<Member>, rooms: seq<RoomSpec>, x: Assignment)
    ensures var out := Assembled(members, rooms, x);
            && |out| == |rooms|
            && (forall r :: 0 <= r < |rooms| ==>
                  out[r].id == rooms[r].id && out[r].caption == rooms[r].caption && out[r].capacity == rooms[r].capacity)
            && (forall r :: 0 <= r < |rooms| ==> |out[r].members| == Occupancy(x, |members|, r))
            && (forall r, p :: 0 <= r < |rooms| && 0 <= p < |members| && x(p, r) ==> members[p] in out[r].members)
            && (forall r, a :: 0 <= r < |rooms| && a in out[r].members ==>
                  exists q :: 0 <= q < |members| && members[q] == a && x(q, r))
  {
    var out := Assembled(members, rooms, x);
    forall r | 0 <= r < |rooms|
      ensures |out[r].members| == Occupancy(x, |members|, r)
    {
      MembersInCount(members, x, r);
    }
    forall r, p | 0 <= r < |rooms| && 0 <= p < |members| && x(p, r)
      ensures members[p] in out[r].members
    {
      MembersInHas(members, x, r, p);
    }
    forall r, a | 0 <= r < |rooms| && a in out[r].members
      ensures exists q :: 0 <= q < |members| && members[q] == a && x(q, r)
    {
      MembersInFrom(members, x, r, a);
    }
  }

  /** The report is empty exactly when no room is over capacity, and it has
      at most one entry per room. */
  lemma {:induction false} ReportMeans(out: seq<AssignedRoom>)
    ensures OverCapacityReport(out) == [] <==> forall r :: 0 <= r < |out| ==> |out[r].members| <= out[r].capacity
    ensures |OverCapacityReport(out)| <= |out|
  {
    if out != [] {
      var n := |out| - 1;
      ReportMeans(out[..n]);
      assert forall r :: 0 <= r < n ==> out[..n][r] == out[r];
    }
  }

  /** A feasible answer fills no room beyond its capacity, and every room
      exactly when empty beds are not allowed; so nothing is reported. */
  lemma FeasibleFitsRooms(members: seq<Member>, cfg: Config, x: Assignment)
    requires Feasible(members, cfg, x)
    ensures var out := Assembled(members, cfg.rooms, x);
            && (forall r :: 0 <= r < |out| ==> |out[r].members| <= out[r].capacity)
            && (!cfg.allowEmptyBeds ==> forall r :: 0 <= r < |out| ==> |out[r].members| == out[r].capacity)
            && OverCapacityReport(out) == []
  {
    var out := Assembled(members, cfg.rooms, x);
    forall r | 0 <= r < |out|
      ensures |out[r].members| == Occupancy(x, |members|, r)
    {
      MembersInCount(members, x, r);
    }
    ReportMeans(out);
  }

  lemma {:induction false} EmptyBedsCount(out: seq<AssignedRoom>, rooms: seq<RoomSpec>)
    requires |out| == |rooms| && forall r :: 0 <= r < |out| ==> out[r].capacity == rooms[r].capacity
    ensures EmptyBeds(out) == TotalCapacity(rooms) - |Flatten(out)|
  {
    if out != [] {
      var n := |out| - 1;
      EmptyBedsCount(out[..n], rooms[..n]);
    }
  }

  /** With empty beds allowed and a budget given, a feasible answer leaves
      at most `emptyBedBudget` beds free. */
  lemma FeasibleWithinBudget(members: seq<Member>, cfg: Config, x: Assignment)
    requires Feasible(members, cfg, x)
    requires cfg.allowEmptyBeds && cfg.emptyBedBudget.Some?
    ensures EmptyBeds(Assembled(members, cfg.rooms, x)) <= cfg.emptyBedBudget.value
  {
    var out := Assembled(members, cfg.rooms, x);
    EmptyBedsCount(out, cfg.rooms);
    AssemblyListsEachMemberOnce(members, cfg.rooms, x);
    AssignedCountAllPlaced(x, |members|, |cfg.rooms|);
  }

  /** In a feasible answer over a roster with unique ids, no room lists both
      ids of a posted must-apart or mutual-dislike entry, both ids of a
      posted must-together entry share every room, and a posted fixed
      assignment puts its member in that room. */
  lemma FeasibleHonoursHardConstraints(members: seq<Member>, cfg: Config, x: Assignment, r: nat)
    requires Feasible(members, cfg, x) && UniqueIds(members)
    requires r < |cfg.rooms|
    ensures var held := Assembled(members, cfg.rooms, x)[r].members;
            && (forall pair :: pair in cfg.hard.mustApartPairs + cfg.hard.mutualDislikePairs && ResolvePair(members, pair).Some? ==>
                  !(HoldsId(held, pair[0]) && HoldsId(held, pair[1])))
            && (forall pair :: pair in cfg.hard.mustTogetherPairs && ResolvePair(members, pair).Some? ==>
                  (HoldsId(held, pair[0]) <==> HoldsId(held, pair[1])))
            && (forall entry :: entry in cfg.hard.fixedRoomAssignments && ResolveFixed(members, cfg.rooms, entry).Some? && ResolveFixed(members, cfg.rooms, entry).value.1 == r ==>
                  HoldsId(held, entry.0))
  {
    var held := Assembled(members, cfg.rooms, x)[r].members;
    assert held == MembersIn(members, x, r);
    var rooms := |cfg.rooms|;
    forall pair | pair in cfg.hard.mustApartPairs + cfg.hard.mutualDislikePairs && ResolvePair(members, pair).Some?
      ensures !(HoldsId(held, pair[0]) && HoldsId(held, pair[1]))
    {
      var (i, j) := ResolvePair(members, pair).value;
      var k :| 0 <= k < |cfg.hard.mustApartPairs + cfg.hard.mutualDislikePairs| && (cfg.hard.mustApartPairs + cfg.hard.mutualDislikePairs)[k] == pair;
      if k < |cfg.hard.mustApartPairs| {
        assert cfg.hard.mustApartPairs[k] == pair;
      } else {
        assert cfg.hard.mutualDislikePairs[k - |cfg.hard.mustApartPairs|] == pair;
      }
      assert NeverShare(x, (i, j), rooms);
      HoldsIdIff(members, x, r, i);
      HoldsIdIff(members, x, r, j);
    }
    forall pair | pair in cfg.hard.mustTogetherPairs && ResolvePair(members, pair).Some?
      ensures HoldsId(held, pair[0]) <==> HoldsId(held, pair[1])
    {
      var (i, j) := ResolvePair(members, pair).value;
      var k :| 0 <= k < |cfg.hard.mustTogetherPairs| && cfg.hard.mustTogetherPairs[k] == pair;
      assert AlwaysShare(x, (i, j), rooms);
      HoldsIdIff(members, x, r, i);
      HoldsIdIff(members, x, r, j);
    }
    forall entry | entry in cfg.hard.fixedRoomAssignments && ResolveFixed(members, cfg.rooms, entry).Some? && ResolveFixed(members, cfg.rooms, entry).value.1 == r
      ensures HoldsId(held, entry.0)
    {
      var i := ResolveFixed(members, cfg.rooms, entry).value.0;
      var k :| 0 <= k < |cfg.hard.fixedRoomAssignments| && cfg.hard.fixedRoomAssignments[k] == entry;
      assert PlacedAt(x, (i, r));
      HoldsIdIff(members, x, r, i);
    }
  }

  // -----------------------------------------------------------------------
  // Objective helpers
  // -----------------------------------------------------------------------

  /** `pairwiseW.get(a, {}).get(b, 0)`. */
  function Stored(w: map<string, map<string, int>>, a: string, b: string): int {
    if a in w && b in w[a] then w[a][b] else 0
  }

  /** `w(i, j)`: the pair's stored scores in both directions, in tenths. */
  function PairWeight(members: seq<Member>, w: map<string, map<string, int>>, i: nat, j: nat): int
    requires i < |members| && j < |members|
  {
    Stored(w, members[i].id, members[j].id) + Stored(w, members[j].id, members[i].id)
  }

  /** `w` does not depend on the order of the pair, is 0 when neither
      direction is stored, and stays within twice the bound of the stored
      scores. */
  lemma PairWeightProperties(members: seq<Member>, w: map<string, map<string, int>>, i: nat, j: nat, bound: nat)
    requires i < |members| && j < |members|
    ensures PairWeight(members, w, i, j) == PairWeight(members, w, j, i)
    ensures ((members[i].id !in w || members[j].id !in w[members[i].id]) &&
             (members[j].id !in w || members[i].id !in w[members[j].id])) ==> PairWeight(members, w, i, j) == 0
    ensures ScoresWithin(w, bound) ==> -2 * bound <= PairWeight(members, w, i, j) <= 2 * bound
  {
  }

  /** The room-size bonus `max(0, 5 - rank)` of the objective. */
  function RankBonus(rank: int): nat {
    Max(0, 5 - rank)
  }

  /** The bonus is 0 from rank 5 on, `5 - rank` below it, and never grows
      as the rank worsens. */
  lemma RankBonusProperties(rank: int, worse: int)
    requires rank <= worse
    ensures RankBonus(rank) == 0 <==> rank >= 5
    ensures rank < 5 ==> RankBonus(rank) == 5 - rank
    ensures RankBonus(worse) <= RankBonus(rank)
  {
  }

  /** The rank a member gave rooms of this capacity, looked up under
      `str(cap)` in `rankedRoomSizes`, turned into a bonus. */
  function MemberRankBonus(m: Member, capacity: int): Option<nat> {
    match Lookup(m.rankedRoomSizes, IntToString(capacity))
    case None => None
    case Some(rank) => Some(RankBonus(rank))
  }

  /** Ranks are recorded under "2", "3" and "4" only, so a member can earn
      a rank bonus for rooms of those capacities and no other. */
  lemma RankBonusCapacities(m: Member, capacity: int)
    requires m.rankedRoomSizes.Keys <= {"2", "3", "4"}
    requires MemberRankBonus(m, capacity).Some?
    ensures capacity == 2 || capacity == 3 || capacity == 4
  {
    var key := IntToString(capacity);
    ParseIntToString(capacity);
    ParseIntToString(2);
    ParseIntToString(3);
    ParseIntToString(4);
    assert IntToString(2) == "2" && IntToString(3) == "3" && IntToString(4) == "4";
  }
}
