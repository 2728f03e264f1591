/** The pairwise compatibility table the optimizer reads as `pairwiseW`:
    for every ordered pair of distinct roster positions a score built from
    explicit roommate requests, agreement on three lifestyle attributes and
    closeness of messiness, clamped to a fixed range. Scores are integers in
    tenths (3.0 is 30). */
module PairwiseWeights {
  import opened Common
  import opened Roster
  import opened Configuration

  /** The heuristic constants, in tenths. */
  const LikeScore: int := 30
  const DislikeScore: int := -30
  const AttrMatch: int := 5
  const AttrClash: int := -5
  const MessinessNear: int := 3
  const MessinessFar: int := -3
  /** Scores are clamped to `[-ScoreBound, ScoreBound]`. */
  const ScoreBound: nat := 30

  /** Python truthiness of an attribute value: present and non-empty. */
  predicate Truthy(v: Option<string>) {
    v.Some? && v.value != ""
  }

  /** The explicit-request part of the score of `a` towards `b`. */
  function RequestTerm(a: Member, b: Member): int {
    (if b.name in a.requestedWith then LikeScore else 0)
    + (if b.name in a.avoidWith then DislikeScore else 0)
  }

  /** The attributes compared, in the order the loop visits them: sleep,
      temperature, room use. */
  function Compared(attr: Attributes): seq<Option<string>> {
    [attr.sleep, attr.temperature, attr.roomUse]
  }

  /** One attribute: a match or a clash counts only when both sides are truthy. */
  function AttrTerm(av: Option<string>, bv: Option<string>): int {
    if Truthy(av) && Truthy(bv) then (if av == bv then AttrMatch else AttrClash) else 0
  }

  /** The attribute part after the first `k` compared attributes. */
  function AttrSum(a: Attributes, b: Attributes, k: nat): int
    requires k <= 3
  {
    if k == 0 then 0 else AttrSum(a, b, k - 1) + AttrTerm(Compared(a)[k - 1], Compared(b)[k - 1])
  }

  /** Messiness closeness: near (at most 1 apart) and far (at least 3 apart)
      when both sides hold a number. */
  function MessinessTerm(am: Option<int>, bm: Option<int>): int {
    if am.Some? && bm.Some? then
      var diff := if am.value < bm.value then bm.value - am.value else am.value - bm.value;
      if diff <= 1 then MessinessNear else if diff >= 3 then MessinessFar else 0
    else 0
  }

  /** The score before clamping. */
  function RawScore(a: Member, b: Member): int {
    RequestTerm(a, b) + AttrSum(a.attributes, b.attributes, 3) + MessinessTerm(a.attributes.messiness, b.attributes.messiness)
  }

  /** Clamping to the score range: values inside are kept, values outside
      go to the nearer end. */
  function Clamp(score: int): (c: int)
    ensures -(ScoreBound as int) <= c <= ScoreBound
    ensures -(ScoreBound as int) <= score <= ScoreBound ==> c == score
    ensures score > ScoreBound ==> c == ScoreBound
    ensures score < -(ScoreBound as int) ==> c == -(ScoreBound as int)
  {
    if score > ScoreBound then ScoreBound
    else if score < -(ScoreBound as int) then -(ScoreBound as int)
    else score
  }

  /** The score of `a` towards `b`. */
  function PairScore(a: Member, b: Member): (s: int)
    ensures -(ScoreBound as int) <= s <= ScoreBound
  {
    Clamp(RawScore(a, b))
  }

  /** The ids of the roster. */
  function Ids(members: seq<Member>): set<string> {
    set p | 0 <= p < |members| :: members[p].id
  }

  /** Positions `p` and `q` are an ordered pair the table is built from. */
  predicate Distinct(members: seq<Member>, p: int, q: int) {
    0 <= p < |members| && 0 <= q < |members| && p != q
  }

  /** The pair `(p, q)` carries the ids `a` and `b`. */
  predicate PairOf(members: seq<Member>, p: int, q: int, a: string, b: string) {
    Distinct(members, p, q) && members[p].id == a && members[q].id == b
  }

  /** The pair `(p, q)` comes before `(i, j)` in the order the permutations
      are visited (row by row). */
  predicate Before(p: int, q: int, i: int, j: int) {
    p < i || (p == i && q < j)
  }

  /** Every ordered pair visited before `(i, j)` has an entry. */
  ghost predicate Covered(members: seq<Member>, w: map<string, map<string, int>>, i: int, j: int) {
    forall p, q :: Distinct(members, p, q) && Before(p, q, i, j) ==>
      members[p].id in w && members[q].id in w[members[p].id]
  }

  /** `(p, q)` is the last pair visited before `(i, j)` that carries the ids
      `a` and `b`. */
  ghost predicate LastPair(members: seq<Member>, p: int, q: int, a: string, b: string, i: int, j: int) {
    PairOf(members, p, q, a, b) && Before(p, q, i, j)
    && forall p', q' :: PairOf(members, p', q', a, b) && Before(p', q', i, j) ==> !Before(p, q, p', q')
  }

  /** Every entry holds the score of the last pair visited before `(i, j)`
      that carries its two ids. */
  ghost predicate Sourced(members: seq<Member>, w: map<string, map<string, int>>, i: int, j: int) {
    forall a, b :: a in w && b in w[a] ==>
      exists p, q :: LastPair(members, p, q, a, b, i, j) && w[a][b] == PairScore(members[p], members[q])
  }

  /** With unique ids, every pair visited before `(i, j)` holds its own score. */
  ghost predicate Exact(members: seq<Member>, w: map<string, map<string, int>>, i: int, j: int) {
    UniqueIds(members) ==>
      forall p, q :: Distinct(members, p, q) && Before(p, q, i, j) ==>
        members[p].id in w && members[q].id in w[members[p].id]
        && w[members[p].id][members[q].id] == PairScore(members[p], members[q])
  }

  /** The table after the pairs before `(i, j)` have been written. */
  ghost predicate Table(members: seq<Member>, w: map<string, map<string, int>>, i: int, j: int) {
    w.Keys == Ids(members) && Covered(members, w, i, j) && Sourced(members, w, i, j) && Exact(members, w, i, j)
  }

  /** The entry of `(a, b)` set to `score`, as `w[i][j] = score` does on the
      row dictionary. */
  function Write(w: map<string, map<string, int>>, a: string, b: string, score: int): map<string, map<string, int>>
    requires a in w
  {
    w[a := w[a][b := score]]
  }

  lemma WriteCovered(members: seq<Member>, w: map<string, map<string, int>>, i: nat, j: nat)
    requires Distinct(members, i, j) && members[i].id in w && Covered(members, w, i, j)
    ensures forall score :: Covered(members, Write(w, members[i].id, members[j].id, score), i, j + 1)
  {
  }

  /** The pair just visited is the last one with its ids. */
  lemma LastPairNew(members: seq<Member>, i: nat, j: nat)
    requires Distinct(members, i, j)
    ensures LastPair(members, i, j, members[i].id, members[j].id, i, j + 1)
  {
    forall p', q' | PairOf(members, p', q', members[i].id, members[j].id) && Before(p', q', i, j + 1)
      ensures !Before(i, j, p', q')
    {
    }
  }

  /** Visiting `(i, j)` leaves the last pair of other ids as it was. */
  lemma LastPairKept(members: seq<Member>, p: int, q: int, a: string, b: string, i: nat, j: nat)
    requires LastPair(members, p, q, a, b, i, j)
    requires !PairOf(members, i, j, a, b)
    ensures LastPair(members, p, q, a, b, i, j + 1)
  {
    forall p', q' | PairOf(members, p', q', a, b) && Before(p', q', i, j + 1)
      ensures !Before(p, q, p', q')
    {
      assert Before(p', q', i, j);
    }
  }

  /** The end of a row is the start of the next one. */
  lemma LastPairRow(members: seq<Member>, p: int, q: int, a: string, b: string, i: nat)
    requires LastPair(members, p, q, a, b, i, |members|)
    ensures LastPair(members, p, q, a, b, i + 1, 0)
  {
    forall p', q' | PairOf(members, p', q', a, b) && Before(p', q', i + 1, 0)
      ensures !Before(p, q, p', q')
    {
      assert Before(p', q', i, |members|);
    }
  }

  lemma WriteSourced(members: seq<Member>, w: map<string, map<string, int>>, i: nat, j: nat)
    requires Distinct(members, i, j) && members[i].id in w && Sourced(members, w, i, j)
    ensures Sourced(members, Write(w, members[i].id, members[j].id, PairScore(members[i], members[j])), i, j + 1)
  {
    var a0, b0 := members[i].id, members[j].id;
    var w' := Write(w, a0, b0, PairScore(members[i], members[j]));
    forall a, b | a in w' && b in w'[a]
      ensures exists p, q :: LastPair(members, p, q, a, b, i, j + 1) && w'[a][b] == PairScore(members[p], members[q])
    {
      if a == a0 && b == b0 {
        LastPairNew(members, i, j);
      } else {
        var p, q :| LastPair(members, p, q, a, b, i, j) && w[a][b] == PairScore(members[p], members[q]);
        LastPairKept(members, p, q, a, b, i, j);
      }
    }
  }

  lemma WriteExact(members: seq<Member>, w: map<string, map<string, int>>, i: nat, j: nat)
    requires Distinct(members, i, j) && members[i].id in w && Exact(members, w, i, j)
    ensures Exact(members, Write(w, members[i].id, members[j].id, PairScore(members[i], members[j])), i, j + 1)
  {
    var w' := Write(w, members[i].id, members[j].id, PairScore(members[i], members[j]));
    if UniqueIds(members) {
      forall p, q | Distinct(members, p, q) && Before(p, q, i, j + 1)
        ensures members[p].id in w' && members[q].id in w'[members[p].id]
        ensures w'[members[p].id][members[q].id] == PairScore(members[p], members[q])
      {
        if p != i || q != j {
          assert Before(p, q, i, j);
          assert members[p].id != members[i].id || members[q].id != members[j].id;
        }
      }
    }
  }

  /** Visiting a pair of distinct positions keeps the table's invariant. */
  lemma WriteStep(members: seq<Member>, w: map<string, map<string, int>>, i: nat, j: nat)
    requires Distinct(members, i, j) && Table(members, w, i, j)
    ensures Table(members, Write(w, members[i].id, members[j].id, PairScore(members[i], members[j])), i, j + 1)
  {
    assert members[i].id in Ids(members);
    WriteCovered(members, w, i, j);
    WriteSourced(members, w, i, j);
    WriteExact(members, w, i, j);
  }

  /** Skipping the diagonal pair keeps it too. */
  lemma SkipStep(members: seq<Member>, w: map<string, map<string, int>>, i: nat)
    requires Table(members, w, i, i)
    ensures Table(members, w, i, i + 1)
  {
    forall a, b | a in w && b in w[a]
      ensures exists p, q :: LastPair(members, p, q, a, b, i, i + 1) && w[a][b] == PairScore(members[p], members[q])
    {
      var p, q :| LastPair(members, p, q, a, b, i, i) && w[a][b] == PairScore(members[p], members[q]);
      LastPairKept(members, p, q, a, b, i, i);
    }
  }

  /** The end of a row is the start of the next one. */
  lemma RowStep(members: seq<Member>, w: map<string, map<string, int>>, i: nat)
    requires Table(members, w, i, |members|)
    ensures Table(members, w, i + 1, 0)
  {
    forall a, b | a in w && b in w[a]
      ensures exists p, q :: LastPair(members, p, q, a, b, i + 1, 0) && w[a][b] == PairScore(members[p], members[q])
    {
      var p, q :| LastPair(members, p, q, a, b, i, |members|) && w[a][b] == PairScore(members[p], members[q]);
      LastPairRow(members, p, q, a, b, i);
    }
  }

  // -----------------------------------------------------------------------
  // The builder
  // -----------------------------------------------------------------------

  /** The score of one ordered pair, accumulated as the loop body does. */
  method ScorePair(a: Member, b: Member) returns (score: int)
    ensures score == PairScore(a, b)
  {
    score := 0;
    if b.name in a.requestedWith {
      score := score + LikeScore;
    }
    if b.name in a.avoidWith {
      score := score + DislikeScore;
    }
    var aAttr, bAttr := Compared(a.attributes), Compared(b.attributes);
    for k := 0 to 3
      invariant score == RequestTerm(a, b) + AttrSum(a.attributes, b.attributes, k)
    {
      var av, bv := aAttr[k], bAttr[k];
      if Truthy(av) && Truthy(bv) {
        if av == bv {
          score := score + AttrMatch;
        } else {
          score := score + AttrClash;
        }
      }
    }
    var am, bm := a.attributes.messiness, b.attributes.messiness;
    if am.Some? && bm.Some? {
      var diff := if am.value < bm.value then bm.value - am.value else am.value - bm.value;
      if diff <= 1 {
        score := score + MessinessNear;
      } else if diff >= 3 {
        score := score + MessinessFar;
      }
    }
    if score > ScoreBound {
      score := ScoreBound;
    }
    if score < -(ScoreBound as int) {
      score := -(ScoreBound as int);
    }
  }

  /** One empty row per id of the roster. */
  method EmptyRows(members: seq<Member>) returns (w: map<string, map<string, int>>)
    ensures w.Keys == Ids(members)
    ensures forall a :: a in w ==> w[a] == map[]
  {
    w := map[];
    for i := 0 to |members|
      invariant w.Keys == Ids(members[..i])
      invariant forall a :: a in w ==> w[a] == map[]
    {
      assert Ids(members[..i + 1]) == Ids(members[..i]) + {members[i].id} by {
        assert members[..i + 1] == members[..i] + [members[i]];
      }
      w := w[members[i].id := map[]];
    }
    assert members[..|members|] == members;
  }

  /** The table: one (initially empty) row per id, then every ordered pair of
      distinct positions writes its score, later pairs overwriting earlier
      ones that carry the same two ids. */
  method BuildPairwiseWeights(members: seq<Member>) returns (w: map<string, map<string, int>>)
    ensures w.Keys == Ids(members)
    ensures forall p, q :: Distinct(members, p, q) ==> members[q].id in w[members[p].id]
    ensures forall a, b :: a in w && b in w[a] ==>
              exists p, q :: LastPair(members, p, q, a, b, |members|, 0) && w[a][b] == PairScore(members[p], members[q])
    ensures ScoresWithin(w, ScoreBound)
    ensures UniqueIds(members) ==>
              forall p, q :: Distinct(members, p, q) ==>
                w[members[p].id][members[q].id] == PairScore(members[p], members[q])
  {
    w := EmptyRows(members);
    assert Table(members, w, 0, 0);
    for i := 0 to |members|
      invariant Table(members, w, i, 0)
    {
      w := FillRow(members, w, i);
    }
    FinalTable(members, w);
  }

  /** The ordered pairs of `itertools.permutations(members, 2)` with one
      first member `i`: the pairs `(i, j)`, `j` ascending. */
  method FillRow(members: seq<Member>, w0: map<string, map<string, int>>, i: nat) returns (w: map<string, map<string, int>>)
    requires i < |members| && Table(members, w0, i, 0)
    ensures Table(members, w, i + 1, 0)
  {
    w := w0;
    for j := 0 to |members|
      invariant Table(members, w, i, j)
    {
      if i != j {
        var score := ScorePair(members[i], members[j]);
        WriteStep(members, w, i, j);
        w := Write(w, members[i].id, members[j].id, score);
      } else {
        SkipStep(members, w, i);
      }
    }
    RowStep(members, w, i);
  }

  /** What the finished table promises. */
  lemma FinalTable(members: seq<Member>, w: map<string, map<string, int>>)
    requires Table(members, w, |members|, 0)
    ensures forall p, q :: Distinct(members, p, q) ==> members[q].id in w[members[p].id]
    ensures forall a, b :: a in w && b in w[a] ==>
              exists p, q :: LastPair(members, p, q, a, b, |members|, 0) && w[a][b] == PairScore(members[p], members[q])
    ensures ScoresWithin(w, ScoreBound)
    ensures UniqueIds(members) ==>
              forall p, q :: Distinct(members, p, q) ==>
                w[members[p].id][members[q].id] == PairScore(members[p], members[q])
  {
    forall a, b | a in w && b in w[a]
      ensures -(ScoreBound as int) <= w[a][b] <= ScoreBound
    {
      var p, q :| LastPair(members, p, q, a, b, |members|, 0) && w[a][b] == PairScore(members[p], members[q]);
    }
  }

  // -----------------------------------------------------------------------
  // Properties of a score
  // -----------------------------------------------------------------------

  /** Each compared attribute moves the score by at most one match. */
  lemma {:induction false} AttrSumRange(a: Attributes, b: Attributes, k: nat)
    requires k <= 3
    ensures -AttrMatch * k <= AttrSum(a, b, k) <= AttrMatch * k
  {
    if k > 0 {
      AttrSumRange(a, b, k - 1);
    }
  }

  /** Attribute agreement does not depend on the direction of the pair. */
  lemma {:induction false} AttrSumSymmetric(a: Attributes, b: Attributes, k: nat)
    requires k <= 3
    ensures AttrSum(a, b, k) == AttrSum(b, a, k)
  {
    if k > 0 {
      AttrSumSymmetric(a, b, k - 1);
    }
  }

  /** Only the requests can make a score asymmetric: when the two members
      request (and avoid) each other alike, both directions score the same. */
  lemma PairScoreSymmetric(a: Member, b: Member)
    requires RequestTerm(a, b) == RequestTerm(b, a)
    ensures PairScore(a, b) == PairScore(b, a)
  {
    AttrSumSymmetric(a.attributes, b.attributes, 3);
  }

  /** Without requests either way the clamp never bites: the score is the
      attribute and messiness agreement, within `[-18, 18]`. */
  lemma UnrequestedScore(a: Member, b: Member)
    requires b.name !in a.requestedWith && b.name !in a.avoidWith
    ensures PairScore(a, b) == AttrSum(a.attributes, b.attributes, 3) + MessinessTerm(a.attributes.messiness, b.attributes.messiness)
    ensures -18 <= PairScore(a, b) <= 18
  {
    AttrSumRange(a.attributes, b.attributes, 3);
  }

  /** A request that is not also an avoidance outweighs any disagreement:
      the score is at least 1.2. */
  lemma RequestedScore(a: Member, b: Member)
    requires b.name in a.requestedWith && b.name !in a.avoidWith
    ensures PairScore(a, b) >= 12
  {
    AttrSumRange(a.attributes, b.attributes, 3);
  }

  /** An avoidance that is not also a request outweighs any agreement: the
      score is at most -1.2. */
  lemma AvoidedScore(a: Member, b: Member)
    requires b.name in a.avoidWith && b.name !in a.requestedWith
    ensures PairScore(a, b) <= -12
  {
    AttrSumRange(a.attributes, b.attributes, 3);
  }

  /** A name both requested and avoided cancels out. */
  lemma RequestedAndAvoidedScore(a: Member, b: Member)
    requires b.name in a.avoidWith && b.name in a.requestedWith
    ensures PairScore(a, b) == AttrSum(a.attributes, b.attributes, 3) + MessinessTerm(a.attributes.messiness, b.attributes.messiness)
  {
    AttrSumRange(a.attributes, b.attributes, 3);
  }

  /** Two members who agree on all three attributes and are at most one
      apart in messiness, without requests, score 1.8. */
  lemma AgreeingScore(a: Member, b: Member)
    requires b.name !in a.requestedWith && b.name !in a.avoidWith
    requires Truthy(a.attributes.sleep) && a.attributes.sleep == b.attributes.sleep
    requires Truthy(a.attributes.temperature) && a.attributes.temperature == b.attributes.temperature
    requires Truthy(a.attributes.roomUse) && a.attributes.roomUse == b.attributes.roomUse
    requires a.attributes.messiness.Some? && b.attributes.messiness.Some?
    requires -1 <= a.attributes.messiness.value - b.attributes.messiness.value <= 1
    ensures PairScore(a, b) == 18
  {
    var x, y := a.attributes, b.attributes;
    assert AttrSum(x, y, 1) == AttrMatch;
    assert AttrSum(x, y, 2) == 2 * AttrMatch;
    assert AttrSum(x, y, 3) == 3 * AttrMatch;
  }
}
