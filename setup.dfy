/** The room set-up page of the frontend (`Setup`): a number of rooms per
    capacity expands into the configuration's room list, which is saved
    together with the default constraints and weights. */
module Setup {
  import opened Common
  import opened Text
  import opened Configuration

  // -----------------------------------------------------------------------
  // Room ids and captions
  // -----------------------------------------------------------------------

  /** `${cap}-${k}`: the id of the k-th room (counting from 1) of a capacity. */
  function RoomId(cap: int, k: nat): string {
    IntToString(cap) + "-" + NatToString(k)
  }

  /** `${cap}p-${k}`: the caption of that room. */
  function RoomCaption(cap: int, k: nat): string {
    IntToString(cap) + "p-" + NatToString(k)
  }

  function NewRoom(cap: int, k: nat): RoomSpec {
    RoomSpec(RoomId(cap, k), RoomCaption(cap, k), cap)
  }

  /** The position of the last dash of a text. */
  function LastDash(s: string): (p: Option<nat>)
    ensures p.Some? ==> p.value < |s| && s[p.value] == '-'
  {
    if s == [] then None
    else if s[|s| - 1] == '-' then Some(|s| - 1)
    else LastDash(s[..|s| - 1])
  }

  /** A numeral after a dash holds no dash, so that dash is the last one. */
  lemma {:induction false} LastDashBeforeNumeral(a: string, b: string)
    requires forall i :: 0 <= i < |b| ==> IsDigit(b[i])
    ensures LastDash(a + "-" + b) == Some(|a|)
  {
    var s := a + "-" + b;
    if b != [] {
      var n := |b| - 1;
      LastDashBeforeNumeral(a, b[..n]);
      assert s[..|s| - 1] == a + "-" + b[..n];
      assert s[|s| - 1] == b[n];
    }
  }

  /** Two texts glued by a dash, where the right-hand parts are numerals,
      split back at that dash. */
  lemma SplitAtDash(a1: string, b1: string, a2: string, b2: string)
    requires forall i :: 0 <= i < |b1| ==> IsDigit(b1[i])
    requires forall i :: 0 <= i < |b2| ==> IsDigit(b2[i])
    requires a1 + "-" + b1 == a2 + "-" + b2
    ensures a1 == a2 && b1 == b2
  {
    var s := a1 + "-" + b1;
    LastDashBeforeNumeral(a1, b1);
    LastDashBeforeNumeral(a2, b2);
    assert a1 == s[..|a1|] && a2 == s[..|a2|];
    assert b1 == s[|a1| + 1..] && b2 == s[|a2| + 1..];
  }

  /** Room ids tell capacity and number apart: equal ids mean the same
      capacity and the same number. */
  lemma RoomIdInjective(c1: int, k1: nat, c2: int, k2: nat)
    requires RoomId(c1, k1) == RoomId(c2, k2)
    ensures c1 == c2 && k1 == k2
  {
    SplitAtDash(IntToString(c1), NatToString(k1), IntToString(c2), NatToString(k2));
    ParseIntToString(c1);
    ParseIntToString(c2);
    NatToStringInjective(k1, k2);
  }

  // -----------------------------------------------------------------------
  // makeRooms
  // -----------------------------------------------------------------------

  /** The rooms of one capacity: `count` of them (none for a count below 1),
      numbered from 1. */
  function Batch(cap: int, count: int): seq<RoomSpec> {
    seq(Max(0, count), i requires 0 <= i < Max(0, count) => NewRoom(cap, i + 1))
  }

  /** A batch has one room per count (none below 1), every one with the
      batch's capacity, numbered 1 to count in its id and label, and no two
      with the same id. */
  lemma BatchMeans(cap: int, count: int)
    ensures var rooms := Batch(cap, count);
            && |rooms| == Max(0, count)
            && (forall i :: 0 <= i < |rooms| ==> rooms[i].capacity == cap)
            && (forall i :: 0 <= i < |rooms| ==>
                  rooms[i].id == RoomId(cap, i + 1) && rooms[i].caption == RoomCaption(cap, i + 1))
            && (forall i, j :: 0 <= i < j < |rooms| ==> rooms[i].id != rooms[j].id)
  {
    var rooms := Batch(cap, count);
    forall i, j | 0 <= i < j < |rooms|
      ensures rooms[i].id != rooms[j].id
    {
      if rooms[i].id == rooms[j].id {
        RoomIdInjective(cap, i + 1, cap, j + 1);
      }
    }
  }

  /** The rooms of every (capacity, count) entry, entry after entry. */
  function Expand(entries: seq<(int, int)>): seq<RoomSpec> {
    if entries == [] then []
    else
      var n := |entries| - 1;
      Expand(entries[..n]) + Batch(entries[n].0, entries[n].1)
  }

  lemma ExpandNext(entries: seq<(int, int)>, e: nat)
    requires e < |entries|
    ensures Expand(entries[..e + 1]) == Expand(entries[..e]) + Batch(entries[e].0, entries[e].1)
  {
    assert entries[..e + 1][..e] == entries[..e];
  }

  /** `makeRooms`: one loop over the entries, one over each count. */
  method MakeRooms(entries: seq<(int, int)>) returns (rooms: seq<RoomSpec>)
    ensures rooms == Expand(entries)
  {
    rooms := [];
    for e := 0 to |entries|
      invariant rooms == Expand(entries[..e])
    {
      var (cap, count) := entries[e];
      rooms := AddBatch(rooms, cap, count);
      ExpandNext(entries, e);
    }
    assert entries[..|entries|] == entries;
  }

  /** The inner loop of `makeRooms`: rooms `1..count` of one size. */
  method AddBatch(start: seq<RoomSpec>, cap: int, count: int) returns (rooms: seq<RoomSpec>)
    ensures rooms == start + Batch(cap, count)
  {
    rooms := start;
    var i: nat := 0;
    while i < count
      invariant i <= Max(0, count)
      invariant rooms == start + Batch(cap, count)[..i]
    {
      assert Batch(cap, count)[..i + 1] == Batch(cap, count)[..i] + [NewRoom(cap, i + 1)];
      rooms := rooms + [NewRoom(cap, i + 1)];
      i := i + 1;
    }
    assert Batch(cap, count)[..i] == Batch(cap, count);
  }

  // -----------------------------------------------------------------------
  // Properties of the expansion
  // -----------------------------------------------------------------------

  /** The number of rooms the entries ask for; a count below 1 asks for none. */
  function Requested(entries: seq<(int, int)>): nat {
    if entries == [] then 0
    else
      var n := |entries| - 1;
      Requested(entries[..n]) + Max(0, entries[n].1)
  }

  /** The beds the entries ask for. */
  function RequestedBeds(entries: seq<(int, int)>): int {
    if entries == [] then 0
    else
      var n := |entries| - 1;
      RequestedBeds(entries[..n]) + entries[n].0 * Max(0, entries[n].1)
  }

  /** The beds of a room list. */
  function Beds(rooms: seq<RoomSpec>): int {
    if rooms == [] then 0 else Beds(rooms[..|rooms| - 1]) + rooms[|rooms| - 1].capacity
  }

  lemma {:induction false} BedsAppend(a: seq<RoomSpec>, b: seq<RoomSpec>)
    ensures Beds(a + b) == Beds(a) + Beds(b)
  {
    if b != [] {
      var n := |b| - 1;
      BedsAppend(a, b[..n]);
      assert (a + b)[..|a + b| - 1] == a + b[..n];
      assert (a + b)[|a + b| - 1] == b[n];
    } else {
      assert a + b == a;
    }
  }

  lemma BatchLast(cap: int, count: int)
    requires count > 0
    ensures Beds(Batch(cap, count)) == Beds(Batch(cap, count - 1)) + cap
  {
    var rooms := Batch(cap, count);
    assert rooms[..count - 1] == Batch(cap, count - 1);
    assert rooms[count - 1].capacity == cap;
  }

  lemma OneMore(a: int, b: int)
    ensures a * (b - 1) + a == a * b
  {
  }

  lemma {:induction false} BatchBeds(cap: int, count: int)
    ensures Beds(Batch(cap, count)) == cap * Max(0, count)
  {
    if count > 0 {
      BatchLast(cap, count);
      BatchBeds(cap, count - 1);
      OneMore(cap, count);
    }
  }

  /** As many rooms as the counts ask for. */
  lemma {:induction false} ExpandSize(entries: seq<(int, int)>)
    ensures |Expand(entries)| == Requested(entries)
  {
    if entries != [] {
      ExpandSize(entries[..|entries| - 1]);
    }
  }

  /** The rooms hold as many beds as the entries ask for. */
  lemma {:induction false} ExpandBeds(entries: seq<(int, int)>)
    ensures Beds(Expand(entries)) == RequestedBeds(entries)
  {
    if entries != [] {
      var n := |entries| - 1;
      ExpandBeds(entries[..n]);
      BatchBeds(entries[n].0, entries[n].1);
      BedsAppend(Expand(entries[..n]), Batch(entries[n].0, entries[n].1));
    }
  }

  /** `room` is the k-th room of the capacity of one of the entries, for a
      k from 1 to that entry's count. */
  ghost predicate FromEntry(entries: seq<(int, int)>, room: RoomSpec) {
    exists e: int, k: nat :: 0 <= e < |entries| && 1 <= k <= entries[e].1 && room == NewRoom(entries[e].0, k)
  }

  /** Every room comes from one of the entries. */
  lemma {:induction false} ExpandShape(entries: seq<(int, int)>)
    ensures forall i :: 0 <= i < |Expand(entries)| ==> FromEntry(entries, Expand(entries)[i])
  {
    if entries != [] {
      var n := |entries| - 1;
      var pre := entries[..n];
      var front := Expand(pre);
      var batch := Batch(entries[n].0, entries[n].1);
      var rooms := Expand(entries);
      assert rooms == front + batch;
      ExpandShape(pre);
      forall i | 0 <= i < |rooms|
        ensures FromEntry(entries, rooms[i])
      {
        if i < |front| {
          assert FromEntry(pre, front[i]);
          var e: int, k: nat :| 0 <= e < |pre| && 1 <= k <= pre[e].1 && front[i] == NewRoom(pre[e].0, k);
          assert pre[e] == entries[e];
          assert rooms[i] == front[i] == NewRoom(entries[e].0, k);
        } else {
          var k := i - |front| + 1;
          assert 1 <= k <= entries[n].1;
          assert rooms[i] == batch[i - |front|] == NewRoom(entries[n].0, k);
        }
      }
    }
  }

  /** Entries with distinct capacities give rooms with distinct ids. */
  lemma {:induction false} ExpandIdsDistinct(entries: seq<(int, int)>)
    requires forall e, f :: 0 <= e < f < |entries| ==> entries[e].0 != entries[f].0
    ensures forall i, j :: 0 <= i < j < |Expand(entries)| ==> Expand(entries)[i].id != Expand(entries)[j].id
  {
    if entries != [] {
      var n := |entries| - 1;
      var front := Expand(entries[..n]);
      var cap := entries[n].0;
      var batch := Batch(cap, entries[n].1);
      var rooms := Expand(entries);
      assert rooms == front + batch;
      ExpandIdsDistinct(entries[..n]);
      ExpandShape(entries[..n]);
      BatchMeans(cap, entries[n].1);
      forall i, j | 0 <= i < j < |rooms|
        ensures rooms[i].id != rooms[j].id
      {
        if j < |front| {
          assert rooms[i] == front[i] && rooms[j] == front[j];
        } else if i >= |front| {
          assert rooms[i] == batch[i - |front|] && rooms[j] == batch[j - |front|];
        } else {
          assert rooms[i] == front[i] && rooms[j] == batch[j - |front|];
          OtherCapacityId(entries[..n], front[i], cap, j - |front| + 1);
        }
      }
    }
  }

  /** A room of entries that all have another capacity never gets the id of
      a room of capacity `cap`. */
  lemma OtherCapacityId(entries: seq<(int, int)>, room: RoomSpec, cap: int, k: nat)
    requires FromEntry(entries, room)
    requires forall e :: 0 <= e < |entries| ==> entries[e].0 != cap
    ensures room.id != RoomId(cap, k)
  {
    var e: int, q: nat :| 0 <= e < |entries| && 1 <= q <= entries[e].1 && room == NewRoom(entries[e].0, q);
    if room.id == RoomId(cap, k) {
      RoomIdInjective(entries[e].0, q, cap, k);
    }
  }

  // -----------------------------------------------------------------------
  // saveConfig
  // -----------------------------------------------------------------------

  /** The entries of `{2: two, 3: three, 4: four}` in the order
      `Object.entries` lists integer keys: ascending. */
  function SizeEntries(two: int, three: int, four: int): seq<(int, int)> {
    [(2, two), (3, three), (4, four)]
  }

  /** `saveConfig`: nothing without a dataset (a missing or zero id); else
      the rooms of the three counts, the empty-bed settings as given, no
      hard constraints, the default soft weights (0.2, 0.1, 0.1) and no
      pair table. */
  method SaveConfig(datasetId: Option<int>, two: int, three: int, four: int, allowEmptyBeds: bool, budget: int)
    returns (config: Option<Config>)
    ensures datasetId.None? || datasetId == Some(0) <==> config.None?
    ensures config.Some? ==>
              && config.value.rooms == Expand(SizeEntries(two, three, four))
              && config.value.allowEmptyBeds == allowEmptyBeds
              && config.value.emptyBedBudget == Some(budget)
              && config.value.hard == HardConstraints([], [], [], [])
              && config.value.weights == SoftWeights(20, 10, 10)
              && config.value.pairwiseW == map[]
  {
    if datasetId.None? || datasetId == Some(0) {
      return None;
    }
    var rooms := MakeRooms(SizeEntries(two, three, four));
    config := Some(Config(rooms, allowEmptyBeds, Some(budget), HardConstraints([], [], [], []), SoftWeights(20, 10, 10), map[]));
  }

  lemma SizeEntriesTotals(two: int, three: int, four: int)
    ensures Requested(SizeEntries(two, three, four)) == Max(0, two) + Max(0, three) + Max(0, four)
    ensures RequestedBeds(SizeEntries(two, three, four)) == 2 * Max(0, two) + 3 * Max(0, three) + 4 * Max(0, four)
  {
    var e1 := [(2, two)];
    var e2 := e1 + [(3, three)];
    var e3 := e2 + [(4, four)];
    assert e3 == SizeEntries(two, three, four);
    assert e1[..0] == [] && e2[..1] == e1 && e3[..2] == e2;
    assert Requested(e1) == Max(0, two) && RequestedBeds(e1) == 2 * Max(0, two);
    assert Requested(e2) == Requested(e1) + Max(0, three);
    assert RequestedBeds(e2) == RequestedBeds(e1) + 3 * Max(0, three);
    assert Requested(e3) == Requested(e2) + Max(0, four);
    assert RequestedBeds(e3) == RequestedBeds(e2) + 4 * Max(0, four);
  }

  /** The rooms saved by the set-up page: one per requested room, each id
      used once, and as many beds as the counts ask for (capacities 2, 3
      and 4). */
  lemma SetupRooms(two: int, three: int, four: int)
    ensures var rooms := Expand(SizeEntries(two, three, four));
            && |rooms| == Max(0, two) + Max(0, three) + Max(0, four)
            && Beds(rooms) == 2 * Max(0, two) + 3 * Max(0, three) + 4 * Max(0, four)
            && (forall i, j :: 0 <= i < j < |rooms| ==> rooms[i].id != rooms[j].id)
            && (forall i :: 0 <= i < |rooms| ==> rooms[i].capacity in {2, 3, 4})
  {
    var entries := SizeEntries(two, three, four);
    var rooms := Expand(entries);
    assert |rooms| == Max(0, two) + Max(0, three) + Max(0, four) by {
      SizeEntriesTotals(two, three, four);
      ExpandSize(entries);
    }
    assert Beds(rooms) == 2 * Max(0, two) + 3 * Max(0, three) + 4 * Max(0, four) by {
      SizeEntriesTotals(two, three, four);
      ExpandBeds(entries);
    }
    assert forall i, j :: 0 <= i < j < |rooms| ==> rooms[i].id != rooms[j].id by {
      ExpandIdsDistinct(entries);
    }
    assert forall i :: 0 <= i < |rooms| ==> rooms[i].capacity in {2, 3, 4} by {
      ExpandCapacities(entries, {2, 3, 4});
    }
  }

  /** Every room has the capacity of the entry it comes from. */
  lemma ExpandCapacities(entries: seq<(int, int)>, caps: set<int>)
    requires forall e :: 0 <= e < |entries| ==> entries[e].0 in caps
    ensures forall i :: 0 <= i < |Expand(entries)| ==> Expand(entries)[i].capacity in caps
  {
    var rooms := Expand(entries);
    forall i | 0 <= i < |rooms|
      ensures rooms[i].capacity in caps
    {
      ExpandShape(entries);
      assert FromEntry(entries, rooms[i]);
      var e: int, k: nat :| 0 <= e < |entries| && 1 <= k <= entries[e].1 && rooms[i] == NewRoom(entries[e].0, k);
    }
  }
}
