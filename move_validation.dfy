/** The manual-move step of the backend (`validate_solution_move`): a member
    dragged on the board is taken out of the rooms that hold it and appended
    to the target room, or left in no room (the staging zone). The move is
    never refused; an over-full target room is only reported. */
module MoveValidation {
  import opened Common
  import opened Board

  /** The request body of `POST /solution/{id}/apply-move`. Only `memberId`
      and `toRoomId` are read. */
  datatype ApplyMoveRequest = ApplyMoveRequest(
    roomId: Option<string>,
    memberId: string,
    fromRoomId: Option<string>,
    toRoomId: Option<string>)

  datatype MoveOutcome = MoveOutcome(rooms: seq<Room>, violations: seq<string>)

  /** `list.remove` of the first entry with the id `id`; the list is kept
      when there is none. */
  function RemoveFirst(ms: seq<Chip>, id: string): seq<Chip> {
    match FirstIndexOf(ms, id)
    case None => ms
    case Some(k) => ms[..k] + ms[k + 1..]
  }

  /** The entry the search loop keeps: the first entry with the id in the
      last room that holds one (later rooms overwrite `member`). */
  function FoundMember(rooms: seq<Room>, id: string): Option<Chip> {
    FoundBefore(rooms, id, |rooms|)
  }

  /** The entry held after searching the first `n` rooms. */
  function FoundBefore(rooms: seq<Room>, id: string, n: nat): Option<Chip>
    requires n <= |rooms|
  {
    if n == 0 then None else KeptEntry(rooms[n - 1], id, FoundBefore(rooms, id, n - 1))
  }

  /** The entry held after searching `room`: its first entry with the id, or
      the one `kept` from earlier rooms. */
  function KeptEntry(room: Room, id: string, kept: Option<Chip>): Option<Chip> {
    match FirstIndexOf(room.members, id)
    case Some(k) => Some(room.members[k])
    case None => kept
  }

  /** `room` without its first entry of `id`. */
  function Cleared(room: Room, id: string): Room {
    room.(members := RemoveFirst(room.members, id))
  }

  /** The entry kept carries the id, and there is none exactly when no room
      lists the id. */
  lemma FoundMemberMeans(rooms: seq<Room>, id: string)
    ensures FoundMember(rooms, id).Some? ==> FoundMember(rooms, id).value.id == id
    ensures FoundMember(rooms, id).None? <==> TotalCount(rooms, id) == 0
  {
    FoundBeforeMeans(rooms, id, |rooms|);
    assert rooms[..|rooms|] == rooms;
  }

  /** The entry kept is the first entry with the id in the last room that
      holds the id: no later room holds it. */
  lemma FoundMemberSource(rooms: seq<Room>, id: string)
    ensures FoundMember(rooms, id).Some? ==>
      exists r :: 0 <= r < |rooms| && FirstIndexOf(rooms[r].members, id).Some?
                  && FoundMember(rooms, id).value == rooms[r].members[FirstIndexOf(rooms[r].members, id).value]
                  && forall q :: r < q < |rooms| ==> CountId(rooms[q].members, id) == 0
  {
    if FoundMember(rooms, id).Some? {
      FoundBeforeSource(rooms, id, |rooms|);
      var r: nat :| HeldFirstAt(rooms, id, |rooms|, r, FoundMember(rooms, id).value);
    }
  }

  /** Room `r`, among the first `n`, is the last of them holding the id,
      and `c` is its first entry with the id. */
  ghost predicate HeldFirstAt(rooms: seq<Room>, id: string, n: nat, r: nat, c: Chip)
    requires n <= |rooms|
  {
    && r < n
    && FirstIndexOf(rooms[r].members, id).Some?
    && c == rooms[r].members[FirstIndexOf(rooms[r].members, id).value]
    && forall q :: r < q < n ==> CountId(rooms[q].members, id) == 0
  }

  lemma {:induction false} FoundBeforeSource(rooms: seq<Room>, id: string, n: nat)
    requires n <= |rooms|
    ensures FoundBefore(rooms, id, n).Some? ==>
      exists r: nat :: HeldFirstAt(rooms, id, n, r, FoundBefore(rooms, id, n).value)
  {
    if n > 0 {
      var kept := FoundBefore(rooms, id, n - 1);
      assert FoundBefore(rooms, id, n) == KeptEntry(rooms[n - 1], id, kept);
      if FirstIndexOf(rooms[n - 1].members, id).Some? {
        assert HeldFirstAt(rooms, id, n, n - 1, FoundBefore(rooms, id, n).value);
      } else if kept.Some? {
        FoundBeforeSource(rooms, id, n - 1);
        FirstIndexOfNone(rooms[n - 1].members, id);
        var r: nat :| HeldFirstAt(rooms, id, n - 1, r, kept.value);
        assert HeldFirstAt(rooms, id, n, r, kept.value);
      }
    }
  }

  lemma {:induction false} FoundBeforeMeans(rooms: seq<Room>, id: string, n: nat)
    requires n <= |rooms|
    ensures FoundBefore(rooms, id, n).Some? ==> FoundBefore(rooms, id, n).value.id == id
    ensures FoundBefore(rooms, id, n).None? <==> TotalCount(rooms[..n], id) == 0
  {
    if n > 0 {
      FoundBeforeMeans(rooms, id, n - 1);
      FirstIndexOfNone(rooms[n - 1].members, id);
      assert rooms[..n][..n - 1] == rooms[..n - 1];
    }
  }

  /** The entry that is appended: the one found, or the placeholder
      `{id: memberId, name: memberId}` when no room held the member. */
  function MovedMember(rooms: seq<Room>, id: string): Chip {
    FoundMember(rooms, id).GetOr(Chip(id, id))
  }

  /** Python's truthiness test `if move.toRoomId:` (neither `None` nor empty). */
  predicate HasTarget(move: ApplyMoveRequest) {
    move.toRoomId.Some? && move.toRoomId.value != ""
  }

  /** Every room with its first entry of `id` removed. */
  function RemovedEverywhere(rooms: seq<Room>, id: string): seq<Room> {
    seq(|rooms|, i requires 0 <= i < |rooms| => Cleared(rooms[i], id))
  }

  /** The room that receives the member, if any: the first room whose id is
      `toRoomId`, when `toRoomId` is set. */
  function TargetIndex(rooms: seq<Room>, move: ApplyMoveRequest): (t: Option<nat>)
    ensures t.Some? ==> HasTarget(move) && t.value < |rooms| && rooms[t.value].id == move.toRoomId.value
    ensures t.Some? ==> forall k :: 0 <= k < t.value ==> rooms[k].id != move.toRoomId.value
    ensures t.None? ==> !HasTarget(move) || forall k :: 0 <= k < |rooms| ==> rooms[k].id != move.toRoomId.value
  {
    if HasTarget(move) then FirstRoomIndex(rooms, move.toRoomId.value) else None
  }

  /** What `validate_solution_move` returns for `rooms` and `move`. */
  function ApplyMove(rooms: seq<Room>, move: ApplyMoveRequest): MoveOutcome {
    var cleared := RemovedEverywhere(rooms, move.memberId);
    match TargetIndex(rooms, move)
    case None => MoveOutcome(cleared, [])
    case Some(t) =>
      var room := cleared[t].(members := cleared[t].members + [MovedMember(rooms, move.memberId)]);
      MoveOutcome(
        cleared[t := room],
        if |room.members| > room.capacity then [OverCapacityMessage(room.caption)] else [])
  }

  /** The backend's manual move, updating the room records in place. */
  method ValidateSolutionMove(rooms: array<Room>, move: ApplyMoveRequest) returns (violations: seq<string>)
    modifies rooms
    ensures rooms[..] == ApplyMove(old(rooms[..]), move).rooms
    ensures violations == ApplyMove(old(rooms[..]), move).violations
  {
    ghost var before := rooms[..];
    violations := [];
    var member := RemoveFromRooms(rooms, move.memberId);
    var moved := if member.Some? then member.value else Chip(move.memberId, move.memberId);
    assert moved == MovedMember(before, move.memberId);
    ghost var cleared := rooms[..];
    // Add to the target room, if one is named
    if move.toRoomId.Some? && move.toRoomId.value != "" {
      var t := FindRoom(rooms, move.toRoomId.value);
      FirstRoomIndexSameIds(cleared, before, move.toRoomId.value);
      assert t == TargetIndex(before, move);
      if t.Some? {
        var room := rooms[t.value];
        room := room.(members := room.members + [moved]);
        rooms[t.value] := room;
        assert rooms[..] == cleared[t.value := room];
        if |room.members| > room.capacity {
          violations := violations + [OverCapacityMessage(room.caption)];
        }
      }
    }
  }

  /** The search of the second loop: the first room whose id is `rid`. */
  method FindRoom(rooms: array<Room>, rid: string) returns (t: Option<nat>)
    ensures t == FirstRoomIndex(rooms[..], rid)
  {
    var k := 0;
    while k < rooms.Length && rooms[k].id != rid
      invariant 0 <= k <= rooms.Length
      invariant forall q :: 0 <= q < k ==> rooms[q].id != rid
    {
      k := k + 1;
    }
    if k < rooms.Length {
      t := Some(k);
    } else {
      t := None;
    }
  }

  /** The inner search of the first loop: the position of the first entry
      with the id `id`, if any. */
  method SearchEntry(ms: seq<Chip>, id: string) returns (k: Option<nat>)
    ensures k == FirstIndexOf(ms, id)
  {
    var j := 0;
    while j < |ms| && ms[j].id != id
      invariant 0 <= j <= |ms|
      invariant forall q :: 0 <= q < j ==> ms[q].id != id
    {
      j := j + 1;
    }
    if j < |ms| {
      k := Some(j);
    } else {
      k := None;
    }
  }

  /** The first loop of the manual move: every room drops its first entry of
      `id`, and the entry kept is the one from the last room that had one. */
  method RemoveFromRooms(rooms: array<Room>, id: string) returns (member: Option<Chip>)
    modifies rooms
    ensures rooms[..] == RemovedEverywhere(old(rooms[..]), id)
    ensures member == FoundMember(old(rooms[..]), id)
  {
    ghost var before := rooms[..];
    member := None;
    for i := 0 to rooms.Length
      invariant Halfway(before, id, i, rooms[..])
      invariant member == FoundBefore(before, id, i)
    {
      ghost var pre, kept := rooms[..], member;
      member := ClearAt(rooms, i, id, member);
      ClearStep(before, id, i, pre, rooms[..], kept, member);
    }
    HalfwayDone(before, id, rooms[..]);
  }

  /** One pass of the first loop: room `i` loses its first entry of `id`,
      and that entry replaces `kept` if there was one. */
  method ClearAt(rooms: array<Room>, i: nat, id: string, kept: Option<Chip>) returns (member: Option<Chip>)
    requires i < rooms.Length
    modifies rooms
    ensures rooms[..] == old(rooms[..])[i := Cleared(old(rooms[i]), id)]
    ensures member == KeptEntry(old(rooms[i]), id, kept)
  {
    var room := rooms[i];
    var k := SearchEntry(room.members, id);
    member := kept;
    if k.Some? {
      member := Some(room.members[k.value]);
      rooms[i] := room.(members := room.members[..k.value] + room.members[k.value + 1..]);
    }
  }

  /** The rooms after the first loop has visited the first `i` of them. */
  ghost predicate Halfway(before: seq<Room>, id: string, i: nat, rooms: seq<Room>) {
    && i <= |before| == |rooms|
    && (forall k :: 0 <= k < i ==> rooms[k] == Cleared(before[k], id))
    && (forall k :: i <= k < |rooms| ==> rooms[k] == before[k])
  }

  lemma ClearStep(before: seq<Room>, id: string, i: nat, pre: seq<Room>, post: seq<Room>, kept: Option<Chip>, member: Option<Chip>)
    requires Halfway(before, id, i, pre) && i < |pre|
    requires kept == FoundBefore(before, id, i)
    requires post == pre[i := Cleared(pre[i], id)] && member == KeptEntry(pre[i], id, kept)
    ensures Halfway(before, id, i + 1, post)
    ensures member == FoundBefore(before, id, i + 1)
  {
  }

  lemma HalfwayDone(before: seq<Room>, id: string, rooms: seq<Room>)
    requires Halfway(before, id, |before|, rooms)
    ensures rooms == RemovedEverywhere(before, id)
  {
  }

  // -----------------------------------------------------------------------
  // Properties of a move
  // -----------------------------------------------------------------------

  /** Room order, ids, labels and capacities survive a move. */
  lemma MoveKeepsRooms(rooms: seq<Room>, move: ApplyMoveRequest)
    ensures |ApplyMove(rooms, move).rooms| == |rooms|
    ensures forall i :: 0 <= i < |rooms| ==> SameRoom(ApplyMove(rooms, move).rooms[i], rooms[i])
  {
  }

  /** A room that held the member loses exactly its first entry with that
      id; every other entry stays, in order. Only the target room gains
      something, and only at its end. */
  lemma {:induction false} MoveRemovesFirstEntry(rooms: seq<Room>, move: ApplyMoveRequest, i: nat)
    requires i < |rooms|
    ensures var ms := rooms[i].members;
            var out := ApplyMove(rooms, move).rooms[i].members;
            var kept := out[..|RemoveFirst(ms, move.memberId)|];
            && (FirstIndexOf(ms, move.memberId).Some? ==>
                  var k := FirstIndexOf(ms, move.memberId).value;
                  |kept| == |ms| - 1 && kept[..k] == ms[..k] && kept[k..] == ms[k + 1..])
            && (FirstIndexOf(ms, move.memberId).None? ==> kept == ms)
            && (TargetIndex(rooms, move) != Some(i) ==> out == kept)
  {
    var r := RemoveFirst(rooms[i].members, move.memberId);
    MoveRoomMembers(rooms, move, i);
    assert ApplyMove(rooms, move).rooms[i].members[..|r|] == r;
  }

  /** A room's entries after the move: its entries without the first one of
      the id, then the moved entry if it is the target. */
  lemma MoveRoomMembers(rooms: seq<Room>, move: ApplyMoveRequest, i: nat)
    requires i < |rooms|
    ensures ApplyMove(rooms, move).rooms[i].members
              == RemoveFirst(rooms[i].members, move.memberId)
                 + (if TargetIndex(rooms, move) == Some(i) then [MovedMember(rooms, move.memberId)] else [])
  {
    var cleared := RemovedEverywhere(rooms, move.memberId);
    assert cleared[i] == Cleared(rooms[i], move.memberId);
    match TargetIndex(rooms, move)
    case None =>
      assert RemoveFirst(rooms[i].members, move.memberId) + [] == RemoveFirst(rooms[i].members, move.memberId);
    case Some(t) =>
      if t != i {
        assert RemoveFirst(rooms[i].members, move.memberId) + [] == RemoveFirst(rooms[i].members, move.memberId);
      }
  }

  /** `list.remove`: a list without the id is kept; otherwise exactly the
      entry at the first position holding the id is taken out, the others
      staying in order, so the list loses that one entry and nothing else. */
  lemma RemoveFirstMeans(ms: seq<Chip>, id: string)
    ensures (forall j :: 0 <= j < |ms| ==> ms[j].id != id) ==> RemoveFirst(ms, id) == ms
    ensures (exists j :: 0 <= j < |ms| && ms[j].id == id) ==>
      exists k :: 0 <= k < |ms| && ms[k].id == id && (forall j :: 0 <= j < k ==> ms[j].id != id)
                  && RemoveFirst(ms, id) == ms[..k] + ms[k + 1..]
                  && multiset(RemoveFirst(ms, id)) + multiset{ms[k]} == multiset(ms)
  {
    match FirstIndexOf(ms, id)
    case None =>
    case Some(k) =>
      assert ms == ms[..k] + [ms[k]] + ms[k + 1..];
      assert multiset(RemoveFirst(ms, id)) + multiset{ms[k]} == multiset(ms);
  }

  /** Removing the first entry of an id lowers its count by one, if it
      occurs at all. */
  lemma RemoveFirstCount(ms: seq<Chip>, id: string)
    ensures var before := CountId(ms, id);
            CountId(RemoveFirst(ms, id), id) == if before > 0 then before - 1 else 0
  {
    match FirstIndexOf(ms, id)
    case None =>
      FirstIndexOfNone(ms, id);
    case Some(k) =>
      assert ms == ms[..k] + [ms[k]] + ms[k + 1..];
      CountIdAppend(ms[..k] + [ms[k]], ms[k + 1..], id);
      CountIdAppend(ms[..k], [ms[k]], id);
      CountIdAppend(ms[..k], ms[k + 1..], id);
  }

  /** The multiplicity of the moved id: every room that held it holds one
      fewer, and the target room one more. */
  lemma MoveCounts(rooms: seq<Room>, move: ApplyMoveRequest, i: nat)
    requires i < |rooms|
    ensures var before := CountId(rooms[i].members, move.memberId);
            CountId(ApplyMove(rooms, move).rooms[i].members, move.memberId)
              == (if before > 0 then before - 1 else 0) + (if TargetIndex(rooms, move) == Some(i) then 1 else 0)
  {
    var id := move.memberId;
    var r := RemoveFirst(rooms[i].members, id);
    RemoveFirstCount(rooms[i].members, id);
    MoveRoomMembers(rooms, move, i);
    if TargetIndex(rooms, move) == Some(i) {
      FoundMemberMeans(rooms, id);
      CountIdAppend(r, [MovedMember(rooms, id)], id);
    } else {
      assert r + [] == r;
    }
  }

  /** With a target room, the member ends up as the last entry of that room:
      the entry found in the rooms, or the placeholder `{id, name: id}` when
      no room held it. */
  lemma MoveAppendsAtTarget(rooms: seq<Room>, move: ApplyMoveRequest, t: nat)
    requires TargetIndex(rooms, move) == Some(t)
    ensures var out := ApplyMove(rooms, move).rooms[t].members;
            && |out| >= 1
            && out[|out| - 1].id == move.memberId
            && (TotalCount(rooms, move.memberId) == 0 ==> out[|out| - 1] == Chip(move.memberId, move.memberId))
            && (TotalCount(rooms, move.memberId) > 0 ==>
                  FoundMember(rooms, move.memberId).Some? && out[|out| - 1] == FoundMember(rooms, move.memberId).value)
  {
    FoundMemberMeans(rooms, move.memberId);
  }

  /** At most one violation, and one exactly when the target room now holds
      more members than its capacity; the rooms reflect the move either way. */
  lemma MoveViolations(rooms: seq<Room>, move: ApplyMoveRequest)
    ensures var out := ApplyMove(rooms, move);
            && |out.violations| <= 1
            && (out.violations != [] <==>
                  TargetIndex(rooms, move).Some? &&
                  |out.rooms[TargetIndex(rooms, move).value].members| > rooms[TargetIndex(rooms, move).value].capacity)
            && (out.violations != [] ==>
                  out.violations == [OverCapacityMessage(rooms[TargetIndex(rooms, move).value].caption)])
  {
  }

  /** Without a target room (no `toRoomId`, an empty one, or one naming no
      room), nothing is appended and nothing is reported; a member that each
      room held at most once is then in no room at all. */
  lemma {:induction false} MoveToStaging(rooms: seq<Room>, move: ApplyMoveRequest)
    requires TargetIndex(rooms, move).None?
    ensures ApplyMove(rooms, move).violations == []
    ensures (forall i :: 0 <= i < |rooms| ==> CountId(rooms[i].members, move.memberId) <= 1) ==>
              forall i :: 0 <= i < |rooms| ==> CountId(ApplyMove(rooms, move).rooms[i].members, move.memberId) == 0
  {
    forall i | 0 <= i < |rooms|
      ensures CountId(rooms[i].members, move.memberId) <= 1 ==>
                CountId(ApplyMove(rooms, move).rooms[i].members, move.memberId) == 0
    {
      MoveCounts(rooms, move, i);
    }
  }

  /** A room that neither held the member nor is the target is untouched. */
  lemma MoveLeavesOtherRooms(rooms: seq<Room>, move: ApplyMoveRequest, i: nat)
    requires i < |rooms|
    requires CountId(rooms[i].members, move.memberId) == 0
    requires TargetIndex(rooms, move) != Some(i)
    ensures ApplyMove(rooms, move).rooms[i] == rooms[i]
  {
  }

  /** `fromRoomId` and `roomId` are never consulted. */
  lemma MoveIgnoresSource(rooms: seq<Room>, move: ApplyMoveRequest, from: Option<string>, room: Option<string>)
    ensures ApplyMove(rooms, move.(fromRoomId := from, roomId := room)) == ApplyMove(rooms, move)
  {
  }
}
