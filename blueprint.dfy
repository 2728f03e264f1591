/** The drag-and-drop board of the frontend (`Blueprint`): the rooms of a
    solution plus a staging zone for members taken out of every room. A drop
    is a transition from one board state to the next. */
module Blueprint {
  import opened Common
  import opened Text
  import opened Board

  /** The two pieces of component state the drop handler replaces. */
  datatype BoardState = BoardState(rooms: seq<Room>, staging: seq<Chip>)

  /** Drag and drop identifiers: draggables are `member-<id>`, rooms are
      droppables `room-<id>`, the staging zone is `staging-zone`. */
  const MemberPrefix: string := "member-"
  const RoomPrefix: string := "room-"
  const StagingZone: string := "staging-zone"

  /** The member id read off a draggable: the first `member-` removed. */
  function DraggedId(activeId: string): string {
    ReplaceFirst(activeId, MemberPrefix, "")
  }

  /** The last entry of `ms` with the id `id`. */
  function LastIn(ms: seq<Chip>, id: string): (m: Option<Chip>)
    ensures m.Some? ==> m.value.id == id
    ensures m.None? <==> CountId(ms, id) == 0
  {
    if ms == [] then None
    else if ms[|ms| - 1].id == id then Some(ms[|ms| - 1])
    else LastIn(ms[..|ms| - 1], id)
  }

  /** The entry the filter callback captures: every match overwrites
      `member`, so it is the last entry with the id over all rooms. */
  function CapturedMember(rooms: seq<Room>, id: string): (m: Option<Chip>)
    ensures m.Some? ==> m.value.id == id
    ensures m.None? <==> TotalCount(rooms, id) == 0
  {
    if rooms == [] then None
    else
      match LastIn(rooms[|rooms| - 1].members, id)
      case Some(c) => Some(c)
      case None => CapturedMember(rooms[..|rooms| - 1], id)
  }

  /** The entry found is the last one with the id: none after it carries it. */
  lemma LastInMeans(ms: seq<Chip>, id: string)
    ensures LastIn(ms, id).Some? ==>
      exists k :: 0 <= k < |ms| && ms[k] == LastIn(ms, id).value
                  && forall j :: k < j < |ms| ==> ms[j].id != id
  {
    if LastIn(ms, id).Some? {
      LastInAt(ms, id);
      var k: nat :| LastWithIdAt(ms, id, k);
    }
  }

  /** Position `k` holds the last entry of `ms` with the id `id`. */
  ghost predicate LastWithIdAt(ms: seq<Chip>, id: string, k: nat) {
    && k < |ms|
    && LastIn(ms, id) == Some(ms[k])
    && forall j :: k < j < |ms| ==> ms[j].id != id
  }

  lemma {:induction false} LastInAt(ms: seq<Chip>, id: string)
    ensures LastIn(ms, id).Some? ==> exists k: nat :: LastWithIdAt(ms, id, k)
  {
    if ms != [] {
      var n := |ms| - 1;
      if ms[n].id == id {
        assert LastWithIdAt(ms, id, n);
      } else if LastIn(ms, id).Some? {
        LastInAt(ms[..n], id);
        var k: nat :| LastWithIdAt(ms[..n], id, k);
        assert ms[..n][k] == ms[k];
        assert forall j :: k < j < n ==> ms[..n][j] == ms[j];
        assert LastWithIdAt(ms, id, k);
      }
    }
  }

  /** The entry captured is the last entry with the id in the last room
      that holds the id: no later room holds it. */
  lemma CapturedMemberMeans(rooms: seq<Room>, id: string)
    ensures CapturedMember(rooms, id).Some? ==>
      exists r :: 0 <= r < |rooms| && CapturedMember(rooms, id) == LastIn(rooms[r].members, id)
                  && forall q :: r < q < |rooms| ==> CountId(rooms[q].members, id) == 0
  {
    if CapturedMember(rooms, id).Some? {
      CapturedAt(rooms, id);
      var r: nat :| CapturedFromRoom(rooms, id, r);
    }
  }

  /** Room `r` is the last room holding the id, and the entry captured is
      taken from it. */
  ghost predicate CapturedFromRoom(rooms: seq<Room>, id: string, r: nat) {
    && r < |rooms|
    && CapturedMember(rooms, id) == LastIn(rooms[r].members, id)
    && forall q :: r < q < |rooms| ==> CountId(rooms[q].members, id) == 0
  }

  lemma {:induction false} CapturedAt(rooms: seq<Room>, id: string)
    ensures CapturedMember(rooms, id).Some? ==> exists r: nat :: CapturedFromRoom(rooms, id, r)
  {
    if rooms != [] {
      var n := |rooms| - 1;
      if LastIn(rooms[n].members, id).Some? {
        assert CapturedFromRoom(rooms, id, n);
      } else if CapturedMember(rooms, id).Some? {
        CapturedAt(rooms[..n], id);
        var r: nat :| CapturedFromRoom(rooms[..n], id, r);
        CapturedStep(rooms, id, r);
      }
    }
  }

  lemma CapturedStep(rooms: seq<Room>, id: string, r: nat)
    requires rooms != [] && LastIn(rooms[|rooms| - 1].members, id).None?
    requires CapturedFromRoom(rooms[..|rooms| - 1], id, r)
    ensures CapturedFromRoom(rooms, id, r)
  {
    var n := |rooms| - 1;
    assert CapturedMember(rooms, id) == CapturedMember(rooms[..n], id);
    assert rooms[..n][r] == rooms[r];
    forall q | r < q < |rooms|
      ensures CountId(rooms[q].members, id) == 0
    {
      if q < n {
        assert rooms[..n][q] == rooms[q];
      }
    }
  }

  /** Every room with all entries of `id` filtered out. */
  function FilterRooms(rooms: seq<Room>, id: string): seq<Room> {
    seq(|rooms|, i requires 0 <= i < |rooms| => rooms[i].(members := WithoutId(rooms[i].members, id)))
  }

  /** `nextRooms` after the append: the member goes to the end of the first
      room with id `rid`, when there is such a room and a captured member. */
  function AppendToRoom(rooms: seq<Room>, rid: string, member: Option<Chip>): seq<Room> {
    match FirstRoomIndex(rooms, rid)
    case None => rooms
    case Some(idx) =>
      if member.Some? then rooms[idx := rooms[idx].(members := rooms[idx].members + [member.value])]
      else rooms
  }

  /** The state after `onDragEnd` for the draggable `activeId` dropped over
      `over` (`None` when dropped outside every droppable). */
  function DragEnd(st: BoardState, activeId: string, over: Option<string>): BoardState {
    if over.None? then st
    else
      var memberId := DraggedId(activeId);
      var overId := over.value;
      var member := CapturedMember(st.rooms, memberId);
      var nextRooms := FilterRooms(st.rooms, memberId);
      var nextStaging := WithoutId(st.staging, memberId);
      if StartsWith(overId, RoomPrefix) then
        BoardState(AppendToRoom(nextRooms, ReplaceFirst(overId, RoomPrefix, ""), member), nextStaging)
      else if overId == StagingZone then
        BoardState(nextRooms, if member.Some? then nextStaging + [member.value] else st.staging)
      else st
  }

  /** The red border of a room card. */
  predicate IsOverCapacity(room: Room) {
    |room.members| > room.capacity
  }

  // -----------------------------------------------------------------------
  // Helpers about counts
  // -----------------------------------------------------------------------

  lemma {:induction false} TotalCountUpdate(rooms: seq<Room>, t: nat, room: Room, id: string)
    requires t < |rooms|
    ensures TotalCount(rooms[t := room], id)
      == TotalCount(rooms, id) - CountId(rooms[t].members, id) + CountId(room.members, id)
  {
    var n := |rooms| - 1;
    if t < n {
      TotalCountUpdate(rooms[..n], t, room, id);
      assert rooms[t := room][..n] == rooms[..n][t := room];
    } else {
      assert rooms[t := room][..n] == rooms[..n];
    }
  }

  lemma {:induction false} TotalCountFiltered(rooms: seq<Room>, id: string)
    ensures TotalCount(FilterRooms(rooms, id), id) == 0
  {
    if rooms != [] {
      var n := |rooms| - 1;
      TotalCountFiltered(rooms[..n], id);
      assert FilterRooms(rooms, id)[..n] == FilterRooms(rooms[..n], id);
      WithoutIdCount(rooms[n].members, id);
    }
  }

  lemma {:induction false} TotalCountZero(rooms: seq<Room>, id: string, i: nat)
    requires TotalCount(rooms, id) == 0 && i < |rooms|
    ensures CountId(rooms[i].members, id) == 0
  {
    var n := |rooms| - 1;
    if i < n {
      TotalCountZero(rooms[..n], id, i);
    }
  }

  lemma FilterAbsent(rooms: seq<Room>, id: string)
    requires TotalCount(rooms, id) == 0
    ensures FilterRooms(rooms, id) == rooms
  {
    forall i | 0 <= i < |rooms|
      ensures FilterRooms(rooms, id)[i] == rooms[i]
    {
      TotalCountZero(rooms, id, i);
      WithoutAbsentId(rooms[i].members, id);
    }
  }

  lemma RoomDropTarget(overId: string, rid: string)
    requires overId == RoomPrefix + rid
    ensures StartsWith(overId, RoomPrefix)
    ensures ReplaceFirst(overId, RoomPrefix, "") == rid
  {
    ReplacePrefix(RoomPrefix, rid);
  }

  // -----------------------------------------------------------------------
  // Properties of a drop
  // -----------------------------------------------------------------------

  /** A drop outside every droppable changes nothing. */
  lemma DropNowhere(st: BoardState, activeId: string)
    ensures DragEnd(st, activeId, None) == st
  {
  }

  /** A drop onto an existing room of a member held by some room: the member
      is then held exactly once on the whole board, as the last entry of
      the first room with that id, and staging no longer holds it. */
  lemma DropOntoRoom(st: BoardState, activeId: string, rid: string, t: nat)
    requires FirstRoomIndex(st.rooms, rid) == Some(t)
    requires TotalCount(st.rooms, DraggedId(activeId)) > 0
    ensures var id := DraggedId(activeId);
            var out := DragEnd(st, activeId, Some(RoomPrefix + rid));
            var ms := out.rooms[t].members;
            && |ms| > 0 && ms[|ms| - 1].id == id
            && ms[|ms| - 1] == CapturedMember(st.rooms, id).value
            && CountId(ms, id) == 1
            && TotalCount(out.rooms, id) == 1
            && CountId(out.staging, id) == 0
  {
    var id := DraggedId(activeId);
    var next := FilterRooms(st.rooms, id);
    var m := CapturedMember(st.rooms, id).value;
    DropOntoRoomState(st, activeId, rid, t);
    var room := next[t].(members := next[t].members + [m]);
    var out := DragEnd(st, activeId, Some(RoomPrefix + rid));
    assert out.rooms == next[t := room] && out.rooms[t] == room;
    WithoutIdCount(st.rooms[t].members, id);
    CountIdAppend(next[t].members, [m], id);
    TotalCountFiltered(st.rooms, id);
    TotalCountUpdate(next, t, room, id);
    WithoutIdCount(st.staging, id);
  }

  /** The board after such a drop: the filtered rooms with the captured
      entry appended to room `t`, and the filtered staging. */
  lemma DropOntoRoomState(st: BoardState, activeId: string, rid: string, t: nat)
    requires FirstRoomIndex(st.rooms, rid) == Some(t)
    requires TotalCount(st.rooms, DraggedId(activeId)) > 0
    ensures var id := DraggedId(activeId);
            var next := FilterRooms(st.rooms, id);
            var out := DragEnd(st, activeId, Some(RoomPrefix + rid));
            && CapturedMember(st.rooms, id).Some?
            && t < |next| && next[t].members == WithoutId(st.rooms[t].members, id)
            && out.rooms == next[t := next[t].(members := next[t].members + [CapturedMember(st.rooms, id).value])]
            && out.staging == WithoutId(st.staging, id)
  {
    var id := DraggedId(activeId);
    RoomDropTarget(RoomPrefix + rid, rid);
    var next := FilterRooms(st.rooms, id);
    FirstRoomIndexSameIds(next, st.rooms, rid);
  }

  /** The red border of the target room after such a drop: it shows exactly
      when the room's other entries already filled it. */
  lemma DropOverCapacity(st: BoardState, activeId: string, rid: string, t: nat)
    requires FirstRoomIndex(st.rooms, rid) == Some(t)
    requires TotalCount(st.rooms, DraggedId(activeId)) > 0
    ensures IsOverCapacity(DragEnd(st, activeId, Some(RoomPrefix + rid)).rooms[t])
            <==> |WithoutId(st.rooms[t].members, DraggedId(activeId))| >= st.rooms[t].capacity
  {
    DropOntoRoomState(st, activeId, rid, t);
  }

  /** After any drop onto a room id, staging no longer holds the member. */
  lemma DropOntoRoomClearsStaging(st: BoardState, activeId: string, overId: string)
    requires StartsWith(overId, RoomPrefix)
    ensures CountId(DragEnd(st, activeId, Some(overId)).staging, DraggedId(activeId)) == 0
  {
    WithoutIdCount(st.staging, DraggedId(activeId));
  }

  /** A member held by no room and dropped onto a room is lost: the rooms
      are unchanged and staging drops it, so it is nowhere on the board. */
  lemma StagedMemberLost(st: BoardState, activeId: string, overId: string)
    requires StartsWith(overId, RoomPrefix)
    requires TotalCount(st.rooms, DraggedId(activeId)) == 0
    ensures DragEnd(st, activeId, Some(overId)).rooms == st.rooms
    ensures DragEnd(st, activeId, Some(overId)).staging == WithoutId(st.staging, DraggedId(activeId))
    ensures CountId(DragEnd(st, activeId, Some(overId)).staging, DraggedId(activeId)) == 0
  {
    var id := DraggedId(activeId);
    FilterAbsent(st.rooms, id);
    WithoutIdCount(st.staging, id);
  }

  /** A drop onto the staging zone: a member found in a room leaves every
      room and is appended to the end of staging (after any stale staging
      entries of it are dropped); otherwise nothing changes at all, so a
      staging-to-staging drop is a no-op. */
  lemma DropOntoStaging(st: BoardState, activeId: string)
    ensures var id := DraggedId(activeId);
            var out := DragEnd(st, activeId, Some(StagingZone));
            && (TotalCount(st.rooms, id) > 0 ==>
                  && TotalCount(out.rooms, id) == 0
                  && |out.staging| > 0
                  && out.staging[..|out.staging| - 1] == WithoutId(st.staging, id)
                  && out.staging[|out.staging| - 1].id == id
                  && out.staging[|out.staging| - 1] == CapturedMember(st.rooms, id).value)
            && (TotalCount(st.rooms, id) == 0 ==> out == st)
  {
    var id := DraggedId(activeId);
    assert !StartsWith(StagingZone, RoomPrefix) by {
      assert StagingZone[..|RoomPrefix|] != RoomPrefix by {
        assert StagingZone[0] == 's' && RoomPrefix[0] == 'r';
      }
    }
    TotalCountFiltered(st.rooms, id);
    if TotalCount(st.rooms, id) == 0 {
      FilterAbsent(st.rooms, id);
    }
  }

  /** Any drop keeps the rooms in order with their ids, labels and
      capacities, and every room's entries other than the dragged member
      keep their relative order. */
  lemma DropKeepsRooms(st: BoardState, activeId: string, over: Option<string>)
    ensures var id := DraggedId(activeId);
            var out := DragEnd(st, activeId, over);
            && |out.rooms| == |st.rooms|
            && forall i :: 0 <= i < |st.rooms| ==>
                 SameRoom(out.rooms[i], st.rooms[i])
                 && WithoutId(out.rooms[i].members, id) == WithoutId(st.rooms[i].members, id)
  {
    forall i | 0 <= i < |st.rooms|
      ensures var out := DragEnd(st, activeId, over).rooms[i];
              SameRoom(out, st.rooms[i])
              && WithoutId(out.members, DraggedId(activeId)) == WithoutId(st.rooms[i].members, DraggedId(activeId))
    {
      DropKeepsRoom(st, activeId, over, i);
    }
  }

  /** One room of `DropKeepsRooms`, following the branches of the drop. */
  lemma DropKeepsRoom(st: BoardState, activeId: string, over: Option<string>, i: nat)
    requires i < |st.rooms|
    ensures |DragEnd(st, activeId, over).rooms| == |st.rooms|
    ensures var id := DraggedId(activeId);
            var out := DragEnd(st, activeId, over).rooms[i];
            SameRoom(out, st.rooms[i]) && WithoutId(out.members, id) == WithoutId(st.rooms[i].members, id)
  {
    var id := DraggedId(activeId);
    var kept := WithoutId(st.rooms[i].members, id);
    var next := FilterRooms(st.rooms, id);
    assert next[i].members == kept;
    assert WithoutId(kept, id) == kept by {
      WithoutIdCount(st.rooms[i].members, id);
      WithoutAbsentId(kept, id);
    }
    if over.Some? && StartsWith(over.value, RoomPrefix) {
      var member := CapturedMember(st.rooms, id);
      match FirstRoomIndex(next, ReplaceFirst(over.value, RoomPrefix, ""))
      case None =>
      case Some(idx) =>
        if member.Some? && idx == i {
          WithoutIdAppend(kept, [member.value], id);
          assert WithoutId([member.value], id) == [];
        }
    }
  }

  /** A drop over any other droppable id changes nothing. */
  lemma DropElsewhere(st: BoardState, activeId: string, overId: string)
    requires !StartsWith(overId, RoomPrefix) && overId != StagingZone
    ensures DragEnd(st, activeId, Some(overId)) == st
  {
  }
}
