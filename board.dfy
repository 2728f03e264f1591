/** The per-room view of a solution, as the backend stores it (`rooms_json`)
    and the drag-and-drop board holds it: an ordered list of rooms, each with
    an ordered list of member entries. Both the move validator and the board
    work on this shape. */
module Board {
  import opened Common

  /** A member entry in a room list. Only `id` and `name` are read by the code
      that moves entries around; the other fields of a member record travel
      with the entry unchanged and are not modelled here. */
  datatype Chip = Chip(id: string, name: string)

  /** A room record. `caption` is the record's `label` field (`label` is a
      reserved word in Dafny). */
  datatype Room = Room(id: string, caption: string, capacity: int, members: seq<Chip>)

  /** Two rooms that differ at most in their member lists. */
  predicate SameRoom(a: Room, b: Room) {
    a.id == b.id && a.caption == b.caption && a.capacity == b.capacity
  }

  /** How many entries of `ms` carry the id `id`. */
  function CountId(ms: seq<Chip>, id: string): (n: nat)
    ensures n <= |ms|
    ensures n == 0 <==> forall k :: 0 <= k < |ms| ==> ms[k].id != id
  {
    if ms == [] then 0 else CountId(ms[..|ms| - 1], id) + (if ms[|ms| - 1].id == id then 1 else 0)
  }

  lemma {:induction false} CountIdAppend(a: seq<Chip>, b: seq<Chip>, id: string)
    ensures CountId(a + b, id) == CountId(a, id) + CountId(b, id)
  {
    if b != [] {
      CountIdAppend(a, b[..|b| - 1], id);
      assert (a + b)[..|a + b| - 1] == a + b[..|b| - 1];
    } else {
      assert a + b == a;
    }
  }

  /** Occurrences of `id` over all rooms. */
  function TotalCount(rooms: seq<Room>, id: string): nat {
    if rooms == [] then 0 else TotalCount(rooms[..|rooms| - 1], id) + CountId(rooms[|rooms| - 1].members, id)
  }

  /** The first position in `ms` holding the id `id`. */
  function FirstIndexOf(ms: seq<Chip>, id: string): (k: Option<nat>)
    ensures k.Some? ==> k.value < |ms| && ms[k.value].id == id
    ensures k.Some? ==> forall j :: 0 <= j < k.value ==> ms[j].id != id
    ensures k.None? ==> forall j :: 0 <= j < |ms| ==> ms[j].id != id
  {
    if ms == [] then None
    else if ms[0].id == id then Some(0)
    else match FirstIndexOf(ms[1..], id)
      case None => None
      case Some(j) => Some(j + 1)
  }

  /** The search finds nothing exactly when no entry carries the id. */
  lemma {:induction false} FirstIndexOfNone(ms: seq<Chip>, id: string)
    ensures FirstIndexOf(ms, id).None? <==> CountId(ms, id) == 0
  {
    if ms != [] {
      FirstIndexOfNone(ms[1..], id);
      assert ms == [ms[0]] + ms[1..];
      CountIdAppend([ms[0]], ms[1..], id);
    }
  }

  /** The first room whose id is `rid` (Python's search loop with `break`,
      JavaScript's `findIndex`). */
  function FirstRoomIndex(rooms: seq<Room>, rid: string): (t: Option<nat>)
    ensures t.Some? ==> t.value < |rooms| && rooms[t.value].id == rid
    ensures t.Some? ==> forall j :: 0 <= j < t.value ==> rooms[j].id != rid
    ensures t.None? ==> forall j :: 0 <= j < |rooms| ==> rooms[j].id != rid
  {
    if rooms == [] then None
    else if rooms[0].id == rid then Some(0)
    else match FirstRoomIndex(rooms[1..], rid)
      case None => None
      case Some(j) => Some(j + 1)
  }

  lemma FirstRoomIndexSameIds(a: seq<Room>, b: seq<Room>, rid: string)
    requires |a| == |b| && forall i :: 0 <= i < |a| ==> a[i].id == b[i].id
    ensures FirstRoomIndex(a, rid) == FirstRoomIndex(b, rid)
  {
    if a != [] {
      FirstRoomIndexSameIds(a[1..], b[1..], rid);
    }
  }

  /** The room list with every entry of `id` filtered out (JavaScript's
      `members.filter(m => m.id !== id)`). */
  function WithoutId(ms: seq<Chip>, id: string): seq<Chip> {
    if ms == [] then []
    else
      var prefix := WithoutId(ms[..|ms| - 1], id);
      if ms[|ms| - 1].id == id then prefix else prefix + [ms[|ms| - 1]]
  }

  /** The filter removes every entry of `id` and nothing else. */
  lemma {:induction false} WithoutIdCount(ms: seq<Chip>, id: string)
    ensures CountId(WithoutId(ms, id), id) == 0
    ensures |WithoutId(ms, id)| == |ms| - CountId(ms, id)
  {
    if ms != [] {
      var prefix := WithoutId(ms[..|ms| - 1], id);
      WithoutIdCount(ms[..|ms| - 1], id);
      CountIdAppend(prefix, [ms[|ms| - 1]], id);
    }
  }

  /** Filtering distributes over concatenation: the entries that remain keep
      their relative order. */
  lemma {:induction false} WithoutIdAppend(a: seq<Chip>, b: seq<Chip>, id: string)
    ensures WithoutId(a + b, id) == WithoutId(a, id) + WithoutId(b, id)
  {
    if b == [] {
      assert a + b == a;
    } else {
      var c, last := a + b, b[|b| - 1];
      WithoutIdAppend(a, b[..|b| - 1], id);
      assert c[..|c| - 1] == a + b[..|b| - 1] && c[|c| - 1] == last;
    }
  }

  lemma {:induction false} WithoutAbsentId(ms: seq<Chip>, id: string)
    requires CountId(ms, id) == 0
    ensures WithoutId(ms, id) == ms
  {
    if ms != [] {
      WithoutAbsentId(ms[..|ms| - 1], id);
    }
  }

  /** The message both the optimizer and the move validator report for a
      room holding more members than its capacity. */
  function OverCapacityMessage(caption: string): string {
    "Room " + caption + " over capacity"
  }
}
