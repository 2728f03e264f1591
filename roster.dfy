/** The member record of a roster, as the preprocessing step produces it and
    the weight builder and the optimizer read it. */
module Roster {
  import opened Common

  /** The `attributes` dictionary of a member. A key the preprocessing step
      did not write is `None`. */
  datatype Attributes = Attributes(
    year: Option<string>,
    messiness: Option<int>,
    bother: Option<string>,
    sleep: Option<string>,
    temperature: Option<string>,
    roomUse: Option<string>,
    enforce: Option<bool>)

  /** A roster member. `rankedRoomSizes` maps a room size written in decimal
      ("2", "3", "4") to the member's rank for it (1 is the favourite). */
  datatype Member = Member(
    id: string,
    name: string,
    year: Option<string>,
    attributes: Attributes,
    rankedRoomSizes: map<string, int>,
    requestedWith: seq<string>,
    avoidWith: seq<string>)

  /** True when no two members share an id. */
  predicate UniqueIds(members: seq<Member>) {
    forall i, j :: 0 <= i < j < |members| ==> members[i].id != members[j].id
  }
}
