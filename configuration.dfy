/** The saved configuration record that the setup page writes and the
    optimizer reads, after JSON decoding with the optimizer's defaults
    filled in. */
module Configuration {
  import opened Common

  /** A room of the configuration; `caption` is the record's `label`. */
  datatype RoomSpec = RoomSpec(id: string, caption: string, capacity: int)

  /** The hard-constraint lists. Each pair list holds raw entries of any
      length; `fixedRoomAssignments` lists the dictionary's (member id,
      room id) items in their insertion order. */
  datatype HardConstraints = HardConstraints(
    mustApartPairs: seq<seq<string>>,
    mustTogetherPairs: seq<seq<string>>,
    mutualDislikePairs: seq<seq<string>>,
    fixedRoomAssignments: seq<(string, string)>)

  /** The soft weights, in hundredths (0.2 is 20). */
  datatype SoftWeights = SoftWeights(alpha: int, beta: int, gamma: int)

  /** `pairwiseW` holds pair scores in tenths, as the weight builder writes
      them; `emptyBedBudget` is `None` when the key is missing or null. */
  datatype Config = Config(
    rooms: seq<RoomSpec>,
    allowEmptyBeds: bool,
    emptyBedBudget: Option<int>,
    hard: HardConstraints,
    weights: SoftWeights,
    pairwiseW: map<string, map<string, int>>)

  /** Every stored pair score lies in `[-bound, bound]`. */
  predicate ScoresWithin(w: map<string, map<string, int>>, bound: nat) {
    forall a, b :: a in w && b in w[a] ==> -(bound as int) <= w[a][b] <= bound
  }
}
