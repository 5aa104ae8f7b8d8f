/** Runs of the contract as its tests drive it. Each caller keeps an
    off-chain copy of a map, takes witnesses from it and then updates it the
    way it expects the contract to; the results are stated as postconditions. */
module SpyMasterScenarios {
  import opened Constants
  import opened MerkleMaps
  import opened MessageFlags
  import opened SpyMasterContract

  /** Deployment and root initialisation: counters at 0, roots as given. */
  method InitialState(nullRoot: Root, messageRoot: Root)
    returns (messages: nat, addresses: nat, storedNullRoot: Root, storedMessageRoot: Root)
    ensures messages == 0 && addresses == 0
    ensures storedNullRoot == nullRoot && storedMessageRoot == messageRoot
  {
    var spyMaster := new SpyMaster();
    spyMaster.InitMapRoots(nullRoot, messageRoot);
    messages, addresses := spyMaster.numMessages, spyMaster.numAddresses;
    storedNullRoot, storedMessageRoot := spyMaster.nullifierRoot, spyMaster.messageRoot;
  }

  /** Two different spies are whitelisted one after the other; the stored
      root follows the off-chain map and the count reaches 2. */
  method AddTwoSpies(spyOne: Key, spyTwo: Key)
    returns (first: Outcome, second: Outcome, addresses: nat, root: Root)
    requires spyOne != spyTwo
    ensures first == Accepted && second == Accepted
    ensures addresses == 2
    ensures root == MapRoot(map[spyOne := WHITELISTED_VALUE, spyTwo := WHITELISTED_VALUE])
  {
    var spyMaster := new SpyMaster();
    var nullifierMap: Entries := map[];
    spyMaster.InitMapRoots(MapRoot(nullifierMap), MapRoot(map[]));

    var spyWitness := GetWitness(nullifierMap, spyOne);
    nullifierMap := Assign(nullifierMap, spyOne, WHITELISTED_VALUE);
    first := spyMaster.AddEligibleAddress(spyWitness);
    assert spyMaster.nullifierRoot == MapRoot(nullifierMap);

    spyWitness := GetWitness(nullifierMap, spyTwo);
    nullifierMap := Assign(nullifierMap, spyTwo, WHITELISTED_VALUE);
    second := spyMaster.AddEligibleAddress(spyWitness);

    addresses, root := spyMaster.numAddresses, spyMaster.nullifierRoot;
    assert nullifierMap == map[spyOne := WHITELISTED_VALUE, spyTwo := WHITELISTED_VALUE];
  }

  /** Re-adding a whitelisted spy with the same witness is refused and
      leaves the root and the count as after the first add. */
  method AddSameSpyTwice(spy: Key)
    returns (first: Outcome, second: Outcome, addresses: nat, root: Root)
    ensures first == Accepted
    ensures second == Rejected(AlreadyWhitelisted)
    ensures addresses == 1 && root == MapRoot(map[spy := WHITELISTED_VALUE])
  {
    var spyMaster := new SpyMaster();
    var nullifierMap: Entries := map[];
    spyMaster.InitMapRoots(MapRoot(nullifierMap), MapRoot(map[]));

    var spyWitness := GetWitness(nullifierMap, spy);
    nullifierMap := Assign(nullifierMap, spy, WHITELISTED_VALUE);
    first := spyMaster.AddEligibleAddress(spyWitness);
    second := spyMaster.AddEligibleAddress(spyWitness);

    addresses, root := spyMaster.numAddresses, spyMaster.nullifierRoot;
    assert nullifierMap == map[spy := WHITELISTED_VALUE];
  }

  /** A spy that was never whitelisted cannot post, whatever the message. */
  method UnlistedSpyCannotPost(spy: Key, message: nat)
    returns (outcome: Outcome, messages: nat)
    ensures outcome == Rejected(SpyCannotSetMessage)
    ensures messages == 0
  {
    var spyMaster := new SpyMaster();
    var nullifierMap: Entries := map[];
    var messageMap: Entries := map[];
    spyMaster.InitMapRoots(MapRoot(nullifierMap), MapRoot(messageMap));

    outcome := spyMaster.UpdateMessages(
      GetWitness(nullifierMap, spy), GetWitness(messageMap, spy), message);
    messages := spyMaster.numMessages;
  }

  /** A whitelisted spy posts the valid message 449 once: the message root
      follows the off-chain map and the count reaches 1. A second post from
      the same spy, with any message, is refused and changes nothing. */
  method WhitelistedSpyPostsOnce(spy: Key, secondMessage: nat)
    returns (post: Outcome, repost: Outcome, messages: nat, messageRoot: Root, nullRoot: Root)
    ensures post == Accepted
    ensures repost == Rejected(SpyCannotSetMessage)
    ensures messages == 1
    ensures messageRoot == MapRoot(map[spy := 449])
    ensures nullRoot == MapRoot(map[spy := MESSAGE_SET_VALUE])
  {
    var spyMaster := WhitelistOne(spy);
    var nullWitness := GetWitness(map[], spy);
    var messageWitness := GetWitness(map[], spy);
    var messageMap := Assign(map[], spy, 449);

    AcceptedFixturesWithActiveRule();
    post := spyMaster.UpdateMessages(nullWitness, messageWitness, 449);
    assert spyMaster.messageRoot == MapRoot(messageMap);
    repost := spyMaster.UpdateMessages(nullWitness, messageWitness, secondMessage);

    messages, messageRoot, nullRoot := spyMaster.numMessages, spyMaster.messageRoot, spyMaster.nullifierRoot;
    assert messageMap == map[spy := 449];
  }

  /** A whitelisted spy whose message breaks the flag rules (1539 sets
      flags 1 and 2) is refused. */
  method InvalidFlagsRejected(spy: Key) returns (outcome: Outcome, messages: nat)
    ensures outcome == Rejected(InvalidMessageFlags)
    ensures messages == 0
  {
    var spyMaster := WhitelistOne(spy);
    RejectedFixtures();
    outcome := spyMaster.UpdateMessages(GetWitness(map[], spy), GetWitness(map[], spy), 1539);
    messages := spyMaster.numMessages;
  }

  /** The addresses 0 to 99 fill the whitelist; the 101st distinct address
      is refused for capacity and the root and count stay as they were. */
  method FillWhitelist() returns (last: Outcome, addresses: nat, rootUnchanged: bool)
    ensures last == Rejected(AddressLimitReached)
    ensures addresses == MAX_NUM_ADDRESSES
    ensures rootUnchanged
  {
    var spyMaster := new SpyMaster();
    var nullifierMap: Entries := map[];
    spyMaster.InitMapRoots(MapRoot(nullifierMap), MapRoot(map[]));

    var spy: Key := 0;
    while spy < MAX_NUM_ADDRESSES
      invariant spy <= MAX_NUM_ADDRESSES
      invariant spyMaster.numAddresses == spy
      invariant spyMaster.nullifierRoot == MapRoot(nullifierMap)
      invariant forall k :: k in nullifierMap ==> k < spy
    {
      var spyWitness := GetWitness(nullifierMap, spy);
      nullifierMap := Assign(nullifierMap, spy, WHITELISTED_VALUE);
      var added := spyMaster.AddEligibleAddress(spyWitness);
      spy := spy + 1;
    }

    var rootBefore := spyMaster.nullifierRoot;
    last := spyMaster.AddEligibleAddress(GetWitness(nullifierMap, spy));
    addresses := spyMaster.numAddresses;
    rootUnchanged := spyMaster.nullifierRoot == rootBefore;
  }

  /** Nothing ties the two witnesses of `updateMessages` to one address: a
      whitelisted spy's nullifier witness paired with another address's
      message witness is accepted. The spy is marked as posted while the
      message is stored under the other address, which stays unregistered. */
  method MismatchedWitnessesAccepted(spy: Key, other: Key)
    returns (outcome: Outcome, nullRoot: Root, messageRoot: Root)
    requires spy != other
    ensures outcome == Accepted
    ensures nullRoot == MapRoot(map[spy := MESSAGE_SET_VALUE])
    ensures messageRoot == MapRoot(map[other := 449])
  {
    var spyMaster := WhitelistOne(spy);
    AcceptedFixturesWithActiveRule();
    outcome := spyMaster.UpdateMessages(Witness(spy, map[]), Witness(other, map[]), 449);
    nullRoot, messageRoot := spyMaster.nullifierRoot, spyMaster.messageRoot;
  }

  /** The message 0 passes the flag rules, so a whitelisted spy may post it.
      The spy is then marked as posted and counted, while the message map,
      which already held 0 at that key, is left as it was. */
  method ZeroMessageLeavesNoTrace(spy: Key)
    returns (outcome: Outcome, messages: nat, messageRoot: Root, nullRoot: Root)
    ensures outcome == Accepted
    ensures messages == 1
    ensures messageRoot == MapRoot(map[])
    ensures nullRoot == MapRoot(map[spy := MESSAGE_SET_VALUE])
  {
    var spyMaster := WhitelistOne(spy);
    AcceptedFixturesWithNoActiveRule();
    outcome := spyMaster.UpdateMessages(GetWitness(map[], spy), GetWitness(map[], spy), 0);
    messages, messageRoot, nullRoot := spyMaster.numMessages, spyMaster.messageRoot, spyMaster.nullifierRoot;
    assert Assign(map[], spy, 0) == map[];
  }

  /** `initMapRoots` has no guard. Calling it again with an empty map after
      a spy was whitelisted resets the root but not the count, so the same
      spy can be whitelisted a second time and the count reaches 2 while
      the map holds one whitelisted key. */
  method ReinitialisationDropsTally(spy: Key)
    returns (readded: Outcome, addresses: nat, root: Root)
    ensures readded == Accepted
    ensures addresses == 2
    ensures root == MapRoot(map[spy := WHITELISTED_VALUE])
  {
    var spyMaster := WhitelistOne(spy);
    spyMaster.InitMapRoots(MapRoot(map[]), MapRoot(map[]));
    readded := spyMaster.AddEligibleAddress(GetWitness(map[], spy));
    addresses, root := spyMaster.numAddresses, spyMaster.nullifierRoot;
  }

  /** A freshly deployed contract, initialised with empty maps, in which
      `spy` alone has been whitelisted. */
  method WhitelistOne(spy: Key) returns (spyMaster: SpyMaster)
    ensures fresh(spyMaster)
    ensures spyMaster.nullifierRoot == MapRoot(map[spy := WHITELISTED_VALUE])
    ensures spyMaster.messageRoot == MapRoot(map[])
    ensures spyMaster.numAddresses == 1 && spyMaster.numMessages == 0
  {
    spyMaster := new SpyMaster();
    spyMaster.InitMapRoots(MapRoot(map[]), MapRoot(map[]));
    var added := spyMaster.AddEligibleAddress(Witness(spy, map[]));
  }
}
