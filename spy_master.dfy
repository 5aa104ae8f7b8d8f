/** The SpyMaster contract: a whitelist of at most 100 addresses, each of
    which may post one message whose flags pass the validator. The contract
    keeps two Merkle map roots and two counters and proves every read and
    write of a map by replaying a caller-supplied witness. */
module SpyMasterContract {
  import opened Constants
  import opened MerkleMaps
  import opened MessageFlags

  /** Every key of the nullifier map holds a status the contract writes:
      whitelisted or message set (unregistered keys are absent). */
  ghost predicate StatusesWritten(m: Entries)
  {
    forall k :: k in m ==> m[k] == WHITELISTED_VALUE || m[k] == MESSAGE_SET_VALUE
  }

  /** The addresses whose status is "message set". */
  ghost function Posted(m: Entries): set<Key>
  {
    set k | k in m && m[k] == MESSAGE_SET_VALUE
  }

  /** No key's status is lower in `after` than in `before`. */
  ghost predicate NoStatusRegresses(before: Entries, after: Entries)
  {
    forall k :: Lookup(before, k) <= Lookup(after, k)
  }

  /** Whitelisting an unregistered key keeps the statuses well formed, adds
      one registered key and leaves the posted keys as they were. */
  lemma WhitelistStepTally(m: Entries, k: Key)
    requires StatusesWritten(m) && Lookup(m, k) == UNINITIALIZED_VALUE
    ensures StatusesWritten(Assign(m, k, WHITELISTED_VALUE))
    ensures |Assign(m, k, WHITELISTED_VALUE).Keys| == |m.Keys| + 1
    ensures Posted(Assign(m, k, WHITELISTED_VALUE)) == Posted(m)
  {
    var m' := Assign(m, k, WHITELISTED_VALUE);
    assert k !in m;
    assert m'.Keys == m.Keys + {k};
    forall j ensures j in Posted(m') <==> j in Posted(m) {
      assert Lookup(m', j) == if j == k then WHITELISTED_VALUE else Lookup(m, j);
    }
  }

  /** Marking a whitelisted key as posted keeps the statuses well formed,
      keeps the registered keys and adds one posted key. */
  lemma MessageStepTally(m: Entries, k: Key)
    requires StatusesWritten(m) && Lookup(m, k) == WHITELISTED_VALUE
    ensures StatusesWritten(Assign(m, k, MESSAGE_SET_VALUE))
    ensures Assign(m, k, MESSAGE_SET_VALUE).Keys == m.Keys
    ensures |Posted(Assign(m, k, MESSAGE_SET_VALUE))| == |Posted(m)| + 1
  {
    var m' := Assign(m, k, MESSAGE_SET_VALUE);
    assert k in m && m[k] == WHITELISTED_VALUE;
    assert k !in Posted(m);
    forall j ensures j in Posted(m') <==> j in Posted(m) + {k} {
      assert Lookup(m', j) == if j == k then MESSAGE_SET_VALUE else Lookup(m, j);
    }
    assert Posted(m') == Posted(m) + {k};
  }

  /** The contract's on-chain state. */
  class SpyMaster {
    var nullifierRoot: Root
    var messageRoot: Root
    var numMessages: nat
    var numAddresses: nat

    /** The counters agree with the nullifier map: `numAddresses` keys are
        registered and `numMessages` of them have posted. This holds from
        initialisation with an empty nullifier map onwards, until
        `initMapRoots` is called again. */
    ghost predicate Tallied()
      reads this
    {
      && nullifierRoot.MapRoot?
      && StatusesWritten(nullifierRoot.entries)
      && numAddresses == |nullifierRoot.entries.Keys|
      && numMessages == |Posted(nullifierRoot.entries)|
    }

    /** Deployment with `init`: both counters are 0 and both roots still hold
        the zero field element every fresh state field starts with. */
    constructor ()
      ensures nullifierRoot == ZeroField && messageRoot == ZeroField
      ensures numMessages == 0 && numAddresses == 0
    {
      nullifierRoot := ZeroField;
      messageRoot := ZeroField;
      numMessages := 0;
      numAddresses := 0;
    }

    /** `initMapRoots`: stores the two roots the caller supplies, with no
        guard, and leaves the counters alone. */
    method InitMapRoots(nullInitialRoot: Root, messageInitialRoot: Root)
      modifies this
      ensures nullifierRoot == nullInitialRoot && messageRoot == messageInitialRoot
      ensures numMessages == old(numMessages) && numAddresses == old(numAddresses)
      ensures old(numAddresses) == 0 && old(numMessages) == 0 && nullInitialRoot == MapRoot(map[])
        ==> Tallied()
    {
      nullifierRoot := nullInitialRoot;
      messageRoot := messageInitialRoot;
      assert nullInitialRoot == MapRoot(map[]) ==> Posted(nullifierRoot.entries) == {};
    }

    /** `addEligibleAddress`: whitelists the witness's key if the whitelist
        has room and the key is unregistered; otherwise nothing changes. */
    method AddEligibleAddress(keyWitness: Witness) returns (outcome: Outcome)
      modifies this
      ensures outcome == Rejected(AddressLimitReached) <==> old(numAddresses) >= MAX_NUM_ADDRESSES
      ensures outcome == Rejected(AlreadyWhitelisted) <==>
        old(numAddresses) < MAX_NUM_ADDRESSES
        && ComputeRootAndKey(keyWitness, UNINITIALIZED_VALUE).0 != old(nullifierRoot)
      ensures outcome == Accepted <==>
        old(numAddresses) < MAX_NUM_ADDRESSES
        && ComputeRootAndKey(keyWitness, UNINITIALIZED_VALUE).0 == old(nullifierRoot)
      // a key that is already whitelisted or has posted cannot be added again
      ensures old(numAddresses) < MAX_NUM_ADDRESSES && old(nullifierRoot).MapRoot?
        && Lookup(old(nullifierRoot).entries, keyWitness.key) != UNINITIALIZED_VALUE
        ==> outcome == Rejected(AlreadyWhitelisted)
      ensures outcome.Accepted? ==>
        && old(nullifierRoot).MapRoot?
        && Lookup(old(nullifierRoot).entries, keyWitness.key) == UNINITIALIZED_VALUE
        && nullifierRoot == MapRoot(Assign(old(nullifierRoot).entries, keyWitness.key, WHITELISTED_VALUE))
        && NoStatusRegresses(old(nullifierRoot).entries, nullifierRoot.entries)
        && numAddresses == old(numAddresses) + 1
        && messageRoot == old(messageRoot) && numMessages == old(numMessages)
      ensures outcome.Rejected? ==> unchanged(this)
      // the capacity bound: an accepted add never takes the count past 100
      ensures outcome.Accepted? ==> numAddresses <= MAX_NUM_ADDRESSES
      ensures old(Tallied()) ==> Tallied()
    {
      // check the address count against the capacity
      var numAddressesBefore := numAddresses;
      if numAddressesBefore >= MAX_NUM_ADDRESSES {
        return Rejected(AddressLimitReached);
      }

      // replaying the witness with 0 must give the stored root
      var nullRootBefore := nullifierRoot;
      var (derivedNullRoot, _) := ComputeRootAndKey(keyWitness, UNINITIALIZED_VALUE);
      if derivedNullRoot != nullRootBefore {
        return Rejected(AlreadyWhitelisted);
      }

      // write 1 at the key and count the address
      var (nullRootAfter, _) := ComputeRootAndKey(keyWitness, WHITELISTED_VALUE);
      ReplayUpdates(keyWitness, UNINITIALIZED_VALUE, WHITELISTED_VALUE, nullRootBefore);
      if Tallied() {
        WhitelistStepTally(nullRootBefore.entries, keyWitness.key);
      }
      nullifierRoot := nullRootAfter;
      numAddresses := numAddressesBefore + 1;
      outcome := Accepted;
    }

    /** `updateMessages`: stores `message` for a whitelisted key that has not
        posted, if its flags are valid, and marks the key as posted;
        otherwise nothing changes. The two witnesses are checked each
        against its own map only: nothing ties their keys together. */
    method UpdateMessages(nullKeyWitness: Witness, messageKeyWitness: Witness, message: nat)
      returns (outcome: Outcome)
      modifies this
      ensures outcome == Rejected(SpyCannotSetMessage) <==>
        ComputeRootAndKey(nullKeyWitness, WHITELISTED_VALUE).0 != old(nullifierRoot)
      ensures outcome == Rejected(MessageAlreadySet) <==>
        && ComputeRootAndKey(nullKeyWitness, WHITELISTED_VALUE).0 == old(nullifierRoot)
        && ComputeRootAndKey(messageKeyWitness, UNINITIALIZED_VALUE).0 != old(messageRoot)
      ensures outcome == Rejected(InvalidMessageFlags) <==>
        && ComputeRootAndKey(nullKeyWitness, WHITELISTED_VALUE).0 == old(nullifierRoot)
        && ComputeRootAndKey(messageKeyWitness, UNINITIALIZED_VALUE).0 == old(messageRoot)
        && !ValidateMessage(message)
      ensures outcome == Accepted <==>
        && ComputeRootAndKey(nullKeyWitness, WHITELISTED_VALUE).0 == old(nullifierRoot)
        && ComputeRootAndKey(messageKeyWitness, UNINITIALIZED_VALUE).0 == old(messageRoot)
        && ValidateMessage(message)
      // an unregistered key, or one that has already posted, is refused
      ensures old(nullifierRoot).MapRoot?
        && Lookup(old(nullifierRoot).entries, nullKeyWitness.key) != WHITELISTED_VALUE
        ==> outcome == Rejected(SpyCannotSetMessage)
      ensures outcome.Accepted? ==>
        && old(nullifierRoot).MapRoot? && old(messageRoot).MapRoot?
        && Lookup(old(nullifierRoot).entries, nullKeyWitness.key) == WHITELISTED_VALUE
        && Lookup(old(messageRoot).entries, messageKeyWitness.key) == UNINITIALIZED_VALUE
        && messageRoot == MapRoot(Assign(old(messageRoot).entries, messageKeyWitness.key, message))
        && nullifierRoot == MapRoot(Assign(old(nullifierRoot).entries, nullKeyWitness.key, MESSAGE_SET_VALUE))
        && NoStatusRegresses(old(nullifierRoot).entries, nullifierRoot.entries)
        && numMessages == old(numMessages) + 1
        && numAddresses == old(numAddresses)
      ensures outcome.Rejected? ==> unchanged(this)
      ensures old(Tallied()) ==> Tallied()
    {
      // the nullifier witness must prove the key holds 1
      var nullRootBefore := nullifierRoot;
      var (derivedNullRoot, _) := ComputeRootAndKey(nullKeyWitness, WHITELISTED_VALUE);
      if derivedNullRoot != nullRootBefore {
        return Rejected(SpyCannotSetMessage);
      }

      // the message witness must prove its key holds 0
      var messageRootBefore := messageRoot;
      var (derivedMessageRoot, _) := ComputeRootAndKey(messageKeyWitness, UNINITIALIZED_VALUE);
      if derivedMessageRoot != messageRootBefore {
        return Rejected(MessageAlreadySet);
      }

      // the message flags must be valid
      var areFlagsValid := ValidateMessage(message);
      if !areFlagsValid {
        return Rejected(InvalidMessageFlags);
      }

      // store the message
      var (messageRootAfter, _) := ComputeRootAndKey(messageKeyWitness, message);
      ReplayUpdates(messageKeyWitness, UNINITIALIZED_VALUE, message, messageRootBefore);
      messageRoot := messageRootAfter;

      // mark the key as posted
      var (nullRootAfter, _) := ComputeRootAndKey(nullKeyWitness, MESSAGE_SET_VALUE);
      ReplayUpdates(nullKeyWitness, WHITELISTED_VALUE, MESSAGE_SET_VALUE, nullRootBefore);
      if old(Tallied()) {
        MessageStepTally(nullRootBefore.entries, nullKeyWitness.key);
      }
      nullifierRoot := nullRootAfter;

      // count the message
      var numMessagesBefore := numMessages;
      numMessages := numMessagesBefore + 1;
      outcome := Accepted;
    }
  }
}
