/** The zero-tolerance comparator between a local simulation and a relay's: `compare` and `compare_result`. */
module RelaySim {
  import opened Wrappers
  import opened Numbers
  import opened Pools
  import opened SimulatorDb

  datatype SimStatus = Success | Reverted(reasonHex: string) | OutOfGas | HaltedOther(reason: string)

  datatype MismatchCategory = Profitability | Gas | Revert | StateDependency | BundleOutcome | Unknown

  datatype SimulationOutcome = SimulationOutcome(
    opportunityBlockNumber: nat,
    gasUsed: nat,
    status: SimStatus,
    simulatedProfitWei: u256)

  datatype LocalBundleShape = LocalBundleShape(expectedInclusionIndex: nat, expectedCoinbaseTransferWei: u256)

  datatype LocalStateFingerprint = LocalStateFingerprint(blockHash: nat, observations: seq<StateObservation>)

  datatype RelayOutcome = RelayOutcome(
    gasUsed: nat,
    status: SimStatus,
    measuredProfitWei: u256,
    stateObservations: seq<StateObservation>,
    inclusionIndex: nat,
    coinbaseTransferWei: u256)

  datatype RelaySimError =
    | NotConfigured
    | Transport(detail: string)
    | UnrecognizedResponse(detail: string)
    | UnsignedBundleUnavailable

  datatype Inputs = Inputs(local: SimulationOutcome, shape: LocalBundleShape, fingerprint: LocalStateFingerprint)

  /** What the `detail` text of an abort is built from. */
  datatype Detail =
    | Statuses(localSuccess: bool, relaySuccess: bool)
    | Indices(expected: nat, relayed: nat)
    | Coinbases(expectedWei: u256, relayedWei: u256)
    | SlotValues(local: StateObservation, relay: StateObservation)
    | Profits(localWei: u256, relayWei: u256)
    | GasUses(localGas: nat, relayGas: nat)
    | RelayError(error: RelaySimError)

  datatype MismatchAbort = MismatchAbort(
    category: MismatchCategory,
    detail: Detail,
    inputs: Inputs,
    relay: Option<RelayOutcome>)

  /** The relay's first entry for a slot. */
  function FirstFor(relay: seq<StateObservation>, account: Address, slot: Slot): (r: Option<StateObservation>)
    ensures r.Some? ==> r.value in relay && r.value.account == account && r.value.slot == slot
    ensures r.None? ==> forall o :: o in relay ==> o.account != account || o.slot != slot
  {
    if relay == [] then None
    else if relay[0].account == account && relay[0].slot == slot then Some(relay[0])
    else FirstFor(relay[1..], account, slot)
  }

  /** A slot the relay did not report never disagrees. */
  predicate Agrees(o: StateObservation, relay: seq<StateObservation>) {
    var found := FirstFor(relay, o.account, o.slot);
    found.Some? ==> found.value.value == o.value
  }

  /** The first local observation that disagrees with the relay's entry for its slot, and that entry. */
  function FirstDisagreement(local: seq<StateObservation>, relay: seq<StateObservation>)
    : (r: Option<(StateObservation, StateObservation)>)
    ensures r.None? <==> forall o :: o in local ==> Agrees(o, relay)
    ensures r.Some? ==>
      && r.value.0 in local && !Agrees(r.value.0, relay)
      && FirstFor(relay, r.value.0.account, r.value.0.slot) == Some(r.value.1)
  {
    if local == [] then None
    else if Agrees(local[0], relay) then
      assert local == [local[0]] + local[1..];
      FirstDisagreement(local[1..], relay)
    else Some((local[0], FirstFor(relay, local[0].account, local[0].slot).value))
  }

  function Compare(i: Inputs, relay: RelayOutcome): Result<(), MismatchAbort> {
    if i.local.status.Success? != relay.status.Success? then
      Err(MismatchAbort(Revert, Statuses(i.local.status.Success?, relay.status.Success?), i, Some(relay)))
    else if i.shape.expectedInclusionIndex != relay.inclusionIndex then
      Err(MismatchAbort(BundleOutcome, Indices(i.shape.expectedInclusionIndex, relay.inclusionIndex), i, Some(relay)))
    else if i.shape.expectedCoinbaseTransferWei != relay.coinbaseTransferWei then
      Err(MismatchAbort(BundleOutcome, Coinbases(i.shape.expectedCoinbaseTransferWei, relay.coinbaseTransferWei), i,
        Some(relay)))
    else match FirstDisagreement(i.fingerprint.observations, relay.stateObservations)
      case Some((ours, theirs)) => Err(MismatchAbort(StateDependency, SlotValues(ours, theirs), i, Some(relay)))
      case None =>
        if i.local.simulatedProfitWei != relay.measuredProfitWei then
          Err(MismatchAbort(Profitability, Profits(i.local.simulatedProfitWei, relay.measuredProfitWei), i,
            Some(relay)))
        else if i.local.gasUsed != relay.gasUsed then
          Err(MismatchAbort(Gas, GasUses(i.local.gasUsed, relay.gasUsed), i, Some(relay)))
        else Ok(())
  }

  function CompareResult(i: Inputs, relay: Result<RelayOutcome, RelaySimError>): Result<(), MismatchAbort> {
    match relay
    case Ok(outcome) => Compare(i, outcome)
    case Err(e) => Err(MismatchAbort(Unknown, RelayError(e), i, None))
  }

  // ----- precedence -------------------------------------------------------------------------

  /** When each category, taken by itself, is a mismatch. */
  ghost predicate Fails(c: MismatchCategory, i: Inputs, relay: RelayOutcome) {
    match c
    case Revert => i.local.status.Success? <==> !relay.status.Success?
    case BundleOutcome =>
      i.shape.expectedInclusionIndex != relay.inclusionIndex
        || i.shape.expectedCoinbaseTransferWei != relay.coinbaseTransferWei
    case StateDependency =>
      exists ours, j :: ours in i.fingerprint.observations
        && FirstAt(relay.stateObservations, j, ours.account, ours.slot)
                        && relay.stateObservations[j].value != ours.value
    case Profitability => i.local.simulatedProfitWei != relay.measuredProfitWei
    case Gas => i.local.gasUsed != relay.gasUsed
    case Unknown => false
  }

  ghost predicate FirstAt(relay: seq<StateObservation>, j: int, account: Address, slot: Slot) {
    && 0 <= j < |relay| && relay[j].account == account && relay[j].slot == slot
    && forall k :: 0 <= k < j ==> relay[k].account != account || relay[k].slot != slot
  }

  const PRECEDENCE: seq<MismatchCategory> := [Revert, BundleOutcome, StateDependency, Profitability, Gas]

  lemma {:induction false} FirstForPosition(relay: seq<StateObservation>, account: Address, slot: Slot) returns (j: int)
    requires FirstFor(relay, account, slot).Some?
    ensures FirstAt(relay, j, account, slot) && FirstFor(relay, account, slot) == Some(relay[j])
  {
    if relay[0].account == account && relay[0].slot == slot {
      j := 0;
    } else {
      var k := FirstForPosition(relay[1..], account, slot);
      j := k + 1;
      forall m | 0 <= m < j ensures relay[m].account != account || relay[m].slot != slot {
        if m > 0 { assert relay[m] == relay[1..][m - 1]; }
      }
    }
  }

  lemma FirstIsUnique(relay: seq<StateObservation>, j: int, account: Address, slot: Slot)
    requires FirstAt(relay, j, account, slot)
    ensures FirstFor(relay, account, slot) == Some(relay[j])
  {
    assert relay[j] in relay;
    var k := FirstForPosition(relay, account, slot);
  }

  lemma DisagreementMeans(local: seq<StateObservation>, relay: seq<StateObservation>)
    ensures FirstDisagreement(local, relay).Some? <==>
            exists ours, j :: ours in local && FirstAt(relay, j, ours.account, ours.slot)
              && relay[j].value != ours.value
  {
    hide FirstDisagreement, FirstFor;
    var d := FirstDisagreement(local, relay);
    if d.Some? {
      var ours := d.value.0;
      var j := FirstForPosition(relay, ours.account, ours.slot);
      assert FirstAt(relay, j, ours.account, ours.slot);
    } else {
      forall ours, j | ours in local && 0 <= j < |relay| && FirstAt(relay, j, ours.account, ours.slot)
        ensures relay[j].value == ours.value
      {
        FirstIsUnique(relay, j, ours.account, ours.slot);
        assert Agrees(ours, relay);
      }
    }
  }

  /** `Ok` exactly when no category is a mismatch; otherwise the first failing one in the order of precedence. */
  lemma HighestPrecedenceWins(i: Inputs, relay: RelayOutcome)
    ensures var r := Compare(i, relay);
            && (r.Ok? <==> forall k :: 0 <= k < |PRECEDENCE| ==> !Fails(PRECEDENCE[k], i, relay))
            && (r.Err? ==> exists k :: IsFirstFailure(k, i, relay) && r.error.category == PRECEDENCE[k])
            && (r.Err? ==> r.error.inputs == i && r.error.relay == Some(relay))
  {
    hide FirstDisagreement, Agrees, FirstAt;
    DisagreementMeans(i.fingerprint.observations, relay.stateObservations);
    var r := Compare(i, relay);
    assert Fails(StateDependency, i, relay) <==>
      FirstDisagreement(i.fingerprint.observations, relay.stateObservations).Some?;
    if r.Ok? {
      forall k | 0 <= k < |PRECEDENCE| ensures !Fails(PRECEDENCE[k], i, relay) {
        assert PRECEDENCE[k] in PRECEDENCE;
      }
    } else {
      var k := match r.error.category
        case Revert => 0
        case BundleOutcome => 1
        case StateDependency => 2
        case Profitability => 3
        case _ => 4;
      assert IsFirstFailure(k, i, relay);
    }
  }

  /** The `i`-th local observation is the first to disagree, and the relay's `j`-th is the first for its slot. */
  ghost predicate FirstDiffers(local: seq<StateObservation>, relay: seq<StateObservation>, i: int, j: int) {
    && 0 <= i < |local| && FirstAt(relay, j, local[i].account, local[i].slot) && relay[j].value != local[i].value
    && forall m, n :: 0 <= m < i && FirstAt(relay, n, local[m].account, local[m].slot) ==>
         relay[n].value == local[m].value
  }

  /** The two values an abort shows are those that differ: local first, then the relay's. */
  ghost predicate ShowsDifference(i: Inputs, relay: RelayOutcome, category: MismatchCategory, detail: Detail) {
    match category
    case Revert => detail == Statuses(i.local.status.Success?, relay.status.Success?)
    case BundleOutcome =>
      if i.shape.expectedInclusionIndex != relay.inclusionIndex
      then detail == Indices(i.shape.expectedInclusionIndex, relay.inclusionIndex)
      else detail == Coinbases(i.shape.expectedCoinbaseTransferWei, relay.coinbaseTransferWei)
    case StateDependency =>
      exists m, n :: FirstDiffers(i.fingerprint.observations, relay.stateObservations, m, n)
        && detail == SlotValues(i.fingerprint.observations[m], relay.stateObservations[n])
    case Profitability => detail == Profits(i.local.simulatedProfitWei, relay.measuredProfitWei)
    case Gas => detail == GasUses(i.local.gasUsed, relay.gasUsed)
    case Unknown => false
  }

  lemma {:induction false} FirstDisagreementIs(local: seq<StateObservation>, relay: seq<StateObservation>)
    returns (i: int, j: int)
    requires FirstDisagreement(local, relay).Some?
    ensures FirstDiffers(local, relay, i, j) && FirstDisagreement(local, relay) == Some((local[i], relay[j]))
  {
    hide FirstFor;
    if Agrees(local[0], relay) {
      var k, l := FirstDisagreementIs(local[1..], relay);
      i, j := k + 1, l;
      forall m, n | 0 <= m < i && FirstAt(relay, n, local[m].account, local[m].slot)
        ensures relay[n].value == local[m].value
      {
        FirstIsUnique(relay, n, local[m].account, local[m].slot);
        if m > 0 {
          assert local[m] == local[1..][m - 1];
          assert FirstAt(relay, n, local[1..][m - 1].account, local[1..][m - 1].slot);
        }
      }
    } else {
      i := 0;
      j := FirstForPosition(relay, local[0].account, local[0].slot);
    }
  }

  /** Whatever the category, an abort shows the difference it is about. */
  lemma AbortShowsDifference(i: Inputs, relay: Result<RelayOutcome, RelaySimError>)
    requires CompareResult(i, relay).Err?
    ensures var abort := CompareResult(i, relay).error;
            match relay
            case Ok(outcome) => ShowsDifference(i, outcome, abort.category, abort.detail)
            case Err(e) => abort.detail == RelayError(e)
  {
    hide FirstDisagreement, FirstDiffers;
    if relay.Ok? && CompareResult(i, relay).error.category == StateDependency {
      var m, n := FirstDisagreementIs(i.fingerprint.observations, relay.value.stateObservations);
    }
  }

  ghost predicate IsFirstFailure(k: int, i: Inputs, relay: RelayOutcome) {
    && 0 <= k < |PRECEDENCE| && Fails(PRECEDENCE[k], i, relay)
    && forall m :: 0 <= m < k ==> !Fails(PRECEDENCE[m], i, relay)
  }

  /** A relay error and only that is `Unknown`, and only then the abort carries no relay outcome. */
  lemma UnknownIsRelayError(i: Inputs, relay: Result<RelayOutcome, RelaySimError>)
    ensures var r := CompareResult(i, relay);
            && (relay.Err? <==> r.Err? && r.error.category == Unknown)
            && (r.Err? ==> r.error.inputs == i && (r.error.relay == if relay.Ok? then Some(relay.value) else None))
  {
    hide FirstDisagreement;
  }

  // ----- order of the observations ----------------------------------------------------------

  function CategoryOf(r: Result<(), MismatchAbort>): Option<MismatchCategory> {
    if r.Ok? then None else Some(r.error.category)
  }

  /** Every entry of `relay` for a slot that `local` observed holds the same value. */
  ghost predicate OneValuePerSlot(local: seq<StateObservation>, relay: seq<StateObservation>) {
    forall o, a, b :: o in local && a in relay && b in relay && SameSlot(o, a) && SameSlot(o, b) ==> a.value == b.value
  }

  predicate SameSlot(a: StateObservation, b: StateObservation) {
    a.account == b.account && a.slot == b.slot
  }

  lemma SameMembers(a: seq<StateObservation>, b: seq<StateObservation>)
    requires multiset(a) == multiset(b)
    ensures forall o :: o in a <==> o in b
  {
    forall o ensures o in a <==> o in b {
      assert o in a <==> o in multiset(a);
    }
  }

  /** Local order never matters; the relay's does not when no slot that was observed is reported with two values. */
  lemma OrderDoesNotMatter(i: Inputs, i': Inputs, relay: RelayOutcome, relay': RelayOutcome)
    requires i' == i.(fingerprint := i.fingerprint.(observations := i'.fingerprint.observations))
    requires relay' == relay.(stateObservations := relay'.stateObservations)
    requires multiset(i.fingerprint.observations) == multiset(i'.fingerprint.observations)
    requires multiset(relay.stateObservations) == multiset(relay'.stateObservations)
    requires relay == relay' || OneValuePerSlot(i.fingerprint.observations, relay.stateObservations)
    ensures CategoryOf(Compare(i, relay)) == CategoryOf(Compare(i', relay'))
  {
    hide FirstDisagreement, FirstFor;
    var local, local' := i.fingerprint.observations, i'.fingerprint.observations;
    var theirs, theirs' := relay.stateObservations, relay'.stateObservations;
    SameMembers(local, local');
    SameMembers(theirs, theirs');
    forall o | o in local ensures Agrees(o, theirs) == Agrees(o, theirs') {
      var x, y := FirstFor(theirs, o.account, o.slot), FirstFor(theirs', o.account, o.slot);
      if x.Some? && y.Some? { assert SameSlot(o, x.value) && SameSlot(o, y.value); }
    }
    assert FirstDisagreement(local, theirs).None? == FirstDisagreement(local', theirs').None?;
  }

  ghost predicate SomeOrderDisagrees(local: seq<StateObservation>, relay: seq<StateObservation>) {
    exists relay' :: multiset(relay') == multiset(relay) && FirstDisagreement(local, relay').Some?
  }

  /**
   * And that is exactly the condition: where the state check passes, every other relay order passes it too only then.
   */
  lemma OrderMattersExactlyWhen(local: seq<StateObservation>, relay: seq<StateObservation>)
    requires FirstDisagreement(local, relay).None?
    ensures SomeOrderDisagrees(local, relay) <==> !OneValuePerSlot(local, relay)
  {
    hide FirstDisagreement, FirstFor, OneValuePerSlot, Agrees;
    if !OneValuePerSlot(local, relay) {
      var relay' := OddEntryFirst(local, relay);
    } else if SomeOrderDisagrees(local, relay) {
      var relay' :| multiset(relay') == multiset(relay) && FirstDisagreement(local, relay').Some?;
      PassesInEveryOrder(local, relay, relay');
    }
  }

  lemma PassesInEveryOrder(local: seq<StateObservation>, relay: seq<StateObservation>, relay': seq<StateObservation>)
    requires
      && FirstDisagreement(local, relay).None?
      && OneValuePerSlot(local, relay)
      && multiset(relay') == multiset(relay)
    ensures FirstDisagreement(local, relay').None?
  {
    hide FirstDisagreement, FirstFor;
    SameMembers(relay, relay');
    forall o | o in local ensures Agrees(o, relay') {
      var x, y := FirstFor(relay, o.account, o.slot), FirstFor(relay', o.account, o.slot);
      assert Agrees(o, relay);
      if y.Some? { assert SameSlot(o, x.value) && SameSlot(o, y.value); }
    }
  }

  /** Moving an entry with another value to the front. */
  lemma OddEntryFirst(local: seq<StateObservation>, relay: seq<StateObservation>)
    returns (relay': seq<StateObservation>)
    requires !OneValuePerSlot(local, relay)
    ensures multiset(relay') == multiset(relay) && FirstDisagreement(local, relay').Some?
  {
    hide FirstDisagreement;
    var o, a, b :| o in local && a in relay && b in relay && SameSlot(o, a) && SameSlot(o, b) && a.value != b.value;
    var odd := if a.value != o.value then a else b;
    var k :| 0 <= k < |relay| && relay[k] == odd;
    relay' := [odd] + (relay[..k] + relay[k + 1..]);
    MoveToFront(relay, k);
    assert FirstFor(relay', o.account, o.slot) == Some(odd);
    assert !Agrees(o, relay');
  }

  lemma MoveToFront(relay: seq<StateObservation>, k: nat)
    requires k < |relay|
    ensures multiset([relay[k]] + (relay[..k] + relay[k + 1..])) == multiset(relay)
  {
    assert relay == relay[..k] + [relay[k]] + relay[k + 1..];
  }

  // ----- comparing a run with itself --------------------------------------------------------

  /** What a relay reporting exactly the local run would answer. */
  function Mirror(i: Inputs): RelayOutcome {
    RelayOutcome(i.local.gasUsed, i.local.status, i.local.simulatedProfitWei, i.fingerprint.observations,
                 i.shape.expectedInclusionIndex, i.shape.expectedCoinbaseTransferWei)
  }

  /**
   * A run agrees with its own mirror exactly when it never observed two values of one slot; else: `StateDependency`.
   */
  lemma SelfComparison(i: Inputs)
    ensures Compare(i, Mirror(i)).Ok? <==> OneValuePerSlot(i.fingerprint.observations, i.fingerprint.observations)
    ensures Compare(i, Mirror(i)).Err? ==> Compare(i, Mirror(i)).error.category == StateDependency
  {
    hide FirstDisagreement, FirstFor;
    var obs := i.fingerprint.observations;
    if OneValuePerSlot(obs, obs) {
      forall o | o in obs ensures Agrees(o, obs) {
        var x := FirstFor(obs, o.account, o.slot);
        assert SameSlot(o, o) && SameSlot(o, x.value);
      }
    } else {
      var o, a, b :| o in obs && a in obs && b in obs && SameSlot(o, a) && SameSlot(o, b) && a.value != b.value;
      assert FirstFor(obs, a.account, a.slot) == FirstFor(obs, b.account, b.slot);
      assert !(Agrees(a, obs) && Agrees(b, obs));
    }
  }

  /** A recorded strict run that commits nothing observes one value per slot, whatever the client does. */
  lemma CommitFreeRunMirrorsItself<S(!new)>(c: Client<S, StrictMissingError>, s: S, ws: seq<Write>, n: nat, i: Inputs)
    requires var run := Converse(Recording(StrictDb()), c, s, Recorded(After(ws), []), n);
             && i.fingerprint.observations == run.db.observed
             && forall x :: x in run.exchanges ==> !x.request.DoCommit?
    ensures Compare(i, Mirror(i)).Ok?
  {
    hide Compare, Latest, Named, After, Converse;
    var run := Converse(Recording(StrictDb()), c, s, Recorded(After(ws), []), n);
    var obs := run.db.observed;
    forall o | o in obs ensures OrZero(Latest(ws, o.account, o.slot)) == o.value {
      var j :| 0 <= j < |obs| && obs[j] == o;
      var k := RecordedValuesAreLatest(c, s, ws, n, j);
      NothingCommitted(run.exchanges[..k]);
      assert ws + [] == ws;
    }
    forall o, a, b | o in obs && a in obs && b in obs && SameSlot(o, a) && SameSlot(o, b) ensures a.value == b.value {
      assert OrZero(Latest(ws, a.account, a.slot)) == a.value && OrZero(Latest(ws, b.account, b.slot)) == b.value;
    }
    SelfComparison(i);
  }

  lemma {:induction false} NothingCommitted<E>(xs: seq<Exchange<E>>)
    requires forall x :: x in xs ==> !x.request.DoCommit?
    ensures CommitsOf(xs) == []
  {
    if xs != [] {
      NothingCommitted(xs[..|xs| - 1]);
      assert xs[|xs| - 1] in xs;
    }
  }

  /** What is recorded when a slot is read, written and read again. */
  function ReadCommitRead(a: Address, slot: Slot, info: AccountInfo): seq<StateObservation> {
    var db := Recording(StrictDb());
    var d0 := Recorded(InsertStorage(EMPTY, a, slot, 0), []);
    var d1 := Serve(db, d0, AskStorage(a, slot)).1;
    var d2 := Serve(db, d1, DoCommit(map[a := Change(true, false, false, info, map[slot := 1 as u256])])).1;
    Serve(db, d2, AskStorage(a, slot)).1.observed
  }

  lemma BothValuesAreRecorded(a: Address, slot: Slot, info: AccountInfo)
    ensures ReadCommitRead(a, slot, info) == [StateObservation(a, slot, 0), StateObservation(a, slot, 1)]
  {
    hide Serve, Commit, InsertStorage;
    var db := Recording(StrictDb());
    var changes := map[a := Change(true, false, false, info, map[slot := 1 as u256])];
    var d0 := Recorded(InsertStorage(EMPTY, a, slot, 0), []);
    ApplyOne(EMPTY, StorageInserted(a, slot, 0), a, slot);
    ApplyOne(d0.inner, ChangesCommitted(changes), a, slot);
    hide Apply, StoredBy, ClearedBy, NamedBy;
    ServeRecording(StrictDb(), d0, AskStorage(a, slot));
    ServeStrict(d0.inner, AskStorage(a, slot));
    var d1 := Serve(db, d0, AskStorage(a, slot)).1;
    ServeRecording(StrictDb(), d1, DoCommit(changes));
    ServeStrict(d1.inner, DoCommit(changes));
    var d2 := Serve(db, d1, DoCommit(changes)).1;
    ServeRecording(StrictDb(), d2, AskStorage(a, slot));
    ServeStrict(d2.inner, AskStorage(a, slot));
  }

  /** With a commit in between it may: such a run does not agree with its own mirror. */
  lemma ReadCommitReadDoesNotMirrorItself(a: Address, slot: Slot, info: AccountInfo, i: Inputs)
    requires i.fingerprint.observations == ReadCommitRead(a, slot, info)
    ensures Compare(i, Mirror(i)).Err? && Compare(i, Mirror(i)).error.category == StateDependency
  {
    hide Compare, ReadCommitRead;
    BothValuesAreRecorded(a, slot, info);
    var first, second := i.fingerprint.observations[0], i.fingerprint.observations[1];
    assert SameSlot(first, first) && SameSlot(first, second);
    SelfComparison(i);
  }
}
