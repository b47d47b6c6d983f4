/** Accepting a tap once: ApplicationVerifier of high_level/verification.rs, over a faithful counter store. */
module Verification {
  import opened Wrappers
  import opened Octets
  import opened Aes
  import opened Suite
  import opened Hex
  import opened Sdm
  import opened SdmCrypto
  import V = SdmVerifier
  import KeyDiversification

  datatype ApplicationVerifier = ApplicationVerifier(verifier: V.Verifier, prefix: Option<seq<byte>>, systemIdentifier: seq<byte>)

  datatype Readout = Readout(uid: UidBytes, readCtr: Option<nat>, tamperStatus: Option<(byte, byte)>)

  datatype VerificationError =
    | TagValidationFailed(settings: FileSettingsError)
    | SdmFailed(sdm: SdmError)
    | StoreError
    | ReadCounterTooLow(stored: nat, actual: nat)
    | NoUid
    | PrefixMismatch

  /** A key number is 0 to 4, and a system identifier has at most 16 bytes. */
  predicate IsApplication(app: ApplicationVerifier) {
    app.verifier.fileReadKey < 5 && |app.systemIdentifier| <= 16
  }

  function PiccKey(aes: Aes128, masterKey: Block): Block {
    KeyDiversification.Diversified(AesCipher(aes, masterKey), KeyDiversification.PICC)
  }

  /** `get_key`: the key a provisioned tag holds at `keyNo`. */
  function GetKey(aes: Aes128, masterKey: Block, keyNo: byte, uid: UidBytes, systemId: seq<byte>): Block
    requires |systemId| <= 16
  {
    if keyNo == 1 then PiccKey(aes, masterKey)
    else KeyDiversification.Diversified(AesCipher(aes, masterKey), KeyDiversification.TagInput(uid, keyNo, systemId))
  }

  predicate StartsWith(s: seq<byte>, prefix: seq<byte>) {
    |prefix| <= |s| && s[..|prefix|] == prefix
  }

  /** Everything verification finds out before it asks the counter store. */
  function Read(aes: Aes128, app: ApplicationVerifier, masterKey: Block, input: seq<byte>): Result<Readout, VerificationError>
    requires IsApplication(app)
  {
    var valid := V.Validate(app.verifier);
    if app.prefix.Some? && !StartsWith(input, app.prefix.value) then Err(PrefixMismatch)
    else if valid.Err? then Err(TagValidationFailed(valid.error))
    else
      V.ValidIsOrdered(app.verifier);
      var picc := V.ExtractPicc(aes, app.verifier, input, PiccKey(aes, masterKey));
      if picc.Err? then Err(SdmFailed(picc.error))
      else if picc.value.uid.None? then Err(NoUid)
      else
        var uid := picc.value.uid.value;
        var fileReadKey := GetKey(aes, masterKey, app.verifier.fileReadKey, uid, app.systemIdentifier);
        var out := V.Verify(aes, app.verifier, input, fileReadKey, PiccKey(aes, masterKey));
        if out.Err? then Err(SdmFailed(out.error))
        else Ok(Readout(uid, out.value.readCtr, out.value.tamperStatus))
  }

  /** A faithful store: it may fail, but what it answers is what was last set, or zero. */
  class CounterStore {
    var counters: map<UidBytes, nat>

    constructor ()
      ensures counters == map[]
    {
      counters := map[];
    }

    function Stored(uid: UidBytes): nat
      reads this
    {
      if uid in counters then counters[uid] else 0
    }

    method Get(uid: UidBytes) returns (r: Result<nat, VerificationError>)
      ensures r == Ok(Stored(uid)) || r == Err(StoreError)
    {
      var fails := *;
      r := if fails then Err(StoreError) else Ok(Stored(uid));
    }

    method Set(uid: UidBytes, readCounter: nat) returns (r: Result<(), VerificationError>)
      modifies this
      ensures counters == if r.Ok? then old(counters)[uid := readCounter] else old(counters)
      ensures r.Err? ==> r.error == StoreError
    {
      var fails := *;
      if fails {
        return Err(StoreError);
      }
      counters := counters[uid := readCounter];
      return Ok(());
    }
  }

  /**
    `verify`: a readout with a counter is accepted exactly when its counter is above the stored one
    and the store obeys, and then the counter is stored; a refusal leaves the store alone.
   */
  method Verify(aes: Aes128, app: ApplicationVerifier, masterKey: Block, input: seq<byte>, store: CounterStore)
    returns (r: Result<Readout, VerificationError>)
    requires IsApplication(app)
    modifies store
    ensures var read := Read(aes, app, masterKey, input);
      && (r.Ok? ==> r == read)
      && (read.Err? ==> r == read)
      && (read.Ok? && read.value.readCtr.None? ==> r == read && store.counters == old(store.counters))
      && (read.Ok? && read.value.readCtr.Some? ==>
            var uid, ctr := read.value.uid, read.value.readCtr.value;
            && (r.Ok? ==> ctr > old(store.Stored(uid)) && store.counters == old(store.counters)[uid := ctr])
            && (r.Err? ==> r.error == StoreError
                           || (ctr <= old(store.Stored(uid)) && r.error == ReadCounterTooLow(old(store.Stored(uid)), ctr))))
    ensures r.Err? ==> store.counters == old(store.counters)
  {
    hide V.Validate, KeyDiversification.Diversified, V.Verify, V.ExtractPicc;
    if app.prefix.Some? && !StartsWith(input, app.prefix.value) {
      return Err(PrefixMismatch);
    }
    var valid := V.Validate(app.verifier);
    if valid.Err? {
      return Err(TagValidationFailed(valid.error));
    }
    V.ValidIsOrdered(app.verifier);
    var piccMetaKey := KeyDiversification.DiversifyAes128(aes, masterKey, KeyDiversification.PICC);
    var picc := V.ExtractPiccData(aes, app.verifier, input, piccMetaKey);
    if picc.Err? {
      return Err(SdmFailed(picc.error));
    }
    if picc.value.uid.None? {
      return Err(NoUid);
    }
    var uid := picc.value.uid.value;
    var fileReadKey := GetKey(aes, masterKey, app.verifier.fileReadKey, uid, app.systemIdentifier);
    var out := V.VerifyInner(aes, app.verifier, input, fileReadKey, piccMetaKey);
    if out.Err? {
      return Err(SdmFailed(out.error));
    }
    if out.value.readCtr.Some? {
      var counter := out.value.readCtr.value;
      var stored :- store.Get(uid);
      if counter <= stored {
        return Err(ReadCounterTooLow(stored, counter));
      }
      var _ :- store.Set(uid, counter);
    }
    return Ok(Readout(uid, out.value.readCtr, out.value.tamperStatus));
  }

  // ---------------------------------------------------------------- whole runs

  type Outcome = Result<Readout, VerificationError>

  predicate Accepted(o: Outcome, uid: UidBytes) {
    o.Ok? && o.value.uid == uid && o.value.readCtr.Some?
  }

  /** The counter of the last readout accepted for `uid`. */
  function LastAccepted(outcomes: seq<Outcome>, uid: UidBytes, initial: nat): nat {
    if |outcomes| == 0 then initial
    else
      var o := outcomes[|outcomes| - 1];
      if Accepted(o, uid) then o.value.readCtr.value else LastAccepted(outcomes[..|outcomes| - 1], uid, initial)
  }

  /** Per UID, accepted counters strictly increase: no (UID, counter) pair is accepted twice. */
  ghost predicate StrictlyIncreasing(outcomes: seq<Outcome>) {
    forall i, j, uid :: 0 <= i < j < |outcomes| && Accepted(outcomes[i], uid) && Accepted(outcomes[j], uid) ==>
      outcomes[i].value.readCtr.value < outcomes[j].value.readCtr.value
  }

  /** Any run of taps, in any order, genuine or not. */
  method VerifyAll(aes: Aes128, app: ApplicationVerifier, masterKey: Block, inputs: seq<seq<byte>>, store: CounterStore)
    returns (outcomes: seq<Outcome>)
    requires IsApplication(app)
    modifies store
    ensures |outcomes| == |inputs| && StrictlyIncreasing(outcomes)
    ensures forall uid :: store.Stored(uid) == LastAccepted(outcomes, uid, old(store.Stored(uid)))
    ensures forall i :: 0 <= i < |inputs| && outcomes[i].Ok? ==> outcomes[i] == Read(aes, app, masterKey, inputs[i])
  {
    hide Read, IsApplication;
    outcomes := [];
    for i := 0 to |inputs|
      invariant |outcomes| == i && StrictlyIncreasing(outcomes)
      invariant forall uid :: store.Stored(uid) == LastAccepted(outcomes, uid, old(store.Stored(uid)))
      invariant forall uid, k :: 0 <= k < i && Accepted(outcomes[k], uid) ==> outcomes[k].value.readCtr.value <= store.Stored(uid)
      invariant forall k :: 0 <= k < i && outcomes[k].Ok? ==> outcomes[k] == Read(aes, app, masterKey, inputs[k])
    {
      var o := Verify(aes, app, masterKey, inputs[i], store);
      ghost var before := outcomes;
      outcomes := outcomes + [o];
      assert outcomes[..|outcomes| - 1] == before;
    }
  }

  /** A tap with a counter goes through at most once, however often it is presented. */
  lemma NoReplay(aes: Aes128, app: ApplicationVerifier, masterKey: Block, inputs: seq<seq<byte>>, outcomes: seq<Outcome>, i: nat, j: nat)
    requires IsApplication(app) && |outcomes| == |inputs| && StrictlyIncreasing(outcomes)
    requires forall k :: 0 <= k < |inputs| && outcomes[k].Ok? ==> outcomes[k] == Read(aes, app, masterKey, inputs[k])
    requires i < j < |inputs| && inputs[i] == inputs[j] && outcomes[i].Ok? && outcomes[i].value.readCtr.Some?
    ensures outcomes[j].Err?
  {
    hide Read;
    var uid := outcomes[i].value.uid;
    assert Accepted(outcomes[i], uid);
    var again := outcomes[j];
    assert again.Ok? ==> Accepted(again, uid);
  }
}
