/**
  Runs over the tag's key table: provision_keys of high_level/provision.rs and the key sequence of
  high_level/reset.rs, with an interruption possible at every step.
 */
module Provision {
  import opened Wrappers
  import opened Octets
  import opened Aes
  import opened Suite
  import opened Wire
  import opened Transport
  import opened SecureChannel
  import opened KeyChange
  import opened Handshake
  import T = Tag
  import Crc

  const ZERO: Block := Zeros(16)

  const ZERO_KEYS: seq<Block> := seq(5, i => ZERO)

  type Keys = k: seq<Block> | |k| == 5 witness ZERO_KEYS

  type Table = t: seq<T.KeySlot> | |t| == 5 witness seq(5, i => T.KeySlot(ZERO, 0))

  const FACTORY: Table := seq(5, i => T.KeySlot(ZERO, 0))

  function Slots(keys: Keys, version: byte): Table {
    seq(5, i requires 0 <= i < 5 => T.KeySlot(keys[i], version))
  }

  /**
    The key table after `n` steps of a run that claims the keys `olds` and asks for `news`:
    slots 1 to 4 in order, and slot 0 as the fifth step.
   */
  function After(table: Table, olds: Keys, news: Keys, version: byte, n: nat): Table {
    seq(5, i requires 0 <= i < 5 =>
      if i == 0 then (if n >= 5 then T.KeySlot(news[0], version) else table[0])
      else if i <= n then T.KeySlot(Unmasked(news[i], olds[i], table[i].key), version)
      else table[i])
  }

  /** Every non-master slot will take its cryptogram. */
  predicate AllAccept(table: Table, olds: Keys, n: nat) {
    forall i :: 0 < i < 5 && i <= n ==> Accepts(olds[i], table[i].key)
  }

  lemma AfterStep(table: Table, olds: Keys, news: Keys, version: byte, n: nat)
    requires n < 4
    ensures After(table, olds, news, version, n)[n + 1 := T.KeySlot(Unmasked(news[n + 1], olds[n + 1], table[n + 1].key), version)]
         == After(table, olds, news, version, n + 1)
  {
  }

  lemma AfterMaster(table: Table, olds: Keys, news: Keys, version: byte)
    ensures After(table, olds, news, version, 4)[0 := T.KeySlot(news[0], version)] == After(table, olds, news, version, 5)
  {
  }

  /** Wherever a run stops, the master key is the old one unless the other four are final. */
  lemma MasterKeyLast(table: Table, olds: Keys, news: Keys, version: byte, n: nat)
    ensures After(table, olds, news, version, n)[0] != table[0] ==>
      After(table, olds, news, version, n) == After(table, olds, news, version, 5)
  {
  }

  // ---------------------------------------------------------------- the two runs

  /** How a run over the key table may end: complete, or after some number of its steps. */
  predicate RunEnds(ok: bool, t: T.Tag, t': T.Tag, olds: Keys, news: Keys, version: byte, steps: nat) {
    && steps <= 5 && (ok ==> steps == 5)
    && t'.keys == After(t.keys, olds, news, version, steps) && t'.files == t.files
    && AllAccept(t.keys, olds, steps)
  }

  /** One more slot of a run. */
  lemma RunStep(t: T.Tag, at: T.Tag, t': T.Tag, olds: Keys, news: Keys, version: byte, steps: nat, ok: bool)
    requires RunEnds(false, t, at, olds, news, version, steps) && steps < 4
    requires var i := steps + 1;
      var slot := T.KeySlot(Unmasked(news[i], olds[i], at.keys[i].key), version);
      if ok then Accepts(olds[i], at.keys[i].key) && Replaced(at, t', i, slot)
      else Untouched(at, t') || (Accepts(olds[i], at.keys[i].key) && Replaced(at, t', i, slot))
    ensures RunEnds(false, t, t', olds, news, version, steps + 1)
         || (!ok && RunEnds(false, t, t', olds, news, version, steps))
    ensures at.keys[steps + 1] == t.keys[steps + 1]
  {
    hide Unmasked, Accepts;
    AfterStep(t.keys, olds, news, version, steps);
  }

  lemma RunLast(t: T.Tag, at: T.Tag, t': T.Tag, olds: Keys, news: Keys, version: byte, ok: bool)
    requires RunEnds(false, t, at, olds, news, version, 4)
    requires Replaced(at, t', 0, T.KeySlot(news[0], version)) || (!ok && Untouched(at, t'))
    ensures RunEnds(ok, t, t', olds, news, version, 5) || (!ok && RunEnds(ok, t, t', olds, news, version, 4))
  {
    AfterMaster(t.keys, olds, news, version);
  }

  /** `provision_keys`: from all-zero keys to `keys`, all at version 1. */
  method ProvisionKeys(state: Authenticated, link: Link, keys: Keys)
    returns (r: Result<(), SessionError>, ghost steps: nat)
    modifies state`cmdCounter, state`book, state`suite, link
    ensures old(MasterSession(state, link)) ==>
      && RunEnds(r.Ok?, old(link.tag), link.tag, ZERO_KEYS, keys, 0x01, steps)
      && (r.Err? && AllAccept(old(link.tag).keys, ZERO_KEYS, 4) ==> r.error == TransportError)
  {
    hide Unmasked, Accepts, After, NoMasterSession, Masked, Pad;
    ghost var start, ready := link.tag, MasterSession(state, link);
    steps := 0;
    AfterNothing(start.keys, ZERO_KEYS, keys, 0x01);
    for i: byte := 1 to 5
      invariant ready ==> MasterSession(state, link) && steps == i - 1
      invariant ready ==> RunEnds(false, start, link.tag, ZERO_KEYS, keys, 0x01, i - 1)
    {
      ghost var at := link.tag;
      var one := ChangeKey(state, link, i, keys[i], 0x01, ZERO);
      if ready {
        RunStep(start, at, link.tag, ZERO_KEYS, keys, 0x01, steps, one.Ok?);
        steps := if RunEnds(false, start, link.tag, ZERO_KEYS, keys, 0x01, i as nat) then i as nat else i as nat - 1;
      }
      var _ :- one;
    }
    ghost var at := link.tag;
    r := ChangeMasterKey(state, link, keys[0], 0x01);
    if ready {
      RunLast(start, at, link.tag, ZERO_KEYS, keys, 0x01, r.Ok?);
      steps := if RunEnds(r.Ok?, start, link.tag, ZERO_KEYS, keys, 0x01, 5) then 5 else 4;
    }
  }

  lemma AfterNothing(table: Table, olds: Keys, news: Keys, version: byte)
    ensures After(table, olds, news, version, 0) == table
  {
  }

  /** The key sequence of `reset_with_fn`: from `currentKeys` to zero, all at version 0. */
  method ResetKeys(state: Authenticated, link: Link, currentKeys: Keys)
    returns (r: Result<(), SessionError>, ghost steps: nat)
    modifies state`cmdCounter, state`book, state`suite, link
    ensures old(MasterSession(state, link)) ==>
      && RunEnds(r.Ok?, old(link.tag), link.tag, currentKeys, ZERO_KEYS, 0x00, steps)
      && (r.Err? && AllAccept(old(link.tag).keys, currentKeys, 4) ==> r.error == TransportError)
  {
    hide Unmasked, Accepts, After, NoMasterSession, Masked, Pad;
    ghost var start, ready := link.tag, MasterSession(state, link);
    steps := 0;
    AfterNothing(start.keys, currentKeys, ZERO_KEYS, 0x00);
    for i: byte := 1 to 5
      invariant ready ==> MasterSession(state, link) && steps == i - 1
      invariant ready ==> RunEnds(false, start, link.tag, currentKeys, ZERO_KEYS, 0x00, i - 1)
    {
      ghost var at := link.tag;
      var one := ChangeKey(state, link, i, ZERO, 0x00, currentKeys[i]);
      if ready {
        RunStep(start, at, link.tag, currentKeys, ZERO_KEYS, 0x00, steps, one.Ok?);
        steps := if RunEnds(false, start, link.tag, currentKeys, ZERO_KEYS, 0x00, i as nat) then i as nat else i as nat - 1;
      }
      var _ :- one;
    }
    ghost var at := link.tag;
    r := ChangeMasterKey(state, link, ZERO, 0x00);
    if ready {
      RunLast(start, at, link.tag, currentKeys, ZERO_KEYS, 0x00, r.Ok?);
      steps := if RunEnds(r.Ok?, start, link.tag, currentKeys, ZERO_KEYS, 0x00, 5) then 5 else 4;
    }
  }

  /** The session `reset_with_fn` works in: LRP if the tag grants it, otherwise AES. */
  method OpenMasterSession(link: Link, key: Block, rndA: Block, rndA': Block)
    returns (r: Result<Authenticated, SessionError>)
    modifies link
    ensures T.SameMemory(old(link.tag), link.tag)
    ensures r.Ok? ==> fresh(r.value)
    ensures link.honest && old(link.tag).keys[0].key == key ==>
      && (r.Ok? ==> MasterSession(r.value, link))
      && (r.Err? && !old(link.tag).lrp ==> r.error == TransportError)
  {
    var lrp := FirstLrp(link, 0, key, rndA);
    if lrp.Ok? {
      var state := new Authenticated(link.aes, lrp.value.suite, lrp.value.ti, 0);
      return Result.Ok(state);
    }
    var auth :- FirstAes(link, 0, key, rndA');
    var state := new Authenticated(link.aes, auth.suite, auth.ti, 0);
    return Result.Ok(state);
  }

  method Reset(link: Link, currentKeys: Keys, rndA: Block, rndA': Block)
    returns (r: Result<(), SessionError>, ghost steps: nat)
    modifies link
    ensures link.honest && old(link.tag).keys[0].key == currentKeys[0] ==>
      RunEnds(r.Ok?, old(link.tag), link.tag, currentKeys, ZERO_KEYS, 0x00, steps)
  {
    hide Unmasked, Accepts;
    steps := 0;
    AfterNothing(link.tag.keys, currentKeys, ZERO_KEYS, 0x00);
    ghost var start := link.tag;
    var session := OpenMasterSession(link, currentKeys[0], rndA, rndA');
    if session.Err? {
      r := Err(session.error);
      return;
    }
    r, steps := ResetKeys(session.value, link, currentKeys);
  }

  // ---------------------------------------------------------------- what complete runs amount to

  /** From all-zero keys, a provisioning run meets no refusal and ends in exactly the five keys. */
  lemma ProvisionInstalls(table: Table, keys: Keys)
    requires forall i :: 0 <= i < 5 ==> table[i].key == ZERO
    ensures AllAccept(table, ZERO_KEYS, 4)
    ensures After(table, ZERO_KEYS, keys, 0x01, 5) == Slots(keys, 0x01)
  {
    hide Accepts, Unmasked;
    forall i | 0 < i < 5
      ensures Accepts(ZERO_KEYS[i], table[i].key) && Unmasked(keys[i], ZERO_KEYS[i], table[i].key) == keys[i]
    {
      RightOldKey(keys[i], ZERO);
    }
  }

  /** From a tag that holds `keys`, a reset run meets no refusal and ends in the factory table. */
  lemma ResetRestores(keys: Keys, version: byte)
    ensures AllAccept(Slots(keys, version), keys, 4)
    ensures After(Slots(keys, version), keys, ZERO_KEYS, 0x00, 5) == FACTORY
  {
    hide Accepts, Unmasked;
    forall i | 0 < i < 5 ensures Accepts(keys[i], keys[i]) && Unmasked(ZERO, keys[i], keys[i]) == ZERO {
      RightOldKey(ZERO, keys[i]);
    }
  }

  /**
    Running a reset again after `n` of its steps, with the same keys. It restores the factory table
    exactly when every slot the first run had zeroed was zero to begin with, and it is not refused
    on the way exactly when those keys have an empty register. The claim that every completed
    step is idempotent does not hold: the cryptogram is masked with the old key, not with zero.
   */
  lemma ResetAgain(keys: Keys, version: byte, n: nat)
    requires n <= 4
    ensures var table := After(Slots(keys, version), keys, ZERO_KEYS, 0x00, n);
      && (AllAccept(table, keys, 4) <==> forall i :: 0 < i <= n ==> Accepts(keys[i], ZERO))
      && (After(table, keys, ZERO_KEYS, 0x00, 5) == FACTORY <==> forall i :: 0 < i <= n ==> keys[i] == ZERO)
  {
    hide Accepts, Unmasked;
    var table := After(Slots(keys, version), keys, ZERO_KEYS, 0x00, n);
    forall i | 0 < i < 5
      ensures Accepts(keys[i], keys[i]) && Unmasked(ZERO, keys[i], keys[i]) == ZERO
      ensures Unmasked(ZERO, keys[i], ZERO) == keys[i]
    {
      RightOldKey(ZERO, keys[i]);
      UnmasksToOld(keys[i]);
    }
    var again := After(table, keys, ZERO_KEYS, 0x00, 5);
    assert forall i :: 0 < i <= n ==> again[i] == T.KeySlot(keys[i], 0x00);
    assert forall i :: n < i < 5 ==> again[i] == FACTORY[i];
  }

  lemma UnmasksToOld(key: Block)
    ensures Unmasked(ZERO, key, ZERO) == key
  {
    hide XorBytes;
    XorBytesZeros(key);
  }

  /** One such reset: a key whose only non-zero byte is the first is refused the second time. */
  lemma ResetAgainRefused(keys: Keys, version: byte)
    requires keys[1] == [1] + Zeros(15)
    ensures !AllAccept(After(Slots(keys, version), keys, ZERO_KEYS, 0x00, 1), keys, 4)
  {
    ResetAgain(keys, version, 1);
    WrongOldKeyRefused(keys[1], ZERO, 0);
  }
}
