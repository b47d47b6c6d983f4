/**
  Whole runs: any sequence of authentications, file transfers and key changes against an honest tag over
  a link that may lose frames. An operation that fails drops the session, as the consuming
  methods of session/authenticated.rs do, except for the plain transfers that only borrow it. These may
  leave host and tag out of step; what follows then is part of the runs.
 */
module Lockstep {
  import opened Wrappers
  import opened Octets
  import opened Aes
  import opened Suite
  import opened Wire
  import opened Transport
  import opened SecureChannel
  import opened Exchange
  import opened Handshake
  import opened KeyChange
  import R = ReadData
  import W = WriteData
  import T = Tag

  /** `keeps` marks `read_file_plain` and `write_file_plain`, which keep the session when they fail. */
  datatype Op =
    | Authenticate(lrp: bool, keyNo: byte, key: Block, rndA: Block)
    | Reauthenticate(keyNo: byte, key: Block, rndA: Block)
    | Read(fileNo: byte, mode: T.CommMode, offset: u32, length: u32, bufLen: nat, keeps: bool)
    | Write(fileNo: byte, mode: T.CommMode, offset: u32, data: seq<byte>, keeps: bool)
    | ReplaceKey(keyNo: byte, newKey: Block, version: byte, oldKey: Block)
    | ReplaceMasterKey(newKey: Block, version: byte)

  datatype Outcome = Done(data: seq<byte>) | Failed(error: SessionError) | NoSession

  /** The host names keys and communication modes of files that are the tag's. */
  predicate Fits(op: Op, t: T.Tag) {
    match op
    case Authenticate(_, keyNo, key, _) => keyNo < 5 && t.keys[keyNo].key == key
    case Reauthenticate(keyNo, key, _) => keyNo < 5 && t.keys[keyNo].key == key
    case Read(fileNo, mode, _, _, _, keeps) => HasFile(t, fileNo, mode) && (keeps ==> mode.Plain?)
    case Write(fileNo, mode, _, _, keeps) => HasFile(t, fileNo, mode) && (keeps ==> mode.Plain?)
    case ReplaceKey(keyNo, _, _, _) => 0 < keyNo < 5
    case ReplaceMasterKey(_, _) => true
  }

  /** Operations whose commands carry a MAC. */
  predicate IsSecured(op: Op) {
    match op
    case Read(_, mode, _, _, _, _) => !mode.Plain?
    case Write(_, mode, _, _, _) => !mode.Plain?
    case ReplaceKey(_, _, _, _) => true
    case ReplaceMasterKey(_, _) => true
    case _ => false
  }

  /** Code, header and data of the first command that a secured operation sends. */
  function FirstCommand(aes: Aes128, host: Channel, op: Op): (byte, seq<byte>)
    requires IsSecured(op)
  {
    match op
    case Read(fileNo, mode, offset, length, bufLen, _) =>
      (0xAD, Header(fileNo, offset, Min(R.Target(length, bufLen), if mode.Mac? then R.MAC_READ_CHUNK else R.FULL_READ_CHUNK)))
    case Write(fileNo, mode, offset, data, _) =>
      (0x8D, W.Payload(aes, host, mode, fileNo, offset, W.First(data, WriteChunk(mode))))
    case ReplaceKey(keyNo, newKey, version, oldKey) => (0xC4, KeyPayload(aes, host, keyNo, Pad(Masked(newKey, oldKey, version))))
    case ReplaceMasterKey(newKey, version) => (0xC4, KeyPayload(aes, host, 0, Pad(newKey + [version])))
  }

  predicate Keeps(op: Op) {
    (op.Read? || op.Write?) && op.keeps
  }

  function WriteChunk(mode: T.CommMode): nat {
    match mode
    case Plain => W.PLAIN_WRITE_CHUNK
    case Mac => W.MAC_WRITE_CHUNK
    case Full => W.FULL_WRITE_CHUNK
  }

  /** How many bytes a read is after: length zero means as many as the buffer, or one answer, holds. */
  function Wanted(mode: T.CommMode, length: u32, bufLen: nat): nat {
    if length > 0 then length else if mode.Plain? then R.WantPlainBytes(0, bufLen) else bufLen
  }

  /** What an operation and its outcome say about the tag's keys and files before and after. */
  ghost predicate Explained(t: T.Tag, op: Op, outcome: Outcome, t': T.Tag) {
    match op
    case Authenticate(lrp, _, _, _) => T.SameMemory(t, t') && (outcome.Done? ==> t.lrp == lrp)
    case Reauthenticate(_, _, _) => T.SameMemory(t, t')
    case Read(fileNo, mode, offset, length, bufLen, _) =>
      && T.SameMemory(t, t') && fileNo in t.files
      && (outcome.Done? ==>
            && |outcome.data| <= Wanted(mode, length, bufLen)
            && HoldsBytes(t.files[fileNo].data, offset, outcome.data, |outcome.data|)
            && (|outcome.data| == Wanted(mode, length, bufLen)
                || (!mode.Full? && offset + |outcome.data| == |t.files[fileNo].data|)))
    case Write(fileNo, mode, offset, data, _) =>
      if outcome.Done? then T.Wrote(t, t', fileNo, offset, data)
      else exists n :: StoredChunks(t, t', fileNo, offset, data, n, WriteChunk(mode))
    case ReplaceKey(keyNo, newKey, version, oldKey) =>
      && keyNo < 5
      && var slot := T.KeySlot(Unmasked(newKey, oldKey, t.keys[keyNo].key), version);
      if outcome.Done? then Replaced(t, t', keyNo, slot) else Untouched(t, t') || Replaced(t, t', keyNo, slot)
    case ReplaceMasterKey(newKey, version) =>
      var slot := T.KeySlot(newKey, version);
      if outcome.Done? then Replaced(t, t', 0, slot) else Untouched(t, t') || Replaced(t, t', 0, slot)
  }

  // ---------------------------------------------------------------- in step, or behind

  /** The channel after `n` commands. */
  function Ahead(ch: Channel, n: nat): Channel {
    ch.(cmdCtr := Counted(ch.cmdCtr, n))
  }

  /** Host and tag hold equal keys, TI, CmdCtr and EncCtr. */
  predicate Agree(session: Authenticated, t: T.Tag)
    reads session
  {
    t.session.Some? && t.session.value.ch == session.View()
  }

  /**
    The invariant of runs. CmdCtr is the number of commands acknowledged since First authentication; and
    the tag's session, if it still has it, is the host's, `unheard` commands further on.
   */
  ghost predicate Trails(session: Option<Authenticated>, link: Link, commands: nat, unheard: nat)
    reads link, if session.Some? then {session.value} else {}
  {
    && link.honest
    && (session.Some? ==>
          && session.value.aes == link.aes && session.value.cmdCounter == Counted(0, commands) && session.value.Orderly()
          && (link.tag.session.None? ==> unheard > 0)
          && (link.tag.session.Some? ==> link.tag.session.value.ch == Ahead(session.value.View(), unheard)))
  }

  lemma CountedTurns(c: u16, n: nat)
    ensures Counted(c, n) == c <==> n % 0x1_0000 == 0
  {
    if n % 0x1_0000 != 0 {
      ModDistinct(c, n % 0x1_0000, 0x1_0000);
    }
  }

  /** They agree exactly when no command, or a whole turn of the counter, went unheard, and the tag refused none. */
  lemma AgreeExactly(session: Authenticated, link: Link, commands: nat, unheard: nat)
    requires Trails(Some(session), link, commands, unheard)
    ensures Agree(session, link.tag) <==> link.tag.session.Some? && unheard % 0x1_0000 == 0
    ensures Agree(session, link.tag) <==> InSync(session, link)
    ensures unheard == 0 ==> InSync(session, link)
  {
    CountedTurns(session.cmdCounter, unheard);
  }

  lemma AgreeTrails(session: Authenticated, link: Link, commands: nat)
    requires link.honest && InSync(session, link) && session.cmdCounter == Counted(0, commands) && session.Orderly()
    ensures Trails(Some(session), link, commands, 0)
  {
    CountedOnce(session.cmdCounter, 0);
  }

  /** A plain transfer moves host and tag on alike, but for the one command it may not have heard of. */
  lemma TransferTrails(ok: bool, acked: nat, reached: int, t: T.Tag, t': T.Tag, before: Channel, after: Channel, unheard: nat)
    requires TransferEnds(ok, acked, reached, t, t') && after == Ahead(before, acked)
    requires (t.session.None? ==> unheard > 0) && (t.session.Some? ==> t.session.value.ch == Ahead(before, unheard))
    ensures reached == acked || (!ok && reached == acked + 1)
    ensures var unheard' := unheard + (reached - acked);
      && (t'.session.None? ==> unheard' > 0)
      && (t'.session.Some? ==> t'.session.value.ch == Ahead(after, unheard'))
  {
    CountedSum(before.cmdCtr, unheard, acked);
    CountedSum(before.cmdCtr, unheard, acked + 1);
    CountedSum(before.cmdCtr, acked, unheard);
    CountedSum(before.cmdCtr, acked, unheard + 1);
  }

  // ---------------------------------------------------------------- one operation

  /** The tag refuses the first command of this operation because of its MAC. */
  predicate Shut(aes: Aes128, t: T.Tag, host: Channel, op: Op)
    requires IsSecured(op)
  {
    var (ins, payload) := FirstCommand(aes, host, op);
    Refuses(aes, t, host, ins, payload)
  }

  /** In step, with a CmdCtr that counts the commands. */
  ghost predicate InStep(state: Authenticated, link: Link, commands: nat)
    reads state, link
  {
    InSync(state, link) && state.cmdCounter == Counted(0, commands) && state.Orderly()
  }

  /** In step, or out of step with the tag refusing. */
  ghost predicate InStepOrShut(state: Authenticated, link: Link, op: Op, commands: nat)
    requires IsSecured(op)
    reads state, link
  {
    && link.honest && state.aes == link.aes && Fits(op, link.tag)
    && (InStep(state, link, commands) || Shut(link.aes, link.tag, state.View(), op))
  }

  method PerformFirst(link: Link, op: Op) returns (r: Result<Authenticated, SessionError>)
    requires op.Authenticate? && Fits(op, link.tag) && link.honest
    modifies link
    ensures r.Ok? ==> fresh(r.value) && Trails(Some(r.value), link, 0, 0)
    ensures if op.lrp == old(link.tag).lrp then r.Err? ==> r.error == TransportError else r.Err?
    ensures T.SameMemory(old(link.tag), link.tag)
  {
    var auth;
    if op.lrp {
      auth :- FirstLrp(link, op.keyNo, op.key, op.rndA);
    } else {
      auth :- FirstAes(link, op.keyNo, op.key, op.rndA);
    }
    var state := new Authenticated(link.aes, auth.suite, auth.ti, op.keyNo);
    CountedOnce(0, 0);
    AgreeTrails(state, link, 0);
    return Result.Ok(state);
  }

  /** NonFirst keeps whatever lead the tag has; a tag that has lost its session refuses. */
  method PerformNonFirst(state: Authenticated, link: Link, op: Op, ghost commands: nat, ghost unheard: nat)
    returns (r: Result<(), SessionError>)
    requires op.Reauthenticate? && Fits(op, link.tag) && Trails(Some(state), link, commands, unheard)
    modifies link, state
    ensures r.Ok? ==> Trails(Some(state), link, commands, unheard) && state.ti == old(state.ti)
    ensures r.Ok? && old(Agree(state, link.tag)) ==> Agree(state, link.tag)
    ensures if old(link.tag).session.Some? then r.Err? ==> r.error == TransportError else r.Err?
    ensures T.SameMemory(old(link.tag), link.tag)
  {
    var suite;
    if link.tag.lrp {
      suite :- NonFirstLrp(link, op.keyNo, op.key, op.rndA);
    } else {
      suite :- NonFirstAes(link, op.keyNo, op.key, op.rndA);
    }
    state.Rekey(suite, op.keyNo);
    return Result.Ok(());
  }

  method PerformRead(state: Authenticated, link: Link, op: Op, ghost commands: nat)
    returns (r: Result<seq<byte>, SessionError>, ghost commands': nat)
    requires op.Read? && IsSecured(op) && InStepOrShut(state, link, op, commands)
    modifies link, state
    ensures if old(InStep(state, link, commands)) then r.Ok? ==> InStep(state, link, commands')
            else r.Err? && Untouched(old(link.tag), link.tag)
    ensures Explained(old(link.tag), op, if r.Ok? then Done(r.value) else Failed(r.error), link.tag)
  {
    hide Authenticated.Orderly, HoldsBytes, Counted, SentChunks, Refuses;
    ghost var inStep := InStep(state, link, commands);
    var buf := new byte[op.bufLen](i => 0);
    var n;
    ghost var sent;
    if op.mode.Mac? {
      n, sent := R.ReadDataMac(state, link, op.fileNo, op.offset, op.length, buf);
    } else {
      n, sent := R.ReadDataFull(state, link, op.fileNo, op.offset, op.length, buf);
    }
    commands' := commands + sent;
    if n.Err? {
      r := Err(n.error);
      return;
    }
    CountedSum(0, commands, sent);
    HoldsPrefix(link.tag.files[op.fileNo].data, op.offset, buf[..], n.value);
    r := Result.Ok(buf[..n.value]);
  }

  method PerformWrite(state: Authenticated, link: Link, op: Op, ghost commands: nat)
    returns (r: Result<(), SessionError>, ghost commands': nat)
    requires op.Write? && IsSecured(op) && InStepOrShut(state, link, op, commands)
    modifies link, state
    ensures if old(InStep(state, link, commands)) then r.Ok? ==> InStep(state, link, commands')
            else r.Err? && Untouched(old(link.tag), link.tag)
    ensures Explained(old(link.tag), op, if r.Ok? then Done([]) else Failed(r.error), link.tag)
  {
    hide Authenticated.Orderly, StoredChunks, Counted, SentChunks, T.Wrote, Refuses;
    ghost var inStep := InStep(state, link, commands);
    ghost var sent, stored;
    if op.mode.Mac? {
      r, sent, stored := W.WriteDataMac(state, link, op.fileNo, op.offset, op.data);
    } else {
      r, sent, stored := W.WriteDataFull(state, link, op.fileNo, op.offset, op.data);
    }
    if !inStep {
      stored := 0;
      StoredNothing(old(link.tag), link.tag, op.fileNo, op.offset, op.data, WriteChunk(op.mode));
    }
    assert StoredChunks(old(link.tag), link.tag, op.fileNo, op.offset, op.data, stored, WriteChunk(op.mode));
    commands' := commands + sent;
    CountedSum(0, commands, sent);
  }

  /** A plain transfer, in step or not: the host counts what was acknowledged, and trails by what was not. */
  method PerformPlain(state: Authenticated, link: Link, op: Op, ghost commands: nat, ghost unheard: nat)
    returns (r: Result<seq<byte>, SessionError>, ghost commands': nat, ghost unheard': nat)
    requires (op.Read? || op.Write?) && op.mode.Plain? && Fits(op, link.tag) && Trails(Some(state), link, commands, unheard)
    modifies link, state`cmdCounter, state`book
    ensures Trails(Some(state), link, commands', unheard')
    ensures unheard' == unheard || (r.Err? && unheard' == unheard + 1)
    ensures link.delivered - old(link.delivered) == (commands' - commands) + (unheard' - unheard)
    ensures old(Agree(state, link.tag)) ==> (Agree(state, link.tag) <==> unheard' == unheard)
    ensures Explained(old(link.tag), op, if r.Ok? then Done(r.value) else Failed(r.error), link.tag)
  {
    hide Authenticated.Orderly, HoldsBytes, Counted, SentChunks, StoredChunks, T.Wrote, TransferEnds, Ahead, T.Counts;
    ghost var sent, stored, acked;
    ghost var before := state.View();
    if op.Read? {
      var buf := new byte[op.bufLen](i => 0);
      var n;
      n, sent, acked := R.ReadFilePlainChunked(state, link, op.fileNo, op.offset, op.length, buf);
      if n.Ok? {
        HoldsPrefix(link.tag.files[op.fileNo].data, op.offset, buf[..], n.value);
      }
      r := if n.Ok? then Result.Ok(buf[..n.value]) else Err(n.error);
    } else {
      var w;
      w, sent, stored, acked := W.WriteFilePlainChunked(state, link, op.fileNo, op.offset, op.data);
      assert StoredChunks(old(link.tag), link.tag, op.fileNo, op.offset, op.data, stored, WriteChunk(op.mode));
      r := if w.Ok? then Result.Ok([]) else Err(w.error);
    }
    commands' := commands + acked;
    assert state.View() == Ahead(before, acked) by { AheadIs(before, acked); }
    TransferTrails(r.Ok?, acked, link.delivered - old(link.delivered), old(link.tag), link.tag, before, state.View(), unheard);
    unheard' := unheard + (link.delivered - old(link.delivered) - acked);
    CountedSum(0, commands, acked);
    TransferAgrees(r.Ok?, acked, link.delivered - old(link.delivered), old(link.tag), link.tag, before, state.View());
  }

  /** From agreement, a plain transfer leads to agreement exactly when nothing unacknowledged reached the tag. */
  lemma TransferAgrees(ok: bool, acked: nat, reached: int, t: T.Tag, t': T.Tag, before: Channel, after: Channel)
    requires TransferEnds(ok, acked, reached, t, t') && after == Ahead(before, acked)
    ensures t.session.Some? && t.session.value.ch == before ==>
      (t'.session.Some? && t'.session.value.ch == after <==> reached == acked)
  {
    CountedSum(before.cmdCtr, acked, 1);
    CountedTurns(Counted(before.cmdCtr, acked), 1);
  }

  lemma StoredNothing(t: T.Tag, t': T.Tag, fileNo: byte, offset: nat, data: seq<byte>, chunk: nat)
    requires T.SameMemory(t, t')
    ensures StoredChunks(t, t', fileNo, offset, data, 0, chunk)
  {
  }

  lemma AheadIs(ch: Channel, n: nat)
    ensures Ahead(ch, n) == ch.(cmdCtr := Counted(ch.cmdCtr, n))
  {
  }

  method PerformReplace(state: Authenticated, link: Link, op: Op, ghost commands: nat) returns (r: Result<(), SessionError>)
    requires (op.ReplaceKey? || op.ReplaceMasterKey?) && InStepOrShut(state, link, op, commands)
    modifies link, state
    ensures if old(InStep(state, link, commands)) then r.Ok? && op.ReplaceKey? ==> InStep(state, link, commands + 1)
            else r.Err? && Untouched(old(link.tag), link.tag)
    ensures Explained(old(link.tag), op, if r.Ok? then Done([]) else Failed(r.error), link.tag)
  {
    hide Authenticated.Orderly, Unmasked, Counted, Refuses;
    CountedOnce(0, commands);
    match op
    case ReplaceKey(keyNo, newKey, version, oldKey) =>
      r := ChangeKey(state, link, keyNo, newKey, version, oldKey);
    case ReplaceMasterKey(newKey, version) =>
      r := ChangeMasterKey(state, link, newKey, version);
  }

  /** In step, or with a first command whose MAC the tag does not take by accident: see `OutOfStepIsShut`. */
  predicate MayPerform(session: Option<Authenticated>, op: Op, aes: Aes128, t: T.Tag)
    reads if session.Some? then {session.value} else {}
  {
    Fits(op, t) && (session.Some? && IsSecured(op) ==> Agree(session.value, t) || Shut(aes, t, session.value.View(), op))
  }

  /**
    One operation. After a failure there is no session, unless a plain transfer kept it; then host and tag
    still agree exactly when no command of it reached the tag without being acknowledged. Out of step,
    a secured operation fails and changes nothing.
   */
  method Perform(session: Option<Authenticated>, link: Link, op: Op, ghost commands: nat, ghost unheard: nat)
    returns (session': Option<Authenticated>, outcome: Outcome, ghost commands': nat, ghost unheard': nat)
    requires MayPerform(session, op, link.aes, link.tag) && Trails(session, link, commands, unheard)
    modifies link, if session.Some? then {session.value} else {}
    ensures Trails(session', link, commands', unheard')
    ensures session'.Some? ==> session' == session || fresh(session'.value)
    ensures outcome.Failed? ==> session' == if Keeps(op) then session else None
    ensures session'.Some? && session' == session && old(Agree(session.value, link.tag)) ==>
      (Agree(session.value, link.tag) <==>
        outcome.Done? || link.delivered - old(link.delivered) == commands' - commands)
    ensures session.Some? && IsSecured(op) && !old(Agree(session.value, link.tag)) ==>
      outcome.Failed? && Untouched(old(link.tag), link.tag)
    ensures outcome.Done? && op.Authenticate? ==> commands' == 0 && unheard' == 0
    ensures outcome.Done? && session.Some? && op.Reauthenticate? ==> session' == session && commands' == commands
    ensures unheard' <= unheard + 1 && (unheard' == unheard + 1 ==> outcome.Failed? && Keeps(op))
    ensures Explained(old(link.tag), op, outcome, link.tag)
  {
    session', outcome, commands', unheard' := None, NoSession, commands, unheard;
    if op.Authenticate? {
      var r := PerformFirst(link, op);
      outcome := if r.Ok? then Done([]) else Failed(r.error);
      session' := if r.Ok? then Some(r.value) else None;
      commands', unheard' := 0, 0;
    } else if session.None? {
      UntouchedExplained(link.tag, op);
    } else if op.Reauthenticate? {
      var r := PerformNonFirst(session.value, link, op, commands, unheard);
      outcome := if r.Ok? then Done([]) else Failed(r.error);
      session' := if r.Ok? then session else None;
    } else if IsSecured(op) {
      outcome, commands' := PerformSecured(session.value, link, op, commands, unheard);
      session' := if outcome.Done? && !op.ReplaceMasterKey? then session else None;
      unheard' := 0;
    } else {
      var r;
      r, commands', unheard' := PerformPlain(session.value, link, op, commands, unheard);
      outcome := if r.Ok? then Done(r.value) else Failed(r.error);
      session' := if r.Ok? || op.keeps then session else None;
      if session'.None? {
        unheard' := 0;
      }
    }
  }

  method PerformSecured(state: Authenticated, link: Link, op: Op, ghost commands: nat, ghost unheard: nat)
    returns (outcome: Outcome, ghost commands': nat)
    requires IsSecured(op) && MayPerform(Some(state), op, link.aes, link.tag) && Trails(Some(state), link, commands, unheard)
    modifies link, state
    ensures outcome != NoSession && (!old(Agree(state, link.tag)) ==> outcome.Failed? && Untouched(old(link.tag), link.tag))
    ensures outcome.Done? && !op.ReplaceMasterKey? ==> Trails(Some(state), link, commands', 0) && Agree(state, link.tag)
    ensures Explained(old(link.tag), op, outcome, link.tag)
  {
    hide Authenticated.Orderly, Refuses, Explained;
    AgreeExactly(state, link, commands, unheard);
    commands' := commands + 1;
    if op.Read? {
      var r;
      r, commands' := PerformRead(state, link, op, commands);
      outcome := if r.Ok? then Done(r.value) else Failed(r.error);
    } else if op.Write? {
      var r;
      r, commands' := PerformWrite(state, link, op, commands);
      outcome := if r.Ok? then Done([]) else Failed(r.error);
    } else {
      var r := PerformReplace(state, link, op, commands);
      outcome := if r.Ok? then Done([]) else Failed(r.error);
    }
    if outcome.Done? && !op.ReplaceMasterKey? {
      AgreeTrails(state, link, commands');
    }
  }

  lemma UntouchedExplained(t: T.Tag, op: Op)
    requires Fits(op, t)
    ensures Explained(t, op, NoSession, t)
  {
    if op.Write? {
      StoredNone(t, op.fileNo, op.offset, op.data, WriteChunk(op.mode));
    }
  }

  // ---------------------------------------------------------------- whole runs

  /** A run's tag states, each explained by the operation and the outcome between it and the next. */
  ghost predicate IsHistory(history: seq<T.Tag>, ops: seq<Op>, outcomes: seq<Outcome>) {
    && |history| == |outcomes| + 1 && |outcomes| <= |ops|
    && forall i :: 0 <= i < |outcomes| ==> Explained(history[i], ops[i], outcomes[i], history[i + 1])
  }

  /** How many plain transfers that kept their session have failed. */
  function KeptFailures(ops: seq<Op>, outcomes: seq<Outcome>): nat
    requires |outcomes| <= |ops|
  {
    if |outcomes| == 0 then 0
    else
      var last := |outcomes| - 1;
      KeptFailures(ops, outcomes[..last]) + if outcomes[last].Failed? && Keeps(ops[last]) then 1 else 0
  }

  /**
    A whole run, as long as the host names the tag's keys and modes, and no MAC of a command sent out of step
    fits by accident. Host and tag agree after it exactly when no unacknowledged plain command reached
    the tag since First authentication, up to whole turns of the counter, and always when `unheard`
    is zero.
   */
  method Run(link: Link, ops: seq<Op>)
    returns (session: Option<Authenticated>, outcomes: seq<Outcome>, ghost history: seq<T.Tag>, ghost commands: nat, ghost unheard: nat)
    requires link.honest
    modifies link
    ensures Trails(session, link, commands, unheard)
    ensures session.Some? ==>
      && (InSync(session.value, link) <==> link.tag.session.Some? && unheard % 0x1_0000 == 0)
      && (unheard == 0 ==> InSync(session.value, link))
    ensures session.Some? && session.value.book.turn <= 0x1_0000 ==>
      AllDistinct(MacInputs(session.value.book, session.value.ti)) && AllDistinct(IvInputs(session.value.book, session.value.ti))
    ensures IsHistory(history, ops, outcomes)
    ensures |outcomes| <= |ops| && unheard <= KeptFailures(ops, outcomes)
    ensures history[0] == old(link.tag) && history[|outcomes|] == link.tag
    ensures |outcomes| < |ops| ==>
      var op := ops[|outcomes|];
      || !Fits(op, link.tag)
      || (session.Some? && IsSecured(op) && link.tag.session.Some?
          && var (ins, payload) := FirstCommand(link.aes, session.value.View(), op);
             Collides(link.aes, session.value.View(), link.tag.session.value.ch.cmdCtr, ins, payload))
  {
    hide Authenticated.Orderly, AllDistinct, Explained, Fits, Agree, Shut, Collides, FirstCommand;
    session, outcomes, history, commands, unheard := None, [], [link.tag], 0, 0;
    while |outcomes| < |ops| && MayPerform(session, ops[|outcomes|], link.aes, link.tag)
      invariant |outcomes| <= |ops| && Trails(session, link, commands, unheard)
      invariant session.Some? ==> fresh(session.value)
      invariant unheard <= KeptFailures(ops, outcomes)
      invariant IsHistory(history, ops, outcomes) && history[0] == old(link.tag) && history[|outcomes|] == link.tag
      decreases |ops| - |outcomes|
    {
      var outcome;
      ghost var before := outcomes;
      session, outcome, commands, unheard := Perform(session, link, ops[|outcomes|], commands, unheard);
      outcomes, history := outcomes + [outcome], history + [link.tag];
      assert outcomes[..|before|] == before;
    }
    if session.Some? {
      NothingRepeats(session.value, link, commands, unheard);
      AgreeExactly(session.value, link, commands, unheard);
      if |outcomes| < |ops| && IsSecured(ops[|outcomes|]) && !Agree(session.value, link.tag) {
        OutOfStepIsShut(session.value, link, ops[|outcomes|], commands, unheard);
      }
    }
  }

  /** Whatever has happened in a session of at most 2^16 commands, no MAC or IV input has come twice. */
  lemma NothingRepeats(session: Authenticated, link: Link, commands: nat, unheard: nat)
    requires Trails(Some(session), link, commands, unheard)
    ensures session.book.turn <= 0x1_0000 ==>
      AllDistinct(MacInputs(session.book, session.ti)) && AllDistinct(IvInputs(session.book, session.ti))
  {
    hide IsOrderly, AllDistinct;
    if session.book.turn <= 0x1_0000 {
      NoInputReuse(session.book, session.ti);
    }
  }

  // ---------------------------------------------------------------- out of step

  /**
    A run that falls out of step: a plain read whose answer is lost, then one that succeeds. The host counts
    one command and the tag two.
   */
  lemma LostAnswerFallsBehind(aes: Aes128, t: T.Tag, fileNo: byte, offset: nat, length: nat)
    requires t.session.Some? && HasFile(t, fileNo, T.Plain) && offset <= U24_MAX && length <= U24_MAX
    requires R.Served(t, fileNo, offset, length, R.PLAIN_READ_CHUNK).Some?
    ensures var apdu := Apdu(0xAD, 0, 0, Header(fileNo, offset, length));
      var lost := T.Step(aes, t, apdu).0;
      var (after, reply) := T.Step(aes, lost, apdu);
      && reply.sw1 == 0x91 && reply.sw2 == 0x00
      && after.session.Some? && after.session.value.ch == Ahead(t.session.value.ch, 2)
      && after.session.value.ch != Ahead(t.session.value.ch, 1)
  {
    hide T.Step;
    R.PlainReadAnswer(aes, t, fileNo, offset, length);
    var once := T.PlainDone(t);
    R.PlainReadAnswer(aes, once, fileNo, offset, length);
    var c := t.session.value.ch.cmdCtr;
    CountedOnce(c, 0);
    CountedOnce(c, 1);
    CountedTurns(Counted(c, 1), 1);
    CountedOnce(Counted(c, 1), 0);
  }

  /** One that ends the tag's session behind the host's back: a plain read the tag refuses. */
  lemma RefusalEndsSession(aes: Aes128, t: T.Tag, fileNo: byte, offset: nat, length: nat)
    requires HasFile(t, fileNo, T.Plain) && offset <= U24_MAX && length <= U24_MAX
    requires R.Served(t, fileNo, offset, length, R.PLAIN_READ_CHUNK).None?
    ensures T.Step(aes, t, Apdu(0xAD, 0, 0, Header(fileNo, offset, length))).0.session.None?
  {
    hide T.Step;
    R.PlainReadAnswer(aes, t, fileNo, offset, length);
  }

  /** Two different MAC inputs with one MAC: this command at the host's CmdCtr and at the tag's. */
  predicate Collides(aes: Aes128, host: Channel, ctr: u16, ins: byte, payload: seq<byte>) {
    var x, y := MacInput(ins, host.cmdCtr, host.ti, payload), MacInput(ins, ctr, host.ti, payload);
    x != y && Mac(aes, host.suite, x) == Mac(aes, host.suite, y)
  }

  /** Out of step the tag takes a secured command exactly when its MAC inputs collide. */
  lemma OutOfStepRefuses(aes: Aes128, t: T.Tag, host: Channel, ins: byte, payload: seq<byte>)
    requires t.session.Some? && host == t.session.value.ch.(cmdCtr := host.cmdCtr) && host != t.session.value.ch
    ensures Refuses(aes, t, host, ins, payload) <==> !Collides(aes, host, t.session.value.ch.cmdCtr, ins, payload)
  {
    hide Mac;
    var ch := t.session.value.ch;
    var mac := CommandMac(aes, host, ins, payload);
    assert (payload + mac)[..|payload|] == payload && (payload + mac)[|payload|..] == mac;
    if MacInput(ins, host.cmdCtr, host.ti, payload) == MacInput(ins, ch.cmdCtr, ch.ti, payload) {
      MacInputInjective(ins, ins, host.cmdCtr, ch.cmdCtr, ch.ti, payload, payload);
    }
  }

  /** So out of step it refuses every secured operation, unless that happens to the operation's first command. */
  lemma OutOfStepIsShut(session: Authenticated, link: Link, op: Op, commands: nat, unheard: nat)
    requires Trails(Some(session), link, commands, unheard) && IsSecured(op) && !Agree(session, link.tag)
    ensures var (ins, payload) := FirstCommand(link.aes, session.View(), op);
      Shut(link.aes, link.tag, session.View(), op)
      <==> link.tag.session.None? || !Collides(link.aes, session.View(), link.tag.session.value.ch.cmdCtr, ins, payload)
  {
    hide Collides, FirstCommand, Counted;
    var (ins, payload) := FirstCommand(link.aes, session.View(), op);
    if link.tag.session.Some? {
      hide Refuses;
      OutOfStepRefuses(link.aes, link.tag, session.View(), ins, payload);
    }
  }

  // ---------------------------------------------------------------- what a run's history says

  /** An operation that does not write to this file leaves its bytes as they are. */
  lemma LeavesFile(t: T.Tag, op: Op, outcome: Outcome, t': T.Tag, fileNo: byte)
    requires Explained(t, op, outcome, t') && fileNo in t.files && !(op.Write? && op.fileNo == fileNo)
    ensures fileNo in t'.files && t'.files[fileNo] == t.files[fileNo]
  {
    if op.Write? && !outcome.Done? {
      var n :| StoredChunks(t, t', op.fileNo, op.offset, op.data, n, WriteChunk(op.mode));
    }
  }

  lemma {:induction false} LeavesFileAlong(history: seq<T.Tag>, ops: seq<Op>, outcomes: seq<Outcome>, i: nat, j: nat, fileNo: byte)
    requires IsHistory(history, ops, outcomes) && i <= j <= |outcomes| && fileNo in history[i].files
    requires forall k :: i <= k < j ==> !(ops[k].Write? && ops[k].fileNo == fileNo)
    ensures fileNo in history[j].files && history[j].files[fileNo] == history[i].files[fileNo]
    decreases j - i
  {
    hide Explained;
    if i < j {
      LeavesFileAlong(history, ops, outcomes, i, j - 1, fileNo);
      LeavesFile(history[j - 1], ops[j - 1], outcomes[j - 1], history[j], fileNo);
    }
  }

  /**
    Reading back over a whole run: after a successful write, and whatever else happens short of another
    write to that file, a successful read of the same range returns the bytes written, in any
    mode, across lost frames, re-authentication and key changes.
   */
  lemma ReadsBack(history: seq<T.Tag>, ops: seq<Op>, outcomes: seq<Outcome>, i: nat, j: nat)
    requires IsHistory(history, ops, outcomes) && i < j < |outcomes|
    requires ops[i].Write? && outcomes[i].Done? && ops[j].Read? && outcomes[j].Done?
    requires ops[j].fileNo == ops[i].fileNo && ops[j].offset == ops[i].offset && ops[j].length == |ops[i].data| > 0
    requires forall k :: i < k < j ==> !(ops[k].Write? && ops[k].fileNo == ops[i].fileNo)
    ensures outcomes[j].data == ops[i].data
  {
    var w, r := ops[i], ops[j];
    assert Explained(history[i], w, outcomes[i], history[i + 1]);
    var f := history[i + 1].files[w.fileNo].data;
    assert f[w.offset..w.offset + |w.data|] == w.data;
    LeavesFileAlong(history, ops, outcomes, i + 1, j, w.fileNo);
    assert Explained(history[j], r, outcomes[j], history[j + 1]);
    assert outcomes[j].data[..|outcomes[j].data|] == outcomes[j].data;
  }
}
