/** The reader between host and tag: any APDU, or its answer, may be lost on the way. */
module Transport {
  import opened Wrappers
  import opened Octets
  import opened Aes
  import opened Tag

  datatype SessionError =
    | TransportError
    | ErrorResponse(sw1: byte, sw2: byte)
    | UnexpectedLength(got: nat, expected: nat)
    | ApduBodyTooLarge(got: nat, max: nat)
    | InvalidCommandParameter(parameter: string, found: int)
    | NotBlockAligned(len: nat)
    | ResponseMacMismatch
    | AuthenticationMismatch
    /** Not an error of the source: an index out of range, where it panics. */
    | IndexPanic

  /** What happens to one exchange. `Forged` answers exist only on a link that is not honest. */
  datatype Fate = Delivered | AnswerLost | CommandLost | Forged(reply: Reply)

  /** What can be seen of a link: the tag, and every APDU sent to it in order. */
  datatype Trace = Trace(tag: Tag, log: seq<seq<byte>>)

  class Link {
    const aes: Aes128
    const honest: bool
    var tag: Tag
    ghost var log: seq<seq<byte>>
    /** How many of them reached the tag. */
    ghost var delivered: nat

    ghost function Seen(): Trace
      reads this
    {
      Trace(tag, log)
    }

    constructor (aes: Aes128, honest: bool, tag: Tag)
      ensures this.aes == aes && this.honest == honest && this.tag == tag && log == [] && delivered == 0
    {
      this.aes, this.honest, this.tag, log, delivered := aes, honest, tag, [], 0;
    }

    method Transmit(apdu: seq<byte>) returns (r: Result<Reply, SessionError>)
      modifies this
      ensures log == old(log) + [apdu]
      ensures || (delivered == old(delivered) && tag == old(tag) && r.Err?)
              || (delivered == old(delivered) + 1 && tag == Step(aes, old(tag), apdu).0)
      ensures r.Err? ==> r.error == TransportError
      ensures r.Ok? ==> |r.value.data| <= 256
      ensures r.Ok? && honest ==> (tag, r.value) == Step(aes, old(tag), apdu)
    {
      log := log + [apdu];
      var fate: Fate := *;
      if fate.CommandLost? {
        return Err(TransportError);
      }
      var s := Step(aes, tag, apdu);
      tag, delivered := s.0, delivered + 1;
      if fate.AnswerLost? {
        return Err(TransportError);
      } else if fate.Forged? && !honest && |fate.reply.data| <= 256 {
        return Result.Ok(fate.reply);
      }
      return Result.Ok(s.1);
    }
  }
}
