/**
 * The connected link as the query cycle sees it: a writable control
 * characteristic and a readable readout characteristic. What the device does
 * is given up front as a script: whether each write is accepted in turn, and
 * what each read returns in turn (None for a failed read). A script that has
 * run out fails every further operation.
 */
module Transport {
  import opened Wrappers
  import opened Wire

  /** The two characteristics of the RD200 service the cycle uses. */
  datatype Characteristic = Control | Readout {
    function Uuid(): string
    {
      match this
      case Control => "00001524-1212-EFDE-1523-785FEABCD123"
      case Readout => "00001525-1212-EFDE-1523-785FEABCD123"
    }
  }

  /** One operation issued on the link. */
  datatype Op = WriteOp(target: Characteristic, payload: seq<byte>) | ReadOp(source: Characteristic)

  /** The script with its first entry used up. */
  function Rest<T>(s: seq<T>): seq<T>
  {
    if s == [] then [] else s[1..]
  }

  class Link {
    /** Every operation issued so far, oldest first. */
    var log: seq<Op>
    /** Whether each coming write is accepted, in turn. */
    var writeOk: seq<bool>
    /** What each coming read returns, in turn. */
    var replies: seq<Option<seq<byte>>>

    constructor (writeOk: seq<bool>, replies: seq<Option<seq<byte>>>)
      ensures this.log == [] && this.writeOk == writeOk && this.replies == replies
    {
      this.log := [];
      this.writeOk := writeOk;
      this.replies := replies;
    }

    /** Write a payload to a characteristic; false when the write failed. */
    method Write(target: Characteristic, payload: seq<byte>) returns (ok: bool)
      modifies this
      ensures log == old(log) + [WriteOp(target, payload)]
      ensures ok == (old(writeOk) != [] && old(writeOk)[0])
      ensures writeOk == Rest(old(writeOk)) && replies == old(replies)
    {
      log := log + [WriteOp(target, payload)];
      ok := writeOk != [] && writeOk[0];
      writeOk := Rest(writeOk);
    }

    /** Read a characteristic; None when the read failed. */
    method Read(source: Characteristic) returns (r: Option<seq<byte>>)
      modifies this
      ensures log == old(log) + [ReadOp(source)]
      ensures r == if old(replies) == [] then None else old(replies)[0]
      ensures replies == Rest(old(replies)) && writeOk == old(writeOk)
    {
      log := log + [ReadOp(source)];
      r := if replies == [] then None else replies[0];
      replies := Rest(replies);
    }
  }
}
