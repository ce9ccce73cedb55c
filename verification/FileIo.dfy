/** The read and write calls of POSIX as the loops of src/hls.c use them. */
module FileIo {
  import opened Prelude

  /** What one read or write call does: interrupted, failed, or this many bytes at most. */
  datatype Io = Interrupted | Error | Bytes(n: nat)

  /** Running means the calls listed for it were used up before the loop ended. */
  datatype Outcome = Success | Failure | Running

  /** How far a write loop got, how it ended, and the number of the next call. */
  datatype Progress = Progress(written: nat, rc: Outcome, at: nat)

  /** The write loop from offset `off` of a buffer of `size` bytes on: short writes are continued,
      interrupted ones repeated. */
  function WriteLoop(size: nat, off: nat, calls: seq<Io>, at: nat): (p: Progress)
    requires off <= size && at <= |calls|
    ensures off <= p.written <= size && at <= p.at <= |calls|
    ensures p.rc.Success? ==> p.written == size
    ensures Explained(p.rc, calls, p.at)
    decreases |calls| - at
  {
    if off == size then Progress(off, Success, at)
    else if at == |calls| then Progress(off, Running, at)
    else match calls[at]
      case Error => Progress(off, Failure, at + 1)
      case Interrupted => WriteLoop(size, off, calls, at + 1)
      case Bytes(n) => WriteLoop(size, off + Min(n, size - off), calls, at + 1)
  }

  /** A failure has a failed call to show, and only a shortage of calls leaves a loop running. */
  predicate Explained(rc: Outcome, calls: seq<Io>, at: nat) {
    && (rc.Failure? ==> exists k | 0 <= k < |calls| :: calls[k].Error?)
    && (rc.Running? ==> at == |calls|)
  }

  /** The write loop, on an output file open at its end. */
  method WriteAll(out: seq<byte>, buf: seq<byte>, calls: seq<Io>, at: nat)
    returns (out': seq<byte>, rc: Outcome, at': nat)
    requires at <= |calls|
    ensures var p := WriteLoop(|buf|, 0, calls, at);
            out' == out + buf[..p.written] && rc == p.rc && at' == p.at
  {
    out', at' := out, at;
    var off := 0;
    while off < |buf|
      invariant 0 <= off <= |buf| && at <= at' <= |calls|
      invariant out' == out + buf[..off]
      invariant WriteLoop(|buf|, off, calls, at') == WriteLoop(|buf|, 0, calls, at)
      decreases |calls| - at'
    {
      if at' == |calls| {
        return out', Running, at';
      }
      var call := calls[at'];
      at' := at' + 1;
      if call.Error? {
        return out', Failure, at';
      }
      if call.Bytes? {
        var w := Min(call.n, |buf| - off);
        assert buf[..off] + buf[off..off + w] == buf[..off + w];
        out' := out' + buf[off..off + w];
        off := off + w;
      }
    }
    rc := Success;
  }
}
