/**
 The segmented download engine of src/flux.c as a state machine.

 A file of `size` bytes is cut into half-open ranges [currentbyte, lastbyte), one a connection.
 The main thread polls connections, hands the bytes it reads to the output file and lets a
 finished connection steal half of the largest unfinished range.  Setup threads run beside it:
 each takes the connection's lock, asks the server for the bytes from `currentbyte` on and ends
 by setting or not setting `enabled`.

 Every event below is one atomic action of one thread or of the environment; `Step` ignores an
 event whose guard does not hold, so a run is any list of events.
 */
module FluxModel {
  import opened Prelude

  const MIN_CHUNK_WORTH := 102400

  /** Where a connection's setup thread is.  `Asking` holds the connection's lock. */
  datatype Setup =
    | Idle
    | Launched            // created, has not taken the lock yet
    | Asking(from: int)   // holds the lock, has requested the bytes from this offset on

  /** The fields of conn_t the engine works on, plus the two ends of its socket: the setup thread
      and the source offset of the next byte the server will deliver. */
  datatype Conn = Conn(
    currentbyte: int,
    lastbyte: int,
    enabled: bool,
    state: bool,
    setup: Setup,
    next: int)
  {
    function Remaining(): int { lastbyte - currentbyte }

    predicate Unfinished() { currentbyte < lastbyte }

    predicate Covers(k: int) { currentbyte <= k < lastbyte }

    /** The main thread's trylock fails only while a setup thread is at work. */
    predicate LockFree() { !setup.Asking? }
  }

  /** One process: the fields of flux_t that survive a call of flux_do. */
  datatype Flux = Flux(size: int, conns: seq<Conn>, bytesDone: int, ready: int)

  /** A process together with the file it writes. */
  datatype Download = Download(flux: Flux, file: seq<byte>)

  /** What can happen to one connection. */
  datatype Action =
    | Launch(created: bool, starting: bool)  // main thread creates a setup thread
    | Ask                                    // the setup thread locks and sends its request
    | SetupOk
    | SetupFail
    | Cancel                                 // reconnect delay over: cancel and join
    | Wake                                   // flux_start finds the range already finished
    | Timeout
    | ReadError
    | Eof
    | Data(n: nat, wrote: int)               // n bytes read, write() returned `wrote`

  datatype Event =
    | At(i: nat, action: Action)
    | Abort    // select or one of the sleeps failed
    | Finish   // the check at the end of flux_do

  // ----- dividing the file

  /** The number of connections flux_divide keeps. */
  function ConnectionCount(size: int, wanted: int): int
  {
    Min(Max(1, size / MIN_CHUNK_WORTH), wanted)
  }

  function FreshConn(currentbyte: int, lastbyte: int): Conn {
    Conn(currentbyte, lastbyte, false, false, Idle, 0)
  }

  /** The cut for a given number of connections: equal segments, the remainder added to the last. */
  function Cut(size: int, n: int): seq<Conn>
    requires 1 <= n <= size
  {
    var segLen := size / n;
    seq(n, i requires 0 <= i < n =>
      FreshConn(segLen * i, segLen * i + segLen + if i == n - 1 then size % segLen else 0))
  }

  function Divide(size: int, wanted: int): seq<Conn>
    requires 1 <= size && 1 <= wanted
  {
    Cut(size, ConnectionCount(size, wanted))
  }

  // ----- work stealing

  /** Index of the first largest remaining range among the first n connections, if any reaches
      MIN_CHUNK_WORTH. */
  function Victim(cs: seq<Conn>, n: nat): Option<nat>
    requires n <= |cs|
    ensures Victim(cs, n).Some? ==> Victim(cs, n).value < n
  {
    if n == 0 then None else
    var best := Victim(cs, n - 1);
    var bar := if best.Some? then cs[best.value].Remaining() else MIN_CHUNK_WORTH - 1;
    if cs[n - 1].Remaining() > bar then Some(n - 1) else best
  }

  /** Connection `thief` takes the upper half of the range of `victim`. */
  function Steal(cs: seq<Conn>, thief: nat, victim: nat): seq<Conn>
    requires thief < |cs| && victim < |cs|
  {
    var mid := cs[victim].currentbyte + cs[victim].Remaining() / 2;
    cs[thief := cs[thief].(currentbyte := mid, lastbyte := cs[victim].lastbyte)]
      [victim := cs[victim].(lastbyte := mid)]
  }

  predicate Steals(cs: seq<Conn>, thief: nat)
    requires thief < |cs|
  {
    !cs[thief].enabled && !cs[thief].Unfinished() && Victim(cs, |cs|).Some?
  }

  function Reactivate(cs: seq<Conn>, thief: nat): seq<Conn>
    requires thief < |cs|
  {
    if Steals(cs, thief) then Steal(cs, thief, Victim(cs, |cs|).value) else cs
  }

  // ----- the output file

  function Zeros(n: nat): (z: seq<byte>)
    ensures |z| == n
  {
    seq(n, _ => 0 as byte)
  }

  /** lseek + write: a write past the end first fills the gap with zeros; an empty one does nothing. */
  function WriteAt(file: seq<byte>, off: nat, data: seq<byte>): seq<byte> {
    if data == [] then file else
    var f := if |file| < off then file + Zeros(off - |file|) else file;
    f[..off] + data + if off + |data| <= |f| then f[off + |data|..] else []
  }

  // ----- one event

  /** How many of n delivered bytes belong to the range: the clamp of an over-long read. */
  function Wanted(c: Conn, n: int): int {
    if c.Remaining() < n then c.Remaining() else n
  }

  /** When an action can happen to connection c.  The main thread acts only with the lock free. */
  predicate Allowed(src: seq<byte>, ready: int, c: Conn, a: Action) {
    match a
    case Launch(_, _) => c.LockFree() && !c.enabled && c.Unfinished() && !c.state
    case Ask => c.setup.Launched?
    case SetupOk => c.setup.Asking?
    case SetupFail => c.setup.Asking?
    case Cancel => c.LockFree() && !c.enabled && c.Unfinished() && c.state
    case Wake => ready == 0 && c.LockFree() && !c.Unfinished()
    case Timeout => ready == 0 && c.LockFree() && c.enabled
    case ReadError => ready == 0 && c.LockFree() && c.enabled
    case Eof => ready == 0 && c.LockFree() && c.enabled
    case Data(n, wrote) =>
      && ready == 0 && c.LockFree() && c.enabled
      && 1 <= n && 0 <= c.next && c.next + n <= |src|
      && -1 <= wrote <= Wanted(c, n)
  }

  /** How far `currentbyte` and `bytes_done` advance: nothing when the write was short. */
  function Gained(c: Conn, a: Action): int {
    if a.Data? && a.wrote == Wanted(c, a.n) then a.wrote else 0
  }

  /** The connection's own fields after an action. */
  function Touched(c: Conn, a: Action): Conn {
    match a
    case Launch(created, _) => c.(state := true, setup := if created then Launched else Idle)
    case Ask => c.(setup := Asking(c.currentbyte))
    case SetupOk => c.(enabled := true, state := false, setup := Idle,
                       next := if c.setup.Asking? then c.setup.from else c.next)
    case SetupFail => c.(enabled := false, state := false, setup := Idle)
    case Cancel => c.(state := false, setup := Idle)
    case Wake => c
    case Timeout => c.(enabled := false)
    case ReadError => c.(enabled := false)
    case Eof => c.(enabled := false)
    case Data(n, _) => c.(currentbyte := c.currentbyte + Gained(c, a), next := c.next + n,
                          enabled := c.enabled && n <= c.Remaining())
  }

  /** Whether the main thread goes on to call reactivate_connection. */
  predicate Retires(c: Conn, a: Action) {
    match a
    case Wake => true
    case Eof => true
    case Data(n, wrote) => wrote == Wanted(c, n) == c.Remaining()
    case _ => false
  }

  /** Whether the action ends the run with ready = -1. */
  predicate Breaks(c: Conn, a: Action) {
    match a
    case Launch(created, starting) => !created && !starting
    case Data(n, wrote) => wrote != Wanted(c, n)
    case _ => false
  }

  predicate Enabled(src: seq<byte>, s: Flux, e: Event) {
    match e
    case Abort => s.ready != 1
    case Finish => s.bytesDone == s.size
    case At(i, a) => i < |s.conns| && Allowed(src, s.ready, s.conns[i], a)
  }

  function Act(s: Flux, i: nat, a: Action): Flux
    requires i < |s.conns|
  {
    var c := s.conns[i];
    var cs := s.conns[i := Touched(c, a)];
    s.(conns := if Retires(c, a) then Reactivate(cs, i) else cs,
       bytesDone := s.bytesDone + Gained(c, a),
       ready := if Breaks(c, a) then -1 else s.ready)
  }

  /** The file offsets an event writes: all wanted bytes, or those that reached the disk before
      the write failed. */
  function Written(src: seq<byte>, s: Flux, e: Event): (int, int) {
    if e.At? && e.action.Data? && Enabled(src, s, e) then
      var c := s.conns[e.i];
      (c.currentbyte, c.currentbyte + Max(0, e.action.wrote))
    else
      (0, 0)
  }

  /** The file after an event: the bytes are those the server sent from its own position. */
  function FileAfter(src: seq<byte>, d: Download, e: Event): seq<byte> {
    var (lo, hi) := Written(src, d.flux, e);
    if 0 <= lo < hi && e.At? then
      var next := d.flux.conns[e.i].next;
      WriteAt(d.file, lo, src[next..next + (hi - lo)])
    else
      d.file
  }

  function Step(src: seq<byte>, d: Download, e: Event): Download {
    if !Enabled(src, d.flux, e) then d
    else
      var flux := match e
        case Abort => d.flux.(ready := -1)
        case Finish => d.flux.(ready := 1)
        case At(i, a) => Act(d.flux, i, a);
      Download(flux, FileAfter(src, d, e))
  }

  function Run(src: seq<byte>, d: Download, es: seq<Event>): Download
    decreases |es|
  {
    if es == [] then d else Run(src, Step(src, d, es[0]), es[1..])
  }
}
