/** The abstract transport: a scripted far end (serial line or socket) and a
    clock. One `Exchange` value says how every step of one command cycle ends. */
module Transport {
  import opened Decode

  /** Minimum gap between two commands, in milliseconds (0.15 s in the source). */
  const MinTimeBetweenCommands: int := 150

  /** `SERIAL_TYPE` or `WIFI_TYPE`. */
  datatype Kind = SerialType | WifiType

  /** A serial `write` returns a byte count or raises. */
  datatype WriteResult = Wrote(count: int) | WriteRaises

  /** A serial `read(16)` or a socket `recv(16)` returns bytes or raises. */
  datatype ReadResult = Received(bytes: seq<byte>) | ReadRaises

  /** How each step of one command cycle ends. For a socket every flag says
      whether that call returned normally: socket creation, connect, the recv
      that clears the connection prompt, sendall, and shutdown plus close. */
  datatype Exchange =
    | SerialCycle(write: WriteResult, read: ReadResult)
    | SocketCycle(create: bool, connect: bool, clearPrompt: bool, sendAll: bool, recv: ReadResult, close: bool)

  function KindOf(ex: Exchange): Kind
  {
    match ex
    case SerialCycle(_, _) => SerialType
    case SocketCycle(_, _, _, _, _, _) => WifiType
  }

  /** Every scripted cycle belongs to a transport of the given kind. */
  predicate ScriptOf(kind: Kind, script: seq<Exchange>)
  {
    forall i :: 0 <= i < |script| ==> KindOf(script[i]) == kind
  }

  /** A far end past the end of its script: every step raises. */
  function Unplugged(kind: Kind): (ex: Exchange)
    ensures KindOf(ex) == kind
  {
    match kind
    case SerialType => SerialCycle(WriteRaises, ReadRaises)
    case WifiType => SocketCycle(false, false, false, false, ReadRaises, false)
  }

  /** The cycle the next command meets. */
  function Upcoming(kind: Kind, script: seq<Exchange>): (ex: Exchange)
    ensures ScriptOf(kind, script) ==> KindOf(ex) == kind
  {
    if script == [] then Unplugged(kind) else script[0]
  }

  /** The script left after n command cycles. */
  function Drop(script: seq<Exchange>, n: nat): (rest: seq<Exchange>)
    ensures |rest| == if n <= |script| then |script| - n else 0
    ensures forall i :: 0 <= i < |rest| ==> rest[i] == script[n + i]
  {
    if n <= |script| then script[n..] else []
  }

  /** Whether a cycle ends with `correctExecution` still true. A serial write
      only fails by raising; its byte count is not looked at (the source
      assigns a misspelled variable when the count is not 1). A serial read
      fails when it raises or returns fewer than one byte; a socket recv only
      when it raises. Reads happen only when a response is required. */
  predicate Succeeds(ex: Exchange, responseRequired: bool)
  {
    match ex
    case SerialCycle(write, read) =>
      !write.WriteRaises? && (responseRequired ==> read.Received? && |read.bytes| >= 1)
    case SocketCycle(create, connect, clearPrompt, sendAll, recv, close) =>
      create && connect && clearPrompt && sendAll && close && (responseRequired ==> recv.Received?)
  }

  /** The bytes a successful cycle with a response received. */
  function ResponseOf(ex: Exchange): seq<byte>
    requires Succeeds(ex, true)
  {
    match ex
    case SerialCycle(_, read) => read.bytes
    case SocketCycle(_, _, _, _, recv, _) => recv.bytes
  }

  /** What `__send_relay_command__` returns after the cycle ex: the response
      when one was required and no step failed, else the boolean outcome. */
  function CommandResult(ex: Exchange, responseRequired: bool): (r: Payload)
  {
    if responseRequired && Succeeds(ex, true) then Data(ResponseOf(ex)) else Flag(Succeeds(ex, responseRequired))
  }

  /** A command sent without asking for a response yields a flag, and the flag
      is true exactly when every step succeeded. */
  lemma ResultWithoutResponse(ex: Exchange)
    ensures CommandResult(ex, false) == Flag(Succeeds(ex, false))
  {
  }

  /** Asking for a response yields either bytes or `False`, never `True`. */
  lemma ResultWithResponse(ex: Exchange)
    ensures CommandResult(ex, true).Data? || CommandResult(ex, true) == Flag(false)
    ensures CommandResult(ex, true).Data? <==> Succeeds(ex, true)
  {
  }

  /** The misspelled `correctExceution`: a serial write that reports any byte
      count behaves like one that reports 1. This lemma only unfolds
      `CommandResult`; the evidence for the quirk is the body of
      `Relay.RelayModule.SendRelayCommand`, which assigns the misspelled local
      and is proved to return `CommandResult` of its cycle. */
  lemma WriteCountIgnored(count: int, read: ReadResult, responseRequired: bool)
    ensures CommandResult(SerialCycle(Wrote(count), read), responseRequired)
         == CommandResult(SerialCycle(Wrote(1), read), responseRequired)
  {
  }

  /** A serial response is never empty; a socket one can be. */
  lemma SerialResponseNonEmpty(ex: Exchange)
    requires KindOf(ex) == SerialType && CommandResult(ex, true).Data?
    ensures |CommandResult(ex, true).bytes| >= 1
  {
  }

  /** Wall-clock time in milliseconds; only ever moves forward. */
  class Clock {
    var now: int

    constructor (start: int)
      ensures now == start
    {
      now := start;
    }

    /** `time.sleep`, or time passing between calls. */
    method Advance(d: nat)
      modifies this
      ensures now == old(now) + d
    {
      now := now + d;
    }
  }
}
