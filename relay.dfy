/** `relayModule`: one board behind one transport, with its relay count, the
    time of its last command and the trace of the commands it sent. */
module Relay {
  import opened Results
  import opened Commands
  import opened Decode
  import opened Transport

  /** A tuple address means a WIFI board, anything else a serial device. */
  datatype Device = SerialPort(path: string) | NetworkAddress(host: string, port: int)

  function KindFor(device: Device): Kind
  {
    if device.NetworkAddress? then WifiType else SerialType
  }

  /** One command handed to the transport, and when. */
  datatype Sent = Sent(command: char, at: int)

  function CommandsOf(trace: seq<Sent>): (cs: seq<char>)
    ensures |cs| == |trace| && forall i :: 0 <= i < |trace| ==> cs[i] == trace[i].command
  {
    seq(|trace|, i requires 0 <= i < |trace| => trace[i].command)
  }

  /** Consecutive commands of a trace are at least the minimum gap apart. */
  predicate Spaced(trace: seq<Sent>)
  {
    forall i :: 0 <= i < |trace| - 1 ==> trace[i].at + MinTimeBetweenCommands <= trace[i + 1].at
  }

  /** In a spaced trace, commands i < j are at least (j - i) minimum gaps apart. */
  lemma {:induction false} SpacedGaps(trace: seq<Sent>, i: nat, j: nat)
    requires Spaced(trace) && i <= j < |trace|
    ensures trace[j].at - trace[i].at >= (j - i) * MinTimeBetweenCommands
  {
    if i < j {
      SpacedGaps(trace, i, j - 1);
    }
  }

  function Min(a: int, b: int): int { if a < b then a else b }

  /** Python truthiness of the `relayCount` argument. */
  predicate IsGiven(relayCount: Option<int>)
  {
    relayCount.Some? && relayCount.value != 0
  }

  // ---------------------------------------------------------------------------
  // Specifications of the operations, as functions of the scripted transport
  // ---------------------------------------------------------------------------

  /** The three commands of the calibration sequence, in order. */
  const CalibrationCommands: seq<char> := [SetPositionCode(1, 0), OperationCode(GetStates), SetPositionCode(0, 0)]

  /** Calibration sends 'd' (all relays to 1), '[' (getStates), 'n' (all relays to 0). */
  lemma CalibrationCommandCodes()
    ensures CalibrationCommands == ['d', '[', 'n']
  {
  }

  /** How far `__set_relay_count__` gets: how many commands it sends, the count
      it measured (if it reached the state byte) and its answer. */
  datatype CalibrationRun = CalibrationRun(sends: nat, measured: Option<int>, answer: Answer<int>)

  /** `__set_relay_count__` against the script: all relays on, read the state
      byte, measure its binary rendering, all relays off; stop at the first
      failure. `Returns(n)` stands for the source's `True` with count n. */
  function Calibration(kind: Kind, script: seq<Exchange>): CalibrationRun
  {
    var allOn := CommandResult(Upcoming(kind, script), false);
    if !Truthy(allOn) then CalibrationRun(1, None, ReturnsFalse)
    else
      var states := CommandResult(Upcoming(kind, Drop(script, 1)), true);
      if states == Flag(false) then CalibrationRun(2, None, ReturnsFalse)
      else
        match BinaryString(states)
        case None => CalibrationRun(2, None, RaisesIndexError)
        case Some(bits) =>
          var allOff := CommandResult(Upcoming(kind, Drop(script, 2)), false);
          CalibrationRun(3, Some(|bits|), if Truthy(allOff) then Returns(|bits|) else ReturnsFalse)
  }

  /** The relay count construction settles on: the caller's value clamped to
      at most 8, else the calibrated count, else the fallback 8. */
  function ConstructedCount(kind: Kind, script: seq<Exchange>, relayCount: Option<int>): Answer<int>
  {
    if IsGiven(relayCount) then Returns(Min(relayCount.value, 8))
    else
      match Calibration(kind, script).answer
      case RaisesIndexError => RaisesIndexError
      case ReturnsFalse => Returns(8)
      case Returns(n) => Returns(n)
  }

  /** The relay numbers 1..n. */
  function RelayNumbers(n: int): (s: set<int>)
    ensures forall i :: i in s <==> 1 <= i <= n
    decreases n
  {
    if n <= 0 then {} else RelayNumbers(n - 1) + {n}
  }

  /** The relay map for state byte v: keys 1 .. max(count, digits of v), relay
      i holding bit i-1 of v. */
  function RelayStates(v: byte, count: int): map<int, int>
  {
    map i | i in RelayNumbers(Max(count, |Binary(v)|)) :: Bit(v, i - 1)
  }

  /** What `get_relay_positions` gives for the response of its getStates command. */
  function PositionsAnswer(response: Payload, count: int): Answer<map<int, int>>
  {
    if response == Flag(false) then ReturnsFalse
    else if ToInts(response) == [] then RaisesIndexError
    else Returns(RelayStates(ToInts(response)[0], count))
  }

  /** What `get_temperature` gives for the response of its getTemperature command. */
  function TemperatureAnswer(response: Payload): Answer<seq<byte>>
  {
    match response
    case Data(d) => if |d| > 0 then Returns(RStrip(d)) else ReturnsFalse
    case Flag(_) => ReturnsFalse
  }

  /** The admissible arguments of `set_relay_position`. */
  predicate ValidRequest(relay: int, position: int, count: int)
  {
    0 <= relay <= count && IsPosition(position)
  }

  // ---------------------------------------------------------------------------
  // Properties of the specifications
  // ---------------------------------------------------------------------------

  /** A calibration that reaches the state byte measures 1 to 8 relays, and a
      successful one answers with that count. */
  lemma CalibratedCount(kind: Kind, script: seq<Exchange>)
    ensures var c := Calibration(kind, script);
      1 <= c.sends <= 3 &&
      (c.measured.Some? ==> 1 <= c.measured.value <= 8) &&
      (c.answer.Returns? ==> c.measured == Some(c.answer.value) && c.sends == 3)
  {
  }

  /** On a serial line calibration never raises: a serial read of no bytes is
      a failure, so the state byte always exists. */
  lemma SerialCalibrationNeverRaises(script: seq<Exchange>)
    requires ScriptOf(SerialType, script)
    ensures !Calibration(SerialType, script).answer.RaisesIndexError?
  {
    var ex := Upcoming(SerialType, Drop(script, 1));
    if CommandResult(ex, true).Data? {
      SerialResponseNonEmpty(ex);
    }
  }

  /** A constructed module has at most 8 relays; one that was calibrated has at least 1. */
  lemma ConstructedCountRange(kind: Kind, script: seq<Exchange>, relayCount: Option<int>)
    ensures ConstructedCount(kind, script, relayCount).Returns? ==>
      ConstructedCount(kind, script, relayCount).value <= 8 &&
      (!IsGiven(relayCount) ==> 1 <= ConstructedCount(kind, script, relayCount).value)
    ensures (ConstructedCount(kind, script, relayCount).RaisesIndexError?) <==>
      (!IsGiven(relayCount) && Calibration(kind, script).answer.RaisesIndexError?)
  {
    CalibratedCount(kind, script);
  }

  /** Padded entries of the relay map are 0: every relay above the state byte's
      top digit reads position 0. */
  lemma RelayStatesPadding(v: byte, count: int, i: int)
    requires i in RelayStates(v, count) && i > |Binary(v)|
    ensures RelayStates(v, count)[i] == 0
  {
    BitBeyondBinary(v, i - 1);
  }

  /** When the state byte fits in count bits (as it does for a board with count
      relays) the map has exactly the keys 1..count. */
  lemma RelayStatesKeys(v: byte, count: nat)
    requires count >= 1 && v < Pow2(count)
    ensures RelayStates(v, count).Keys == RelayNumbers(count)
  {
    BinaryWidth(v, count);
  }

  /** The key set is never cut down to count: a state byte with high bits set
      gives more keys than there are relays. */
  lemma RelayStatesNotTruncated()
    ensures 8 in RelayStates(255, 2) && RelayStates(255, 2)[8] == 1
  {
    assert Binary(1) == "1";
    assert Binary(3) == Binary(1) + "1";
    assert Binary(7) == Binary(3) + "1";
    assert Binary(15) == Binary(7) + "1";
    assert Binary(31) == Binary(15) + "1";
    assert Binary(63) == Binary(31) + "1";
    assert Binary(127) == Binary(63) + "1";
    assert Binary(255) == Binary(127) + "1";
    assert Bit(255, 7) == Bit(127, 6) == Bit(63, 5) == Bit(31, 4) == Bit(15, 3) == Bit(7, 2) == Bit(3, 1) == Bit(1, 0);
  }

  /** On the response "23.5\r\n" get_temperature gives "23.5"; on a failed command `False`. */
  lemma TemperatureExamples()
    ensures TemperatureAnswer(Data([50, 51, 46, 53, 13, 10])) == Returns([50, 51, 46, 53])
    ensures TemperatureAnswer(Flag(false)) == ReturnsFalse
  {
    var s: seq<byte> := [50, 51, 46, 53, 13, 10];
    assert s[..5] == [50, 51, 46, 53, 13] && s[..5][..4] == [50, 51, 46, 53];
    assert RStrip(s) == RStrip(s[..5]) == RStrip(s[..5][..4]);
  }

  // ---------------------------------------------------------------------------
  // The loop of get_relay_positions
  // ---------------------------------------------------------------------------

  /** Fill the relay map from the reversed bit list with a running relay
      number starting at 1: relay i gets int(bits[i-1]). */
  method BuildRelayStates(bits: seq<char>) returns (relayStates: map<int, int>)
    ensures relayStates.Keys == RelayNumbers(|bits|)
    ensures forall i :: 1 <= i <= |bits| ==> relayStates[i] == DigitValue(bits[i - 1])
  {
    relayStates := map[];
    var relay := 1;
    for k := 0 to |bits|
      invariant relay == k + 1
      invariant relayStates.Keys == RelayNumbers(k)
      invariant forall i :: 1 <= i <= k ==> relayStates[i] == DigitValue(bits[i - 1])
    {
      relayStates := relayStates[relay := DigitValue(bits[k])];
      relay := relay + 1;
    }
  }

  /** The map the loop builds from bin(v), padded to count and reversed, is RelayStates(v, count). */
  lemma BuiltStatesMatch(v: byte, count: int, bits: string, states: map<int, int>)
    requires bits == Reverse(ZFill(Binary(v), count))
    requires states.Keys == RelayNumbers(|bits|)
    requires forall i :: 1 <= i <= |bits| ==> states[i] == DigitValue(bits[i - 1])
    ensures states == RelayStates(v, count)
  {
    PaddedBits(v, count, bits);
    SameStates(v, count, |bits|, states);
  }

  /** A map on keys 1..n with relay i holding bit i-1 of v, where n is
      max(count, digits of v), is RelayStates(v, count). */
  lemma SameStates(v: byte, count: int, n: int, states: map<int, int>)
    requires n == Max(count, |Binary(v)|)
    requires states.Keys == RelayNumbers(n)
    requires forall i :: 1 <= i <= n ==> states[i] == Bit(v, i - 1)
    ensures states == RelayStates(v, count)
  {
  }

  // ---------------------------------------------------------------------------
  // The module
  // ---------------------------------------------------------------------------

  class RelayModule {
    const device: Device
    const kind: Kind
    const clock: Clock
    /** The far end's behaviour for the command cycles still to come. */
    var script: seq<Exchange>
    /** Every command this module handed to its transport. */
    var sent: seq<Sent>
    var relayCount: int
    var timeOfLastCommand: int

    ghost predicate Valid()
      reads this
    {
      relayCount <= 8 &&
      kind == KindFor(device) &&
      ScriptOf(kind, script) &&
      Spaced(sent) &&
      (sent != [] ==> sent[|sent| - 1].at <= timeOfLastCommand)
    }

    /** The first half of `__init__`: the transport type and the clock reading;
        the relay count is the one the caller of this constructor settles on. */
    constructor Init(device: Device, script: seq<Exchange>, clock: Clock, relayCount: int)
      requires ScriptOf(KindFor(device), script) && relayCount <= 8
      ensures Valid()
      ensures this.device == device && this.clock == clock && this.script == script
      ensures this.relayCount == relayCount && sent == [] && timeOfLastCommand == clock.now
    {
      this.device := device;
      this.kind := KindFor(device);
      this.clock := clock;
      this.script := script;
      this.sent := [];
      this.relayCount := relayCount;
      this.timeOfLastCommand := clock.now;
    }

    /** `relayModule(device, relayCount)`: trust a truthy count (clamped to 8)
        without sending anything, or calibrate and fall back to 8. An
        `IndexError` from calibration escapes construction. */
    static method Create(device: Device, script: seq<Exchange>, clock: Clock, relayCount: Option<int>)
        returns (r: Answer<RelayModule>)
      requires ScriptOf(KindFor(device), script)
      modifies clock
      ensures !r.ReturnsFalse?
      ensures r.RaisesIndexError? <==> ConstructedCount(KindFor(device), script, relayCount).RaisesIndexError?
      ensures r.Returns? ==>
        fresh(r.value) && r.value.Valid() &&
        r.value.device == device && r.value.clock == clock &&
        Returns(r.value.relayCount) == ConstructedCount(KindFor(device), script, relayCount) &&
        r.value.timeOfLastCommand == clock.now
      ensures r.Returns? && IsGiven(relayCount) ==>
        r.value.sent == [] && r.value.script == script && clock.now == old(clock.now)
      ensures r.Returns? && !IsGiven(relayCount) ==>
        var c := Calibration(KindFor(device), script);
        CommandsOf(r.value.sent) == CalibrationCommands[..c.sends] &&
        r.value.script == Drop(script, c.sends) &&
        clock.now == old(clock.now) + c.sends * MinTimeBetweenCommands
    {
      if IsGiven(relayCount) {
        var m := new RelayModule.Init(device, script, clock, Min(relayCount.value, 8));
        return Returns(m);
      }
      var m := new RelayModule.Init(device, script, clock, 8);
      var calibrated := m.SetRelayCount();
      match calibrated {
        case RaisesIndexError =>
          r := RaisesIndexError;
        case ReturnsFalse =>
          m.relayCount := 8;
          r := Returns(m);
        case Returns(_) =>
          r := Returns(m);
      }
    }

    /** `__send_relay_command__`: wait out the minimum gap since the last
        command, run one cycle of the transport, stamp the time on every path,
        and return the response or the boolean outcome. */
    method SendRelayCommand(command: char, responseRequired: bool) returns (r: Payload)
      requires Valid()
      modifies this, clock
      ensures Valid() && relayCount == old(relayCount)
      ensures script == Drop(old(script), 1)
      ensures timeOfLastCommand == clock.now
      ensures timeOfLastCommand == Max(old(clock.now), old(timeOfLastCommand) + MinTimeBetweenCommands)
      ensures sent == old(sent) + [Sent(command, timeOfLastCommand)]
      ensures r == CommandResult(Upcoming(kind, old(script)), responseRequired)
    {
      var timeGap := clock.now - timeOfLastCommand;
      if timeGap < MinTimeBetweenCommands {
        clock.Advance(MinTimeBetweenCommands - timeGap);
      }
      var exchange := Upcoming(kind, script);
      script := Drop(script, 1);
      sent := sent + [Sent(command, clock.now)];
      var correctExecution := true;
      var response: seq<byte> := [];
      // Valid() ties the cycle's shape to self.type, so matching on it is the
      // source's dispatch on SERIAL_TYPE / WIFI_TYPE.
      match exchange {
        case SerialCycle(write, read) =>
          if write.WriteRaises? {
            correctExecution := false;
          } else if write.count != 1 {
            // the source assigns a misspelled name here, leaving the flag as it is
            var correctExceution := false;
          }
          if responseRequired {
            if read.ReadRaises? {
              correctExecution := false;
            } else {
              response := read.bytes;
              if |response| < 1 {
                correctExecution := false;
              }
            }
          }
        case SocketCycle(create, connect, clearPrompt, sendAll, recv, close) =>
          if !create { correctExecution := false; }
          if !connect { correctExecution := false; }
          if !clearPrompt { correctExecution := false; }
          if !sendAll { correctExecution := false; }
          if responseRequired {
            if recv.ReadRaises? {
              correctExecution := false;
            } else {
              response := recv.bytes;
            }
          }
          if !close { correctExecution := false; }
      }
      timeOfLastCommand := clock.now;
      if correctExecution && responseRequired {
        r := Data(response);
      } else {
        r := Flag(correctExecution);
      }
    }

    /** `__set_relay_count__`: the calibration sequence. */
    method SetRelayCount() returns (r: Answer<int>)
      requires Valid()
      modifies this, clock
      ensures Valid()
      ensures var c := Calibration(kind, old(script));
        r == c.answer &&
        script == Drop(old(script), c.sends) &&
        |sent| == |old(sent)| + c.sends && sent[..|old(sent)|] == old(sent) &&
        CommandsOf(sent[|old(sent)|..]) == CalibrationCommands[..c.sends] &&
        relayCount == (if c.measured.Some? then c.measured.value else old(relayCount)) &&
        timeOfLastCommand == clock.now ==
          Max(old(clock.now), old(timeOfLastCommand) + MinTimeBetweenCommands) + (c.sends - 1) * MinTimeBetweenCommands
    {
      ghost var script0, sent0 := script, sent;
      var allOn := SendRelayCommand(SetPositionCode(1, 0), false);
      if !Truthy(allOn) {
        return ReturnsFalse;
      }
      var response := SendRelayCommand(OperationCode(GetStates), true);
      if response == Flag(false) {
        assert script == Drop(script0, 2);
        return ReturnsFalse;
      }
      var responseBits := BinaryString(response);
      if responseBits.None? {
        assert script == Drop(script0, 2);
        return RaisesIndexError;
      }
      relayCount := |responseBits.value|;
      var allOff := SendRelayCommand(SetPositionCode(0, 0), false);
      assert script == Drop(script0, 3);
      if !Truthy(allOff) {
        return ReturnsFalse;
      }
      return Returns(relayCount);
    }

    /** `set_relay_position`: reject a relay outside 0..relayCount or a position
        other than 0 and 1 before anything is sent; otherwise send the one
        set-position code and report whether the send succeeded. */
    method SetRelayPosition(relay: int, position: int) returns (ok: bool)
      requires Valid()
      modifies this, clock
      ensures Valid() && relayCount == old(relayCount)
      ensures !ValidRequest(relay, position, relayCount) ==> !ok && unchanged(this) && unchanged(clock)
      ensures ValidRequest(relay, position, relayCount) ==>
        script == Drop(old(script), 1) &&
        sent == old(sent) + [Sent(SetPositionCode(position, relay), timeOfLastCommand)] &&
        timeOfLastCommand == clock.now == Max(old(clock.now), old(timeOfLastCommand) + MinTimeBetweenCommands) &&
        ok == Succeeds(Upcoming(kind, old(script)), false)
    {
      if 0 <= relay <= relayCount {
        if 0 <= position <= 1 {
          var result := SendRelayCommand(SetPositionCode(position, relay), false);
          if Truthy(result) {
            return true;
          }
        }
      }
      return false;
    }

    /** `get_relay_positions`: read the state byte, render it in binary, pad it
        to relayCount, reverse it, and number the bits from relay 1. */
    method GetRelayPositions() returns (r: Answer<map<int, int>>)
      requires Valid()
      modifies this, clock
      ensures Valid() && relayCount == old(relayCount)
      ensures script == Drop(old(script), 1)
      ensures sent == old(sent) + [Sent(OperationCode(GetStates), timeOfLastCommand)]
      ensures timeOfLastCommand == clock.now == Max(old(clock.now), old(timeOfLastCommand) + MinTimeBetweenCommands)
      ensures r == PositionsAnswer(CommandResult(Upcoming(kind, old(script)), true), relayCount)
    {
      var response := SendRelayCommand(OperationCode(GetStates), true);
      if response == Flag(false) {
        return ReturnsFalse;
      }
      var responseBits := BinaryString(response);
      if responseBits.None? {
        return RaisesIndexError;
      }
      var padded := ZFill(responseBits.value, relayCount);
      var reversed := Reverse(padded);
      var relayStates := BuildRelayStates(reversed);
      BuiltStatesMatch(ToInts(response)[0], relayCount, reversed, relayStates);
      return Returns(relayStates);
    }

    /** `get_temperature`: the response with trailing whitespace stripped, or
        `False` when the response is falsy. */
    method GetTemperature() returns (r: Answer<seq<byte>>)
      requires Valid()
      modifies this, clock
      ensures Valid() && relayCount == old(relayCount)
      ensures script == Drop(old(script), 1)
      ensures sent == old(sent) + [Sent(OperationCode(Operation.GetTemperature), timeOfLastCommand)]
      ensures timeOfLastCommand == clock.now == Max(old(clock.now), old(timeOfLastCommand) + MinTimeBetweenCommands)
      ensures r == TemperatureAnswer(CommandResult(Upcoming(kind, old(script)), true))
    {
      var temperature := SendRelayCommand(OperationCode(Operation.GetTemperature), true);
      if Truthy(temperature) {
        r := Returns(RStrip(temperature.bytes));
      } else {
        r := ReturnsFalse;
      }
    }
  }
}
