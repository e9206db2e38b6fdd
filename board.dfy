/** A fault-free board behind the transport: it keeps one state byte, a
    set-position command changes that byte, and getStates answers with it. The source does not
    contain this board. It is the far end that the driver's commands are
    written for, and the lemmas here show that the driver reads back what it
    wrote. */
module Board {
  import opened Results
  import opened Commands
  import opened Decode
  import opened Transport
  import opened Relay

  /** v with bit k replaced by b. */
  function SetBit(v: nat, k: nat, b: int): nat
    requires 0 <= b <= 1
  {
    if k == 0 then v - v % 2 + b else 2 * SetBit(v / 2, k - 1, b) + v % 2
  }

  /** SetBit changes bit k to b and no other bit. */
  lemma {:induction false} BitOfSetBit(v: nat, k: nat, b: int, j: nat)
    requires 0 <= b <= 1
    ensures Bit(SetBit(v, k, b), j) == if j == k then b else Bit(v, j)
  {
    if k > 0 && j > 0 {
      BitOfSetBit(v / 2, k - 1, b, j - 1);
    }
  }

  /** Setting a bit below n keeps a value below 2^n. */
  lemma {:induction false} SetBitBound(v: nat, k: nat, b: int, n: nat)
    requires 0 <= b <= 1 && v < Pow2(n) && k < n
    ensures SetBit(v, k, b) < Pow2(n)
  {
    var half := Pow2(n - 1);
    assert Pow2(n) == 2 * half;
    assert v / 2 < half;
    if k == 0 {
      assert SetBit(v, k, b) == 2 * (v / 2) + b;
    } else {
      SetBitBound(v / 2, k - 1, b, n - 1);
    }
  }

  lemma {:induction false} Pow2Monotone(m: nat, n: nat)
    requires m <= n
    ensures Pow2(m) <= Pow2(n)
  {
    if m < n {
      Pow2Monotone(m, n - 1);
    }
  }

  /** The low n bits of 2^n - 1 are all 1. */
  lemma {:induction false} AllOnesBits(n: nat, k: nat)
    requires k < n
    ensures Bit(Pow2(n) - 1, k) == 1
  {
    if k > 0 {
      AllOnesBits(n - 1, k - 1);
    }
  }

  /** The state byte of a board with count relays, 1 <= count <= 8, after
      `setPosition[position][relay]`: relay 0 sets all of them, relay r sets bit r-1. */
  function BoardAfter(state: byte, count: int, position: int, relay: int): (after: byte)
    requires 1 <= count <= 8 && IsPosition(position) && 0 <= relay <= count
    requires state < Pow2(count)
    ensures after < Pow2(count)
  {
    Pow2Monotone(count, 8);
    assert Pow2(8) == 256;
    if relay == 0 then
      (if position == 1 then Pow2(count) - 1 else 0)
    else
      SetBitBound(state, relay - 1, position, count);
      SetBit(state, relay - 1, position)
  }

  /** Reading the board back after setting one relay shows that relay in the
      position it was set to, every other relay as it was, and exactly count relays. */
  lemma SetThenGet(state: byte, count: int, position: int, relay: int)
    requires 1 <= count <= 8 && IsPosition(position) && 1 <= relay <= count
    requires state < Pow2(count)
    ensures var after := BoardAfter(state, count, position, relay);
      RelayStates(after, count).Keys == RelayNumbers(count) &&
      RelayStates(state, count).Keys == RelayNumbers(count) &&
      RelayStates(after, count)[relay] == position &&
      forall j :: j in RelayStates(after, count) && j != relay ==>
        RelayStates(after, count)[j] == RelayStates(state, count)[j]
  {
    var after := BoardAfter(state, count, position, relay);
    RelayStatesKeys(after, count);
    RelayStatesKeys(state, count);
    forall j | j in RelayStates(after, count)
      ensures RelayStates(after, count)[j] == if j == relay then position else RelayStates(state, count)[j]
    {
      BitOfSetBit(state, relay - 1, position, j - 1);
    }
  }

  /** Reading the board back after setting all relays shows every relay in that position. */
  lemma SetAllThenGet(state: byte, count: int, position: int)
    requires 1 <= count <= 8 && IsPosition(position)
    requires state < Pow2(count)
    ensures var after := BoardAfter(state, count, position, 0);
      RelayStates(after, count).Keys == RelayNumbers(count) &&
      forall j :: j in RelayStates(after, count) ==> RelayStates(after, count)[j] == position
  {
    var after := BoardAfter(state, count, position, 0);
    RelayStatesKeys(after, count);
    forall j | j in RelayStates(after, count)
      ensures RelayStates(after, count)[j] == position
    {
      if position == 1 {
        AllOnesBits(count, j - 1);
      } else {
        BitOfZero(j - 1);
      }
    }
  }

  /** All relays on, a board with n relays shows n ones, and bin() of that has n digits. */
  lemma {:induction false} AllOnesWidth(n: nat)
    requires 1 <= n
    ensures |Binary(Pow2(n) - 1)| == n
  {
    BinaryWidth(Pow2(n) - 1, n);
    if n > 1 {
      BinaryWidth(Pow2(n) - 1, n - 1);
    }
  }

  /** One fault-free serial cycle whose read returns reply. */
  function Clean(reply: seq<byte>): Exchange
  {
    SerialCycle(Wrote(1), Received(reply))
  }

  /** Calibration against a fault-free serial board with n relays finds n. */
  lemma CalibrationFindsRelayCount(n: int, rest: seq<Exchange>)
    requires 1 <= n <= 8
    ensures var allOn := BoardAfter(0, n, 1, 0);
      Calibration(SerialType, [Clean([]), Clean([allOn]), Clean([])] + rest) ==
        CalibrationRun(3, Some(n), Returns(n))
  {
    var allOn := BoardAfter(0, n, 1, 0);
    var script := [Clean([]), Clean([allOn]), Clean([])] + rest;
    assert Upcoming(SerialType, script) == Clean([]);
    assert Upcoming(SerialType, Drop(script, 1)) == Clean([allOn]);
    assert Upcoming(SerialType, Drop(script, 2)) == Clean([]);
    assert BinaryString(Data([allOn])) == Some(Binary(allOn));
    AllOnesWidth(n);
  }

  /** `set_relay_position` followed by `get_relay_positions` on a module whose
      transport is a fault-free board reads back the position just set. */
  method SetThenGetPositions(m: RelayModule, state: byte, relay: int, position: int)
      returns (accepted: bool, positions: Answer<map<int, int>>)
    requires m.Valid() && m.kind == SerialType
    requires 1 <= relay <= m.relayCount && IsPosition(position) && state < Pow2(m.relayCount)
    requires |m.script| >= 2
    requires m.script[0] == Clean([])
    requires m.script[1] == Clean([BoardAfter(state, m.relayCount, position, relay)])
    modifies m, m.clock
    ensures m.relayCount == old(m.relayCount)
    ensures |m.sent| == |old(m.sent)| + 2
    ensures m.sent[|old(m.sent)|].command == SetPositionCode(position, relay)
    ensures m.sent[|old(m.sent)| + 1].command == OperationCode(GetStates)
    ensures accepted && positions.Returns?
    ensures positions.value.Keys == RelayNumbers(m.relayCount)
    ensures positions.value[relay] == position
  {
    accepted := m.SetRelayPosition(relay, position);
    positions := m.GetRelayPositions();
    SetThenGet(state, m.relayCount, position, relay);
  }
}
