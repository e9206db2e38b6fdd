/** The TOSR0x command table: every command is one character on the wire. */
module Commands {

  /** The identity byte a TOSR0x board answers first to `getIdVersion`. */
  const ExpectedModuleId: int := 15

  /** The operations of the table that take no index. */
  datatype Operation = GetIdVersion | GetStates | GetVoltage | GetTemperature

  function OperationCode(op: Operation): char
  {
    match op
    case GetIdVersion => 'Z'
    case GetStates => '['
    case GetVoltage => ']'
    case GetTemperature => 'b'
  }

  /** `setPosition[position][relay]`; relay 0 addresses all relays at once. */
  const SetPosition: map<int, map<int, char>> := map[
    1 := map[0 := 'd', 1 := 'e', 2 := 'f', 3 := 'g', 4 := 'h', 5 := 'i', 6 := 'j', 7 := 'k', 8 := 'l'],
    0 := map[0 := 'n', 1 := 'o', 2 := 'p', 3 := 'q', 4 := 'r', 5 := 's', 6 := 't', 7 := 'u', 8 := 'v']
  ]

  predicate IsPosition(position: int) { 0 <= position <= 1 }

  predicate IsRelayIndex(relay: int) { 0 <= relay <= 8 }

  /** The first code of each row: position 1 starts at 'd', position 0 at 'n'. */
  function RowBase(position: int): int
  {
    if position == 1 then 'd' as int else 'n' as int
  }

  /** Every (position, relay) pair in range has exactly one code, `RowBase(position) + relay`. */
  lemma {:induction false} SetPositionTable()
    ensures SetPosition.Keys == {0, 1}
    ensures forall p, r :: p in SetPosition ==> (r in SetPosition[p] <==> IsRelayIndex(r))
    ensures forall p, r :: IsPosition(p) && IsRelayIndex(r) ==>
              SetPosition[p][r] as int == RowBase(p) + r
  {
    forall p, r | IsPosition(p) && IsRelayIndex(r)
      ensures SetPosition[p][r] as int == RowBase(p) + r
    {
      if r == 0 {} else if r == 1 {} else if r == 2 {} else if r == 3 {} else if r == 4 {}
      else if r == 5 {} else if r == 6 {} else if r == 7 {} else {}
    }
  }

  /** The 18 set-position codes are pairwise distinct and none of them is an
      operation code, so a board can tell every command apart. */
  lemma {:induction false} CodesDistinct()
    ensures forall p, r, p', r' ::
              (IsPosition(p) && IsRelayIndex(r) && IsPosition(p') && IsRelayIndex(r') &&
               SetPosition[p][r] == SetPosition[p'][r']) ==> p == p' && r == r'
    ensures forall p, r, op :: IsPosition(p) && IsRelayIndex(r) ==> SetPosition[p][r] != OperationCode(op)
    ensures forall op, op' :: OperationCode(op) == OperationCode(op') ==> op == op'
  {
    SetPositionTable();
  }

  /** The table lookup `setPosition[position][relay]`, defined for every pair in range. */
  function SetPositionCode(position: int, relay: int): (c: char)
    requires IsPosition(position) && IsRelayIndex(relay)
    ensures c as int == RowBase(position) + relay
  {
    SetPositionTable();
    SetPosition[position][relay]
  }
}
