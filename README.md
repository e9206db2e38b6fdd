# TOSR0x relay board driver — a Dafny model

This project models the protocol core of `tosr0x.py`, the host-side driver for
TOSR0x USB/serial and WIFI relay boards (2–8 relays, optionally a temperature
probe). It covers:

- the command table: one character per command, with a 2-D `setPosition[position][relay]` table;
- the response decoders `convert_hex_to_int` and `convert_hex_to_bin_str`;
- `relayModule` as a class whose fields are the relay count, the time of the last
  command, the trace of commands sent and the far end's scripted behaviour. Its operations are
  construction (a caller-given count or the calibration sequence),
  `__send_relay_command__`, `__set_relay_count__`, `set_relay_position`,
  `get_relay_positions` and `get_temperature`;
- discovery: `check_path`'s acceptance test and `locate_devices`.

The serial port and the socket are replaced by an abstract transport
(`transport.dfy`). Each command cycle meets one scripted `Exchange`, which says how
every step ends. For serial, that is the write (a byte count, or it raises) and the
read (bytes, or it raises). For a socket, it is create, connect, the recv that
clears the prompt, sendall, recv and close. Once the script runs out, every step
raises. The wall clock is a `Clock` object that counts integer milliseconds.
`time.sleep` advances it.

Files: `results.dfy` (Option, and `Answer`: returns `False` / returns a value / an
`IndexError` escapes), `commands.dfy`, `decode.dfy`, `transport.dfy`, `relay.dfy`,
`discovery.dfy`. `board.dfy` adds a fault-free board double: one state byte that a
set-position request changes and getStates reports. The source does not contain it.
It is used to prove that a position that is set reads back, and that calibration
finds a board's relay count.

Behaviours of the source that are easy to miss:

- `get_relay_positions` pads the bit string with `zfill`, which never truncates.
  So a state byte with bits set above `relayCount` gives MORE than `relayCount`
  entries: the keys are 1..max(relayCount, digits of the byte). `RelayStatesNotTruncated` shows this for the byte 255 and a
  count of 2. The map has exactly `relayCount` keys only when the byte fits in
  `relayCount` bits (`RelayStatesKeys`).
- `min(relayCount, 8)` clamps only from above. A negative count that is given is
  kept, and then no relay index passes `set_relay_position`'s check.
- The failed-write branch assigns the misspelled `correctExceution`. So a serial
  write that reports a byte count other than 1 still counts as success
  (`WriteCountIgnored`).
- An empty socket response to `getStates` is not `False`. So `convert_hex_to_bin_str`
  indexes an empty list and the `IndexError` escapes. It escapes from
  `get_relay_positions`, and during calibration from construction too. This is why
  construction is `RelayModule.Create`, which returns `Answer<RelayModule>`.
  On a serial line this cannot happen, because a read of no bytes counts as a failure
  (`SerialCalibrationNeverRaises`).

## Model

| member | source | states |
|---|---|---|
| Commands.SetPositionTable | tosr0x.py:62-74 | `setPosition` has rows 0 and 1, each with keys exactly 0..8; code `[p][r]` is `'d'+r` for p = 1 and `'n'+r` for p = 0 |
| Commands.OperationCode | tosr0x.py:65-69 | the single-character codes of getIdVersion 'Z', getStates '[', getVoltage ']' and getTemperature 'b'; their distinctness from each other and from the set-position codes is `Commands.CodesDistinct` |
| Commands.SetPosition | tosr0x.py:70-73 | the nested `setPosition` table as a map from position to a map from relay number to code; its shape and contents are `Commands.SetPositionTable` |
| Commands.CodesDistinct | tosr0x.py:65-74 | the 18 set-position codes are pairwise distinct, none equals an operation code, and the four operation codes are distinct |
| Commands.SetPositionCode | tosr0x.py:70-73 | the lookup `setPosition[position][relay]` is defined for every position in {0,1} and relay in 0..8, and equals row base + relay |
| Decode.ToInts | tosr0x.py:142-150 | one integer per response byte, in order, each in 0..255; a value that cannot be iterated gives [] |
| Decode.BinaryString | tosr0x.py:153-160 | no value when the response has no first byte (the IndexError); otherwise a string of '0'/'1' of length 1..8 that denotes the first byte and has no leading '0' unless it is "0" |
| Decode.Binary | tosr0x.py:158-160 | `bin(v)[2:]` by repeated halving; `Decode.BinaryDenotes`, `Decode.BinaryWidth` and `Decode.BinaryDigitAt` pin it down as the canonical binary rendering of v |
| Decode.BinaryDenotes | tosr0x.py:158-160 | bin(v) without "0b" is non-empty binary digits whose value is v, starts with '1' unless it is "0", and is "0" exactly for v = 0 |
| Decode.BinaryWidth | tosr0x.py:158-160 | bin(v) has at most n digits iff v < 2^n |
| Decode.BinaryDigitAt | tosr0x.py:158-160 | digit j counted from the right of bin(v) is bit j of v |
| Decode.BitBeyondBinary | tosr0x.py:333-335 | the bits above bin(v)'s top digit are 0, which is what the padding assumes |
| Decode.ZFill | tosr0x.py:335 | `zfill` pads with '0' on the left up to the width, keeps the string as its suffix, and never truncates |
| Decode.Reverse | tosr0x.py:337-338 | element i of the reversed list is element n-1-i of the original |
| Decode.PaddedBits | tosr0x.py:331-338 | the padded, reversed bit list has length max(relayCount, digits) and its entry k is bit k of the state byte |
| Decode.RStrip | tosr0x.py:353 | `rstrip` gives a prefix, removing only trailing whitespace, and leaves no trailing whitespace |
| Transport.ResultWithoutResponse | tosr0x.py:268-271 | without a response the send returns the flag `correctExecution`, true iff no step failed |
| Transport.ResultWithResponse | tosr0x.py:214-220 | with a response required the send returns the bytes iff no step failed (a serial read of <1 byte is a failure), else `False`, never `True` |
| Transport.WriteCountIgnored | tosr0x.py:207-209 | a serial write reporting any byte count behaves like one reporting 1 |
| Transport.SerialResponseNonEmpty | tosr0x.py:214-220 | a serial response that is returned has at least one byte |
| Transport.Succeeds | tosr0x.py:203-266 | whether `correctExecution` is still true after one cycle: a serial write that raises or a serial read of fewer than one byte fails, a socket step fails when it raises, and the write's byte count is not looked at; the results built on it are `Transport.ResultWithoutResponse` and `Transport.ResultWithResponse` |
| Transport.CommandResult | tosr0x.py:268-271 | what the send returns: the response when one was required and no step failed, else the flag `correctExecution`; `Relay.RelayModule.SendRelayCommand` is proved to return it |
| Transport.Clock.Advance | tosr0x.py:200-201 | `time.sleep(d)`: the clock reads exactly d ms later; `Relay.RelayModule.SendRelayCommand` uses it to wait out the minimum gap |
| Relay.RelayNumbers | tosr0x.py:340-345 | the set of relay numbers 1..n |
| Relay.RelayStates | tosr0x.py:327-345 | the relay map in closed form: keys 1..max(relayCount, digits of the state byte), relay i holding bit i-1; the loop is proved to build it in `Relay.BuiltStatesMatch`, and its keys and padding are `Relay.RelayStatesKeys` and `Relay.RelayStatesPadding` |
| Relay.PositionsAnswer | tosr0x.py:327-345 | what `get_relay_positions` gives for a response: `False` for a failed send, IndexError for an empty response, else `RelayStates` of the first byte; `Relay.RelayModule.GetRelayPositions` is proved to return it |
| Relay.BuildRelayStates | tosr0x.py:340-345 | the dict-filling loop gives keys 1..len(bits), with relay i holding int(bits[i-1]) |
| Relay.BuiltStatesMatch | tosr0x.py:331-345 | the map built from the padded, reversed bits is RelayStates: relay i holds bit i-1 of the state byte |
| Relay.RelayStatesPadding | tosr0x.py:333-335 | padded entries are 0 |
| Relay.RelayStatesKeys | tosr0x.py:335 | when the state byte fits in relayCount bits the keys are exactly 1..relayCount |
| Relay.RelayStatesNotTruncated | tosr0x.py:335 | a byte with more digits than relayCount gives extra keys: state byte 255 with count 2 has key 8 holding 1 |
| Relay.SpacedGaps | tosr0x.py:198-201 | in a module's trace (kept spaced by every send), commands i < j are at least (j-i)·150 ms apart |
| Relay.Spaced | tosr0x.py:198-201 | the rate-limit law: consecutive commands of a module's trace are at least 150 ms apart; `Relay.RelayModule.Valid` keeps it and `Relay.SpacedGaps` extends it to any two commands |
| Relay.KindFor | tosr0x.py:168-173 | `type(device) == tuple` selects the WIFI transport, anything else the serial one; `Relay.RelayModule.Init` fixes the module's kind with it |
| Relay.IsGiven | tosr0x.py:180-181 | the truthiness test `if relayCount:`: a count is given when present and non-zero; `Relay.ConstructedCount` branches on it |
| Relay.ValidRequest | tosr0x.py:303-305 | the argument test of `set_relay_position`: relay in 0..relayCount and position in {0, 1}; `Relay.RelayModule.SetRelayPosition` sends exactly when it holds |
| Relay.CalibrationCommandCodes | tosr0x.py:280-292 | calibration's commands are 'd' (all relays on), '[' (getStates), 'n' (all relays off) |
| Relay.Calibration | tosr0x.py:273-294 | the calibration sequence as a function of the script: how many commands it sends, the count it measures and its answer, stopping at the first failure; its range is `Relay.CalibratedCount` and `Relay.RelayModule.SetRelayCount` is proved to follow it |
| Relay.ConstructedCount | tosr0x.py:180-185 | the count construction settles on: `min(relayCount, 8)` for a truthy count, else the calibrated count, else 8, or the escaping IndexError; its range is `Relay.ConstructedCountRange` and `Relay.RelayModule.Create` is proved to follow it |
| Relay.CalibratedCount | tosr0x.py:273-294 | calibration sends 1 to 3 commands; a measured count is the bit-string length, 1..8; success answers with that count after all 3 sends |
| Relay.SerialCalibrationNeverRaises | tosr0x.py:214-220 | on a serial line calibration never raises IndexError |
| Relay.ConstructedCountRange | tosr0x.py:180-185 | a constructed count is at most 8, is at least 1 when calibrated, and construction raises only when calibration does |
| Relay.TemperatureExamples | tosr0x.py:351-355 | the response "23.5\r\n" gives "23.5"; a failed command gives `False` |
| Relay.TemperatureAnswer | tosr0x.py:351-355 | what `get_temperature` gives for a response: the bytes with trailing whitespace stripped when the response is truthy, else `False`; `Relay.TemperatureExamples` evaluates it and `Relay.RelayModule.GetTemperature` is proved to return it |
| Relay.RelayModule.Init | tosr0x.py:164-177 | the transport type comes from the device (tuple = WIFI), and the last-command time is the clock reading |
| Relay.RelayModule.Create | tosr0x.py:164-185 | a truthy count gives min(count, 8), sends nothing and leaves the script alone; otherwise it calibrates, sends the calibration prefix 'd', '[', 'n' up to the first failure, and then gives the measured count, or 8 on failure, or the escaping IndexError; the last-command time is the clock reading, which has moved 150 ms per calibration command |
| Relay.RelayModule.SendRelayCommand | tosr0x.py:187-271 | sleeps until 150 ms after the last command, runs one cycle, stamps timeOfLastCommand on every path, appends the command to the trace, and returns the response or the boolean outcome |
| Relay.RelayModule.SetRelayCount | tosr0x.py:273-294 | runs the calibration sequence: its answer, the commands sent, the script consumed and the relayCount set equal the Calibration specification; the first command waits until 150 ms after the last one, each later one 150 ms more, and the last-command time is the final clock reading |
| Relay.RelayModule.SetRelayPosition | tosr0x.py:296-317 | for relay outside 0..relayCount or position outside {0,1} it returns False and changes nothing; otherwise it sends `setPosition[position][relay]` once, at max(now, last + 150 ms), which becomes the last-command time, and returns whether that send succeeded |
| Relay.RelayModule.GetRelayPositions | tosr0x.py:319-345 | returns False when the send fails, raises IndexError on an empty response, else the map with keys 1..max(relayCount, digits) and relay i = bit i-1 of the first byte; the send happens at max(now, last + 150 ms), which becomes the last-command time |
| Relay.RelayModule.GetTemperature | tosr0x.py:347-355 | sends 'b' at max(now, last + 150 ms), which becomes the last-command time, and returns the response with trailing whitespace stripped, or False when the response is falsy |
| Board.BitOfSetBit | tosr0x.py:322-324 | (board double) setting bit k changes bit k to the new value and no other bit |
| Board.SetBitBound | tosr0x.py:322-324 | (board double) setting a bit below n keeps the state below 2^n |
| Board.AllOnesBits | tosr0x.py:278-280 | (board double) with all n relays on, bits 0..n-1 of the state are 1 |
| Board.BoardAfter | tosr0x.py:63-73 | (board double) the state after `setPosition[position][relay]` still fits the board's relay count |
| Board.SetThenGet | tosr0x.py:296-345 | (board double) after setting relay r to p, the decoded map has exactly keys 1..relayCount, relay r at p and every other relay unchanged |
| Board.SetAllThenGet | tosr0x.py:296-345 | (board double) after setting relay 0 (all) to p, every relay 1..relayCount reads p |
| Board.AllOnesWidth | tosr0x.py:288-290 | (board double) bin(2^n - 1) has exactly n digits |
| Board.CalibrationFindsRelayCount | tosr0x.py:273-294 | (board double) calibration against a fault-free serial board with n relays sends all 3 commands and finds n |
| Board.SetThenGetPositions | tosr0x.py:296-345 | (board double) through the class, set_relay_position then get_relay_positions send exactly `setPosition[position][relay]` and then '[', succeed, and read back the position just set |
| Discovery.AcceptsExactly | tosr0x.py:133-134 | a path is accepted iff the identity reply is exactly 2 bytes and the first is 15 |
| Discovery.IsModuleIdentity | tosr0x.py:133-134 | the acceptance test on the decoded identity response: exactly two values, the first being 15; `Discovery.AcceptsExactly` restates it on the reply bytes |
| Discovery.ProbeResponse | tosr0x.py:133 | `convert_hex_to_int` of the identity reply, the values the acceptance test looks at; [] when the path was missing or did not open |
| Discovery.Discovered | tosr0x.py:133-136 | what a discovered module is: on the candidate's serial path and the shared clock, with the constructed relay count; with a given count nothing sent and the whole script left, so no relay is cycled; otherwise the calibration prefix sent and its cycles consumed; `Discovery.CheckPath` and `Discovery.LocateDevices` state it for each module |
| Discovery.Accepts | tosr0x.py:117-134 | a candidate passes when its path exists, opens as a serial device, and its identity reply passes the test; `Discovery.CheckPath` returns a module exactly then |
| Discovery.AcceptedPaths | tosr0x.py:100-110 | the paths of the accepted candidates in scan order; its members are `Discovery.AcceptedPathsMembers` and `Discovery.LocateDevices` is proved to return modules on exactly these paths |
| Discovery.AcceptedCandidates | tosr0x.py:100-110 | the accepted candidates in scan order; `Discovery.LocateDevices` gives its i-th module the count constructed from the i-th of them |
| Discovery.AcceptedCandidatesStep | tosr0x.py:104-108 | checking one more path appends its candidate to the accepted ones exactly when it is accepted, as the loop's `append` does |
| Discovery.AcceptedPathsOfCandidates | tosr0x.py:100-110 | the i-th reported path is the path of the i-th accepted candidate, and both lists have the same length |
| Discovery.AcceptedPathsMembers | tosr0x.py:100-110 | a path is reported iff some scanned candidate with that path was accepted; no more paths than candidates |
| Discovery.OnlyOneBoard | tosr0x.py:100-110 | when exactly one candidate answers like a board, exactly its path is reported |
| Discovery.NoBoard | tosr0x.py:100-110 | when no candidate answers like a board, nothing is reported |
| Discovery.CheckPath | tosr0x.py:113-139 | returns a module iff the probe passes the acceptance test; the module is on that serial path, has the constructed relay count, and carries the trace and script `Discovery.Discovered` describes: a given count sends nothing |
| Discovery.LocateDevices | tosr0x.py:100-110 | the i-th module returned is on the i-th accepted path, in scan order, with the relay count constructed from that candidate's device and the trace and script `Discovery.Discovered` describes; the modules are distinct objects; rejected paths are dropped |

## Left out

- Serial and socket I/O (`serial.Serial`, `readall`, `write`, `read`, and `socket` connect/recv/sendall/shutdown/close): replaced by the scripted `Exchange` of each command cycle. The socket object `self.sock` is not modelled.
- The read size 16 and the timeouts (`SOCKET_TIMEOUT`, `SERIAL_DEFAULT_TIMEOUT`): they live inside the transport, which the script stands for.
- Filesystem scanning in `handler` (`os.listdir("/dev")`) and `os.path.exists` in `check_path`: each candidate carries what probing it shows (`PathMissing`, `OpenFails`, or the reply bytes).
- `handler` itself (turning a single path into a list, and the default scan of `/dev/ttyUSB*`): environment queries only.
- The identity request 'Z' of `check_path` is written straight to the serial device, not through `__send_relay_command__`. It is therefore not in any module's trace, and it is not rate-limited.
- Discovery.CheckPath: an exception raised by the identity `write` or `readall` escapes `check_path` in the source. The model does not represent that case; the probe of an opened device always yields reply bytes.
- Wall-clock time: float seconds become integer milliseconds on a `Clock` that only moves forward. Sleeping is exact, and a command cycle takes no time of its own.
- The `Lock`: it is created fresh on every call, so it guards nothing; concurrency is out of scope.
- Logging calls (`log.info`, `log.error`).
- Python 2 versus 3 string and byte typing: every payload is a sequence of byte values, commands are characters, and `rstrip` strips ASCII whitespace (space, \t, \n, \v, \f, \r).
- Argument types: relay, position and the relay count are integers. The source's `type(...) == int` test does not arise, and the relay count is truthy exactly when it is present and non-zero.
- Relay.TemperatureAnswer: a response of `True` would make `rstrip` fail in the source. It cannot occur, because a send that requires a response never returns `True` (`ResultWithResponse`).
- `getVoltage`: it is in the command table, but no operation of the core sends it.
- `setup.py`: packaging metadata only.
