/** Discovery: probe candidate serial paths with `getIdVersion` and build a
    relay module for every path that answers like a TOSR0x board. */
module Discovery {
  import opened Results
  import opened Commands
  import opened Decode
  import opened Transport
  import opened Relay

  /** What probing a path shows: the path is missing, opening it as a serial
      device raises, or the device answers the identity request (the
      `getIdVersion` code 'Z', written straight to the device) with bytes. */
  datatype Probe = PathMissing | OpenFails | Answers(reply: seq<byte>)

  /** A candidate path, what probing it shows, and how the device on it
      behaves for the commands that follow the probe. */
  datatype Candidate = Candidate(path: string, probe: Probe, script: seq<Exchange>)

  /** The acceptance test of `check_path`: the decoded identity response has
      exactly two values and the first is the expected module id. */
  predicate IsModuleIdentity(ids: seq<int>)
  {
    |ids| == 2 && ids[0] == ExpectedModuleId
  }

  function ProbeResponse(c: Candidate): seq<int>
  {
    if c.probe.Answers? then ToInts(Data(c.probe.reply)) else []
  }

  predicate Accepts(c: Candidate)
  {
    c.probe.Answers? && IsModuleIdentity(ProbeResponse(c))
  }

  /** A candidate is accepted exactly when the device answered with two bytes,
      the first being 15. */
  lemma AcceptsExactly(c: Candidate)
    ensures Accepts(c) <==> c.probe.Answers? && |c.probe.reply| == 2 && c.probe.reply[0] == 15
  {
  }

  predicate SerialCandidates(candidates: seq<Candidate>)
  {
    forall k :: 0 <= k < |candidates| ==> ScriptOf(SerialType, candidates[k].script)
  }

  /** The paths of the accepted candidates, in scan order. */
  function AcceptedPaths(candidates: seq<Candidate>): seq<string>
  {
    if candidates == [] then []
    else
      var last := candidates[|candidates| - 1];
      AcceptedPaths(candidates[..|candidates| - 1]) + (if Accepts(last) then [last.path] else [])
  }

  /** The accepted candidates, in scan order. */
  function AcceptedCandidates(candidates: seq<Candidate>): seq<Candidate>
  {
    if candidates == [] then []
    else
      var last := candidates[|candidates| - 1];
      AcceptedCandidates(candidates[..|candidates| - 1]) + (if Accepts(last) then [last] else [])
  }

  /** Scanning one more candidate appends it to the accepted ones exactly when it is accepted. */
  lemma AcceptedCandidatesStep(candidates: seq<Candidate>, n: nat)
    requires n < |candidates|
    ensures AcceptedCandidates(candidates[..n + 1]) ==
      AcceptedCandidates(candidates[..n]) + (if Accepts(candidates[n]) then [candidates[n]] else [])
  {
    assert candidates[..n + 1][..n] == candidates[..n];
  }

  /** The i-th reported path is the path of the i-th accepted candidate. */
  lemma {:induction false} AcceptedPathsOfCandidates(candidates: seq<Candidate>)
    ensures |AcceptedPaths(candidates)| == |AcceptedCandidates(candidates)|
    ensures forall i :: 0 <= i < |AcceptedPaths(candidates)| ==>
      AcceptedPaths(candidates)[i] == AcceptedCandidates(candidates)[i].path
  {
    if candidates != [] {
      AcceptedPathsOfCandidates(candidates[..|candidates| - 1]);
    }
  }

  /** A path is reported exactly when some candidate with that path was accepted,
      and no more paths are reported than were scanned. */
  lemma {:induction false} AcceptedPathsMembers(candidates: seq<Candidate>, p: string)
    ensures |AcceptedPaths(candidates)| <= |candidates|
    ensures p in AcceptedPaths(candidates) <==>
      exists k :: 0 <= k < |candidates| && Accepts(candidates[k]) && candidates[k].path == p
  {
    if candidates != [] {
      var front := candidates[..|candidates| - 1];
      AcceptedPathsMembers(front, p);
      if p in AcceptedPaths(front) {
        var k :| 0 <= k < |front| && Accepts(front[k]) && front[k].path == p;
        assert candidates[k] == front[k];
      }
      if exists k :: 0 <= k < |candidates| && Accepts(candidates[k]) && candidates[k].path == p {
        var k :| 0 <= k < |candidates| && Accepts(candidates[k]) && candidates[k].path == p;
        if k < |front| {
          assert front[k] == candidates[k];
        }
      }
    }
  }

  /** Scanning paths of which exactly one answers like a board reports that one path. */
  lemma {:induction false} OnlyOneBoard(candidates: seq<Candidate>, j: nat)
    requires j < |candidates| && Accepts(candidates[j])
    requires forall k :: 0 <= k < |candidates| && k != j ==> !Accepts(candidates[k])
    ensures AcceptedPaths(candidates) == [candidates[j].path]
  {
    var n := |candidates|;
    var front := candidates[..n - 1];
    if j == n - 1 {
      NoBoard(front);
    } else {
      OnlyOneBoard(front, j);
    }
  }

  /** Scanning paths none of which answers like a board reports nothing. */
  lemma {:induction false} NoBoard(candidates: seq<Candidate>)
    requires forall k :: 0 <= k < |candidates| ==> !Accepts(candidates[k])
    ensures AcceptedPaths(candidates) == []
  {
    if candidates != [] {
      NoBoard(candidates[..|candidates| - 1]);
    }
  }

  /** m is the module `check_path` builds for candidate c: on c's serial
      path and the shared clock, with the constructed relay count. With a given
      count nothing was sent and the whole script remains; otherwise the
      calibration prefix was sent and consumed its cycles. */
  ghost predicate Discovered(m: RelayModule, c: Candidate, clock: Clock, relayCount: Option<int>)
    reads m
  {
    m.Valid() && m.device == SerialPort(c.path) && m.clock == clock &&
    Returns(m.relayCount) == ConstructedCount(SerialType, c.script, relayCount) &&
    if IsGiven(relayCount) then m.sent == [] && m.script == c.script
    else
      var run := Calibration(SerialType, c.script);
      CommandsOf(m.sent) == CalibrationCommands[..run.sends] && m.script == Drop(c.script, run.sends)
  }

  /** `check_path`: probe one path and, when it answers like a board, build a
      relay module on its serial device. */
  method CheckPath(candidate: Candidate, clock: Clock, relayCount: Option<int>) returns (device: Option<RelayModule>)
    requires ScriptOf(SerialType, candidate.script)
    modifies clock
    ensures device.Some? <==> Accepts(candidate)
    ensures device.Some? ==> fresh(device.value) && Discovered(device.value, candidate, clock, relayCount)
  {
    match candidate.probe {
      case PathMissing =>
        return None;
      case OpenFails =>
        return None;
      case Answers(reply) =>
        var response := ToInts(Data(reply));
        if |response| == 2 && response[0] == ExpectedModuleId {
          SerialCalibrationNeverRaises(candidate.script);
          var created := RelayModule.Create(SerialPort(candidate.path), candidate.script, clock, relayCount);
          return Some(created.value);
        }
        return None;
    }
  }

  /** `locate_devices`: check every candidate in order and keep the modules
      found, so the i-th module is on the i-th accepted path. */
  method LocateDevices(candidates: seq<Candidate>, clock: Clock, relayCount: Option<int>)
      returns (devices: seq<RelayModule>)
    requires SerialCandidates(candidates)
    modifies clock
    ensures |devices| == |AcceptedPaths(candidates)| == |AcceptedCandidates(candidates)|
    ensures forall i :: 0 <= i < |devices| ==>
      fresh(devices[i]) && Discovered(devices[i], AcceptedCandidates(candidates)[i], clock, relayCount) &&
      devices[i].device == SerialPort(AcceptedPaths(candidates)[i])
    ensures forall i, j :: 0 <= i < j < |devices| ==> devices[i] != devices[j]
  {
    devices := [];
    ghost var accepted: seq<Candidate> := [];
    for n := 0 to |candidates|
      invariant accepted == AcceptedCandidates(candidates[..n])
      invariant |devices| == |accepted|
      invariant forall i :: 0 <= i < |devices| ==> fresh(devices[i]) && Discovered(devices[i], accepted[i], clock, relayCount)
      invariant forall i, j :: 0 <= i < j < |devices| ==> devices[i] != devices[j]
    {
      AcceptedCandidatesStep(candidates, n);
      var device := CheckPath(candidates[n], clock, relayCount);
      if device.Some? {
        devices := devices + [device.value];
        accepted := accepted + [candidates[n]];
      }
    }
    assert candidates[..|candidates|] == candidates;
    AcceptedPathsOfCandidates(candidates);
  }
}
