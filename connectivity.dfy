/**
 * The connectivity check of `StackedTester.checkIfConnectedTo`: for every
 * address in the node registry, scan the stack's remotes and count the entry
 * once if some remote with that address is connected; then classify the count
 * against the registry size or an explicit expected count.
 */
module Connectivity {
  import opened Wrappers

  /** A host address `HA(host, port)`. */
  datatype HostAddress = HostAddress(host: string, port: int)

  /** A remote known to the node's stack: its address and whether the stack reports it connected. */
  datatype Remote = Remote(ha: HostAddress, connected: bool)

  /** How one connectivity check ends: normally, by one of the two exceptions, or by the final `assert`. */
  datatype Outcome = Success | NotConnectedToAny | NotFullyConnected | AssertionFailure

  /** Some remote has the registry address and is connected. */
  predicate IsReached(address: HostAddress, remotes: seq<Remote>)
  {
    exists j :: 0 <= j < |remotes| && remotes[j].ha == address && remotes[j].connected
  }

  /** The number of registry entries, duplicates each counted, that a connected remote matches. */
  function ConnectedCount(nodeReg: seq<HostAddress>, remotes: seq<Remote>): (r: nat)
    ensures r <= |nodeReg|
  {
    if nodeReg == [] then 0
    else
      var last := nodeReg[|nodeReg| - 1];
      ConnectedCount(nodeReg[..|nodeReg| - 1], remotes) + (if IsReached(last, remotes) then 1 else 0)
  }

  /** The positions of the registry entries that a connected remote matches. */
  function ReachedEntries(nodeReg: seq<HostAddress>, remotes: seq<Remote>): set<nat>
  {
    set i: nat | i < |nodeReg| && IsReached(nodeReg[i], remotes)
  }

  /**
   * The classification at the end of the check: `count` is the caller's
   * expected number of connections, `None` meaning "the whole registry".
   */
  function Classify(connected: nat, registrySize: nat, count: Option<int>): (r: Outcome)
    ensures count.None? ==> (r == NotConnectedToAny <==> connected == 0)
    ensures count.None? && connected <= registrySize ==> r != AssertionFailure
    ensures count.None? && connected > 0 ==> (r == Success <==> connected == registrySize)
    ensures count.Some? ==> r != NotConnectedToAny
    ensures count.Some? ==> (r == NotFullyConnected <==> connected < count.value)
    ensures count.Some? ==> (r == AssertionFailure <==> connected > count.value)
    ensures count.Some? ==> (r == Success <==> connected == count.value)
  {
    var totalNodes := if count.None? then registrySize else count.value;
    if count.None? && connected == 0 then NotConnectedToAny
    else if connected < totalNodes then NotFullyConnected
    else if connected == totalNodes then Success
    else AssertionFailure
  }

  /** The outcome the check has on a given registry and remote table. */
  function CheckOutcome(nodeReg: seq<HostAddress>, remotes: seq<Remote>, count: Option<int>): Outcome
  {
    Classify(ConnectedCount(nodeReg, remotes), |nodeReg|, count)
  }

  /** `checkIfConnectedTo`: the two nested scans with their early exit, then the classification. */
  method CheckIfConnectedTo(nodeReg: seq<HostAddress>, remotes: seq<Remote>, count: Option<int>)
    returns (outcome: Outcome)
    ensures outcome == CheckOutcome(nodeReg, remotes, count)
  {
    var connected: nat := 0;
    for i := 0 to |nodeReg|
      invariant connected == ConnectedCount(nodeReg[..i], remotes)
    {
      var address := nodeReg[i];
      assert nodeReg[..i + 1][..i] == nodeReg[..i];
      var j := 0;
      while j < |remotes|
        invariant 0 <= j <= |remotes|
        invariant connected == ConnectedCount(nodeReg[..i], remotes)
        invariant forall k :: 0 <= k < j ==> !(remotes[k].ha == address && remotes[k].connected)
      {
        if remotes[j].ha == address && remotes[j].connected {
          connected := connected + 1;
          break;
        }
        j := j + 1;
      }
    }
    assert nodeReg[..|nodeReg|] == nodeReg;
    outcome := Classify(connected, |nodeReg|, count);
  }

  /** The count is the number of registry positions whose address a connected remote has. */
  lemma {:induction false} ConnectedCountIsReachedEntries(nodeReg: seq<HostAddress>, remotes: seq<Remote>)
    ensures ConnectedCount(nodeReg, remotes) == |ReachedEntries(nodeReg, remotes)|
  {
    if nodeReg != [] {
      var n := |nodeReg| - 1;
      var front := nodeReg[..n];
      ConnectedCountIsReachedEntries(front, remotes);
      var all := ReachedEntries(nodeReg, remotes);
      var before := ReachedEntries(front, remotes);
      if IsReached(nodeReg[n], remotes) {
        assert all == before + {n};
      } else {
        assert all == before;
      }
    }
  }

  /** No entry is counted iff no registry address has a connected remote. */
  lemma {:induction false} ConnectedCountZeroIff(nodeReg: seq<HostAddress>, remotes: seq<Remote>)
    ensures ConnectedCount(nodeReg, remotes) == 0
        <==> forall i :: 0 <= i < |nodeReg| ==> !IsReached(nodeReg[i], remotes)
  {
    if nodeReg != [] {
      var n := |nodeReg| - 1;
      var front := nodeReg[..n];
      ConnectedCountZeroIff(front, remotes);
      assert forall i :: 0 <= i < n ==> front[i] == nodeReg[i];
    }
  }

  /** Every entry is counted iff every registry address has a connected remote. */
  lemma {:induction false} ConnectedCountFullIff(nodeReg: seq<HostAddress>, remotes: seq<Remote>)
    ensures ConnectedCount(nodeReg, remotes) == |nodeReg|
        <==> forall i :: 0 <= i < |nodeReg| ==> IsReached(nodeReg[i], remotes)
  {
    if nodeReg != [] {
      var n := |nodeReg| - 1;
      var front := nodeReg[..n];
      ConnectedCountFullIff(front, remotes);
      assert forall i :: 0 <= i < n ==> front[i] == nodeReg[i];
    }
  }

  /**
   * A matching remote that is not connected does not end the scan: an entry
   * is reached through any later connected remote with its address.
   */
  lemma ReachedPastDisconnected(address: HostAddress, remotes: seq<Remote>, j: nat)
    requires j < |remotes| && remotes[j].ha == address && !remotes[j].connected
    ensures IsReached(address, remotes) <==> IsReached(address, remotes[..j] + remotes[j + 1..])
  {
    var rest := remotes[..j] + remotes[j + 1..];
    if IsReached(address, remotes) {
      var k :| 0 <= k < |remotes| && remotes[k].ha == address && remotes[k].connected;
      var k' := if k < j then k else k - 1;
      assert rest[k'] == remotes[k];
    }
    if IsReached(address, rest) {
      var k :| 0 <= k < |rest| && rest[k].ha == address && rest[k].connected;
      var k' := if k < j then k else k + 1;
      assert remotes[k'] == rest[k];
    }
  }

  /**
   * Without an expected count: nothing connected (even on an empty registry)
   * is `NotConnectedToAny`; some but not all is `NotFullyConnected`; all of a
   * non-empty registry is success; the final assertion never fails.
   */
  lemma {:induction false} FullRegistryCheck(nodeReg: seq<HostAddress>, remotes: seq<Remote>)
    ensures CheckOutcome(nodeReg, remotes, None) == NotConnectedToAny
        <==> forall i :: 0 <= i < |nodeReg| ==> !IsReached(nodeReg[i], remotes)
    ensures CheckOutcome(nodeReg, remotes, None) == Success
        <==> |nodeReg| > 0 && forall i :: 0 <= i < |nodeReg| ==> IsReached(nodeReg[i], remotes)
    ensures CheckOutcome(nodeReg, remotes, None) == NotFullyConnected
        <==> 0 < ConnectedCount(nodeReg, remotes) < |nodeReg|
    ensures CheckOutcome(nodeReg, remotes, None) != AssertionFailure
  {
    ConnectedCountZeroIff(nodeReg, remotes);
    ConnectedCountFullIff(nodeReg, remotes);
  }

  /**
   * With an explicit expected count: fewer connections is `NotFullyConnected`,
   * more is a failed assertion, exactly as many is success.
   */
  lemma ExplicitCountCheck(nodeReg: seq<HostAddress>, remotes: seq<Remote>, count: int)
    ensures CheckOutcome(nodeReg, remotes, Some(count)) == NotFullyConnected
        <==> ConnectedCount(nodeReg, remotes) < count
    ensures CheckOutcome(nodeReg, remotes, Some(count)) == AssertionFailure
        <==> ConnectedCount(nodeReg, remotes) > count
    ensures CheckOutcome(nodeReg, remotes, Some(count)) == Success
        <==> ConnectedCount(nodeReg, remotes) == count
    ensures CheckOutcome(nodeReg, remotes, Some(count)) != NotConnectedToAny
  {
  }

  /**
   * The disconnection check (expected count 0) succeeds iff no registry
   * address has a connected remote, and otherwise fails its assertion.
   */
  lemma {:induction false} DisconnectedCheck(nodeReg: seq<HostAddress>, remotes: seq<Remote>)
    ensures CheckOutcome(nodeReg, remotes, Some(0)) == Success
        <==> forall i :: 0 <= i < |nodeReg| ==> !IsReached(nodeReg[i], remotes)
    ensures CheckOutcome(nodeReg, remotes, Some(0)) != Success
        ==> CheckOutcome(nodeReg, remotes, Some(0)) == AssertionFailure
  {
    ConnectedCountZeroIff(nodeReg, remotes);
  }

  /** A registry listing the same address twice counts one connected remote twice. */
  lemma DuplicateEntriesCountTwice(address: HostAddress, remotes: seq<Remote>)
    requires IsReached(address, remotes)
    ensures ConnectedCount([address, address], remotes) == 2
  {
    assert [address, address][..1] == [address];
    assert [address][..0] == [];
  }
}
