/**
 * The part of `main` in scratch/tp4.cc that belongs to the protocol: the
 * node-count guard, and the loop that gives every node one send, node i at
 * simulated second i.
 */
module Setup {

  /** The width of `nWifi` and of the loop counter. */
  newtype uint32 = x: int | 0 <= x < 0x1_0000_0000

  /** Larger configurations are refused; a limit of 250 keeps well inside the 10.1.3.0/24 subnet. */
  const MaxWifiNodes: uint32 := 250

  /** One scheduled call of the send handler: which node, at which simulated second. */
  datatype SendEvent = SendEvent(node: nat, time: nat)

  /** `main` either stops with exit code 1 or goes on with the sends it scheduled. */
  datatype SetupOutcome = TooManyNodes | Scheduled(sends: seq<SendEvent>)

  /** The reference schedule for n nodes: entry k is node k sending at second k. */
  predicate Staggered(sends: seq<SendEvent>, n: nat)
  {
    |sends| == n && forall k | 0 <= k < n :: sends[k].node == k && sends[k].time == k
  }

  /** How many sends of the schedule belong to node `id`. */
  function SendsBy(sends: seq<SendEvent>, id: nat): nat
  {
    if sends == [] then 0
    else SendsBy(sends[..|sends| - 1], id) + if sends[|sends| - 1].node == id then 1 else 0
  }

  /** The guard on `nWifi` and the scheduling loop of `main`. */
  method ScheduleSends(nWifi: uint32) returns (outcome: SetupOutcome)
    ensures outcome.TooManyNodes? <==> nWifi > MaxWifiNodes
    ensures outcome.Scheduled? ==> Staggered(outcome.sends, nWifi as nat)
  {
    if nWifi > MaxWifiNodes {
      return TooManyNodes;
    }
    var sends: seq<SendEvent> := [];
    var i: uint32 := 0;
    while i < nWifi
      invariant i <= nWifi
      invariant Staggered(sends, i as nat)
    {
      sends := sends + [SendEvent(i as nat, i as nat)];
      i := i + 1;
    }
    return Scheduled(sends);
  }

  /** Send times strictly increase with registration order, so no two coincide. */
  lemma SendTimesIncrease(sends: seq<SendEvent>, n: nat)
    requires Staggered(sends, n)
    ensures forall j, k | 0 <= j < k < |sends| :: sends[j].time < sends[k].time
  {
  }

  /** Every node below n sends exactly once, and no other node sends. */
  lemma {:induction false} EachNodeSendsOnce(sends: seq<SendEvent>, n: nat, id: nat)
    requires Staggered(sends, n)
    ensures SendsBy(sends, id) == if id < n then 1 else 0
  {
    if n > 0 {
      var front := sends[..n - 1];
      assert Staggered(front, n - 1);
      EachNodeSendsOnce(front, n - 1, id);
    }
  }
}
