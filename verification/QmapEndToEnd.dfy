/**
 From the transmit calls of one channel to the receiver: whatever the aggregator's scheduling,
 every aggregate decodes on its own, and all packets come out once, in order.
 */
module QmapEndToEnd {
  import opened Bytes
  import opened QmapFrame
  import opened QmapTheorems
  import Copy = QmapCopyDemux
  import Agg = TxAggregator

  // The submissions behind each aggregate, aggregate by aggregate.
  function Shares(ms: seq<Submission>, taken: seq<seq<Agg.Frame>>): (shares: seq<seq<Submission>>)
    requires |Concat(taken)| <= |ms|
    ensures |shares| == |taken| && Concat(shares) == ms[..|Concat(taken)|]
  {
    if taken == [] then []
    else
      var n := |taken[0]|;
      assert ms[..|Concat(taken)|] == ms[..n] + ms[n..][..|Concat(taken[1..])|];
      [ms[..n]] + Shares(ms[n..], taken[1..])
  }

  predicate Decodes(cfg: Config, beyond: byte, aggregate: seq<Agg.Frame>, ms: seq<Submission>) {
    var s := Concat(aggregate);
    && AllSendable(cfg, ms) && Copy.PadsFit(cfg, 0, beyond, s)
    && Copy.Decode(cfg, 0, beyond, s, |ms|) == Outcome(Packets(cfg, ms), true)
  }

  lemma {:induction false} SharesDecode(cfg: Config, beyond: byte, ms: seq<Submission>, taken: seq<seq<Agg.Frame>>)
    requires AllSendable(cfg, ms) && Concat(taken) <= Frames(cfg, ms)
    ensures var shares := Shares(ms, taken);
            forall i :: 0 <= i < |taken| ==> Decodes(cfg, beyond, taken[i], shares[i])
  {
    hide FrameOf, Copy.PadsFit, Copy.Decode;
    if taken != [] {
      var n := |taken[0]|;
      var first, rest := ms[..n], ms[n..];
      assert Frames(cfg, first) == Frames(cfg, ms)[..n] == taken[0];
      assert Frames(cfg, rest) == Frames(cfg, ms)[n..];
      RoundTrip(cfg, first, beyond, n);
      assert Concat(taken[1..]) == Concat(taken)[n..];
      SharesDecode(cfg, beyond, rest, taken[1..]);
    }
  }

  /** Over every interleaving of the aggregator: the aggregates taken decode, one by one, to the
      first packets submitted, and the frames of the others are still waiting. */
  lemma EndToEnd(cfg: Config, beyond: byte, ms: seq<Submission>, s: Agg.State, es: seq<Agg.Event>)
    requires AllSendable(cfg, ms)
    requires Agg.Initial(s) && Agg.CanRun(s, es) && Agg.Run(s, es).submitted == Frames(cfg, ms)
    ensures var s' := Agg.Run(s, es);
            var n := |Concat(s'.taken)|;
            && n <= |ms|
            && (forall i :: 0 <= i < |s'.taken| ==> Decodes(cfg, beyond, s'.taken[i], Shares(ms, s'.taken)[i]))
            && Concat(Shares(ms, s'.taken)) == ms[..n]
            && Agg.Waiting(s') == Frames(cfg, ms)[n..]
  {
    Agg.InvAlways(s, es);
    var s' := Agg.Run(s, es);
    assert s'.submitted == Concat(s'.taken) + Agg.Waiting(s');
    SharesDecode(cfg, beyond, ms, s'.taken);
  }
}
