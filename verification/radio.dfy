/** The radio as the protocol sees it: datagrams handed to a handler, each
    with the raw clock reading the handler takes when it starts, grouped by
    the sleep during which the message bus delivered them. */
module Radio {
  import opened Timestamps
  import opened Packet

  /** One handler invocation: the frame it reads with `recv` and the value of
      `systemTime()` it reads first (unused by `master_selection`). */
  datatype Delivery = Delivery(at: u32, frame: Frame)

  /** One pass of a polling loop: the clock reading that pass takes and the
      datagrams whose handlers run while it sleeps. */
  datatype Tick = Tick(clock: u32, inbox: seq<Delivery>)

  /** The deliveries of consecutive ticks, in order. */
  function Deliveries(ticks: seq<Tick>): (ds: seq<Delivery>)
    ensures |ticks| == 1 ==> ds == ticks[0].inbox
    decreases |ticks|
  {
    if ticks == [] then [] else Deliveries(ticks[..|ticks| - 1]) + ticks[|ticks| - 1].inbox
  }

  lemma {:induction false} DeliveriesAppend(a: seq<Tick>, b: seq<Tick>)
    ensures Deliveries(a + b) == Deliveries(a) + Deliveries(b)
    decreases |b|
  {
    if b == [] {
      assert a + b == a;
    } else {
      var b' := b[..|b| - 1];
      assert (a + b)[..|a + b| - 1] == a + b';
      DeliveriesAppend(a, b');
      DeliveriesAssoc(Deliveries(a), Deliveries(b'), b[|b| - 1].inbox);
    }
  }

  lemma DeliveriesAssoc(a: seq<Delivery>, b: seq<Delivery>, c: seq<Delivery>)
    ensures a + (b + c) == (a + b) + c
  {
  }

  /** The packets of a run of deliveries, decoded. */
  function Packets(ds: seq<Delivery>): (ps: seq<PtpPacket>)
    ensures |ps| == |ds|
    ensures forall i :: 0 <= i < |ds| ==> ps[i] == Decode(ds[i].frame)
  {
    seq(|ds|, i requires 0 <= i < |ds| => Decode(ds[i].frame))
  }

  lemma PacketsAppend(ds: seq<Delivery>, es: seq<Delivery>)
    ensures Packets(ds + es) == Packets(ds) + Packets(es)
  {
    assert forall i :: 0 <= i < |ds + es| ==> Packets(ds + es)[i] == (Packets(ds) + Packets(es))[i];
  }

  /** The deliveries of the first k + 1 ticks are those of the first k
      followed by tick k's inbox. */
  lemma DeliveriesNext(trace: seq<Tick>, k: nat)
    requires k < |trace|
    ensures Deliveries(trace[..k + 1]) == Deliveries(trace[..k]) + trace[k].inbox
  {
    assert trace[..k + 1][..k] == trace[..k];
  }
}
