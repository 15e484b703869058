/** The synchronisation firmware's globals as one node object: `send`, the
    three radio handlers, the election in `Init`, both sides of `Sync` and
    the dispatch between them. The radio is a finite trace of ticks, and
    every clock reading the firmware takes outside a tick is a parameter. */
module ClockSync {
  import opened Timestamps
  import opened Packet
  import opened Ptp
  import opened Radio
  import opened Election
  import opened Exchange

  /** How a waiting routine ends: released with the argument of its final
      sleep, or stalled because the trace ran out while the firmware was
      still polling (on the device it would poll forever). */
  datatype Outcome = Stalled | Released(wait: u32)

  /** `n` copies of one packet. */
  function Repeat(p: PtpPacket, n: nat): (ps: seq<PtpPacket>)
    ensures |ps| == n && forall i :: 0 <= i < n ==> ps[i] == p
  {
    seq(n, _ => p)
  }

  lemma RepeatNext(p: PtpPacket, n: nat)
    ensures Repeat(p, n + 1) == Repeat(p, n) + [p]
  {
  }

  /** The ballot after the passes from tick k up to (not including) tick j. */
  function BallotAfter(b: Ballot, own: u32, trace: seq<Tick>, k: nat, j: nat): Ballot
    requires k <= j <= |trace|
  {
    HandleAll(b, own, Packets(Deliveries(trace[k..j])))
  }

  /** The ballot after one more pass is the previous one with the tick's
      packets handled. */
  lemma {:induction false} BallotAfterNext(b: Ballot, own: u32, trace: seq<Tick>, k: nat, j: nat)
    requires k <= j < |trace|
    ensures BallotAfter(b, own, trace, k, j + 1) ==
            HandleAll(BallotAfter(b, own, trace, k, j), own, Packets(trace[j].inbox))
  {
    assert trace[k..j + 1] == trace[k..j] + [trace[j]];
    DeliveriesAppend(trace[k..j], [trace[j]]);
    PacketsAppend(Deliveries(trace[k..j]), trace[j].inbox);
    HandleAllAppend(b, own, Packets(Deliveries(trace[k..j])), Packets(trace[j].inbox));
  }

  /** The pass structure of a do-while loop that tests its exit condition
      after each pass: from pass k on, it leaves after the first pass whose
      test succeeds, or runs out of passes. */
  function FirstExit(exits: seq<bool>, k: nat): (r: Span)
    requires k <= |exits|
    ensures k <= r.next <= |exits|
    decreases |exits| - k
  {
    if k == |exits| then Span(false, k)
    else if exits[k] then Span(true, k + 1)
    else FirstExit(exits, k + 1)
  }

  /** The loop leaves after a pass only when that pass's test succeeds,
      never after an earlier pass; if no test does, the passes are used up. */
  lemma {:induction false} FirstExitSpec(exits: seq<bool>, k: nat)
    requires k <= |exits|
    ensures var r := FirstExit(exits, k);
            (r.done ==> k < r.next && exits[r.next - 1]) &&
            (!r.done ==> r.next == |exits|) &&
            forall j :: k <= j < r.next - 1 ==> !exits[j]
    decreases |exits| - k
  {
    if k < |exits| && !exits[k] {
      FirstExitSpec(exits, k + 1);
    }
  }

  /** The test of `Init`'s do-while loop after each pass j, for a loop that
      starts at tick 0 with the ballot b: pass j sends, sleeps while
      `master_selection` handles tick j's deliveries, then reads the clock,
      and succeeds when at least n - 1 serials are counted and the clock is
      past `syncEnd`. */
  function ElectionTests(b: Ballot, own: u32, n: int, syncEnd: u32, trace: seq<Tick>): (exits: seq<bool>)
    ensures |exits| == |trace|
    ensures forall j :: 0 <= j < |trace| ==>
              exits[j] == (BallotAfter(b, own, trace, 0, j + 1).received >= n - 1 && trace[j].clock > syncEnd)
  {
    seq(|trace|, j requires 0 <= j < |trace| =>
      BallotAfter(b, own, trace, 0, j + 1).received >= n - 1 && trace[j].clock > syncEnd)
  }

  /** Where `Init`'s loop ends. */
  function ElectionEnd(b: Ballot, own: u32, n: int, syncEnd: u32, trace: seq<Tick>): (r: Span)
    ensures r.next <= |trace|
  {
    FirstExit(ElectionTests(b, own, n, syncEnd, trace), 0)
  }

  /** From a fresh ballot, the election invariant holds however many passes
      ran. */
  lemma FreshElection(own: u32, trace: seq<Tick>, k: nat)
    requires k <= |trace|
    ensures Consistent(BallotAfter(Start(own), own, trace, 0, k), own)
  {
    assert trace[0..k] == trace[..k];
    HandleAllHeard(own, Packets(Deliveries(trace[..k])));
  }

  /** `Init`'s exit condition: the loop leaves after a pass only when that
      pass finds `num_of_serials_received >= n - 1` and the clock past
      `sync_end`, never after an earlier pass; if no pass does, the trace is
      used up. */
  lemma ElectionExit(b: Ballot, own: u32, n: int, syncEnd: u32, trace: seq<Tick>)
    ensures var r := ElectionEnd(b, own, n, syncEnd, trace);
            (r.done ==> 0 < r.next &&
                        BallotAfter(b, own, trace, 0, r.next).received >= n - 1 &&
                        trace[r.next - 1].clock > syncEnd) &&
            (!r.done ==> r.next == |trace|) &&
            forall j :: 0 <= j < r.next - 1 ==>
              !(BallotAfter(b, own, trace, 0, j + 1).received >= n - 1 && trace[j].clock > syncEnd)
  {
    var exits := ElectionTests(b, own, n, syncEnd, trace);
    FirstExitSpec(exits, 0);
  }

  /** What a freshly started node knows when `Init` returns: it has counted
      at least n - 1 foreign serials, exactly those announced to it, and its
      `lowest_serial` is its own exactly when its serial is below all of
      them. */
  lemma {:induction false} ElectionOutcome(own: u32, n: int, syncEnd: u32, trace: seq<Tick>)
    ensures var r := ElectionEnd(Start(own), own, n, syncEnd, trace);
            var b := BallotAfter(Start(own), own, trace, 0, r.next);
            r.done ==>
              b.discovered == Heard(Packets(Deliveries(trace[..r.next])), own) &&
              |b.discovered| >= n - 1 &&
              (b.lowest == own <==> forall x :: x in b.discovered ==> own < x)
  {
    var r := ElectionEnd(Start(own), own, n, syncEnd, trace);
    ElectionExit(Start(own), own, n, syncEnd, trace);
    assert trace[0..r.next] == trace[..r.next];
    HandleAllHeard(own, Packets(Deliveries(trace[..r.next])));
    MasterDecision(BallotAfter(Start(own), own, trace, 0, r.next), own);
  }

  /** The ballot a node holds when its `Init` returns, started fresh. */
  ghost function Elected(own: u32, n: int, syncEnd: u32, trace: seq<Tick>): Ballot
  {
    BallotAfter(Start(own), own, trace, 0, ElectionEnd(Start(own), own, n, syncEnd, trace).next)
  }

  /** A group of n nodes with distinct serials, each started fresh and each
      past its election, in which every MASTER_SELECTION any of them hears
      comes from another member: the exit test `n - 1` serials received
      forces every node to have heard all the others, so exactly one node
      leaves `Init` as master, the one with the smallest serial. */
  lemma {:induction false} ElectionAgrees(group: set<u32>, n: int, syncEnds: map<u32, u32>, traces: map<u32, seq<Tick>>)
    requires group != {} && |group| == n
    requires forall s :: s in group ==> s in syncEnds && s in traces
    requires forall s :: s in group ==> ElectionEnd(Start(s), s, n, syncEnds[s], traces[s]).done
    requires forall s :: s in group ==> Heard(Packets(Deliveries(traces[s])), s) <= group
    ensures exists m :: m in group && Elected(m, n, syncEnds[m], traces[m]).lowest == m
    ensures forall m :: m in group && Elected(m, n, syncEnds[m], traces[m]).lowest == m ==>
              forall x :: x in group ==> m <= x
    ensures forall m, k ::
              m in group && k in group &&
              Elected(m, n, syncEnds[m], traces[m]).lowest == m &&
              Elected(k, n, syncEnds[k], traces[k]).lowest == k
              ==> m == k
  {
    var ballots := map s | s in group :: Elected(s, n, syncEnds[s], traces[s]);
    forall s | s in group
      ensures Consistent(ballots[s], s) && ballots[s].discovered == group - {s}
    {
      var r := ElectionEnd(Start(s), s, n, syncEnds[s], traces[s]);
      assert Consistent(ballots[s], s) by {
        FreshElection(s, traces[s], r.next);
      }
      assert ballots[s].discovered <= group - {s} && |ballots[s].discovered| >= n - 1 by {
        ElectionOutcome(s, n, syncEnds[s], traces[s]);
        HeardPrefix(traces[s], r.next, s);
      }
      HearsEveryOther(group, s, ballots[s].discovered);
    }
    ExactlyOneMaster(group, ballots);
  }

  /** What a node hears in the first k ticks it also hears in the whole trace. */
  lemma HeardPrefix(trace: seq<Tick>, k: nat, own: u32)
    requires k <= |trace|
    ensures Heard(Packets(Deliveries(trace[..k])), own) <= Heard(Packets(Deliveries(trace)), own)
  {
    assert trace[..k] + trace[k..] == trace;
    DeliveriesAppend(trace[..k], trace[k..]);
    HeardOfPrefix(Deliveries(trace[..k]), Deliveries(trace), own);
  }

  lemma HeardOfPrefix(ds: seq<Delivery>, es: seq<Delivery>, own: u32)
    requires ds <= es
    ensures Heard(Packets(ds), own) <= Heard(Packets(es), own)
  {
    var ps, qs := Packets(ds), Packets(es);
    forall x | x in Heard(ps, own)
      ensures x in Heard(qs, own)
    {
      var i :| 0 <= i < |ps| && ps[i].flag == MASTER_SELECTION && ps[i].serial != own && ps[i].serial == x;
      assert es[i] == ds[i];
      assert qs[i] == ps[i];
    }
  }

  /** A node that heard only other members of the group, and at least as
      many serials as there are other members, heard every one of them. */
  lemma HearsEveryOther(group: set<u32>, own: u32, heard: set<u32>)
    requires own in group
    requires heard <= group - {own} && |heard| >= |group| - 1
    ensures heard == group - {own}
  {
    if heard != group - {own} {
      var x :| x in group - {own} && x !in heard;
      SubsetCard(heard, group - {own, x});
    }
  }

  lemma SubsetCard(a: set<u32>, b: set<u32>)
    requires a <= b
    ensures |a| <= |b|
  {
    assert b == a + (b - a);
  }

  /** Where a follower's `SyncAsFollower` ends: the outcome, the next
      unconsumed tick, the listener's globals, whether it sent its
      DELAY_REQ, and its offset. */
  datatype FollowerEnd = FollowerEnd(outcome: Outcome, next: nat, state: Record, requested: bool, offset: i32)

  /** The follower's three waits in sequence over one trace: for its
      SYNC_PING, then (after sending DELAY_REQ at the raw clock reading
      `departure`) for its DELAY_RESP, at which point the offset is
      estimated, then for SET_UNBLOCK_TIME; the final sleep is measured with
      the raw clock reading `wake`. */
  function FollowerSync(r: Record, own: u32, offset: i32, trace: seq<Tick>, departure: u32, wake: u32): (e: FollowerEnd)
    ensures e.next <= |trace|
  {
    var r0 := r.(syncReceived := false, delayRespReceived := false, unblockReceived := false);
    AwaitConsumes(r0, own, trace, 0, SyncSlot);
    var w1 := Await(r0, own, trace, 0, SyncSlot);
    if !w1.1.syncReceived then FollowerEnd(Stalled, w1.0, w1.1, false, offset)
    else
      AwaitConsumes(w1.1, own, trace, w1.0, RespSlot);
      var w2 := Await(w1.1, own, trace, w1.0, RespSlot);
      if !w2.1.delayRespReceived then FollowerEnd(Stalled, w2.0, w2.1, true, offset)
      else
        var estimate := OffsetEstimate(w2.1.syncTimestamp, w2.1.syncArrival, departure, w2.1.pingDelay);
        AwaitConsumes(w2.1, own, trace, w2.0, UnblockSlot);
        var w3 := Await(w2.1, own, trace, w2.0, UnblockSlot);
        if !w3.1.unblockReceived then FollowerEnd(Stalled, w3.0, w3.1, true, estimate)
        else FollowerEnd(Released(BarrierWait(w3.1.timeToUnblock, Adjusted(wake, estimate))), w3.0, w3.1, true, estimate)
  }

  /** The follower's globals at the end are the listener run over exactly
      the deliveries of the ticks it consumed; it is released only once all
      three flags are set, and then wakes with its adjusted clock at the
      deadline it received. */
  lemma {:induction false} FollowerSyncConsumes(r: Record, own: u32, offset: i32, trace: seq<Tick>, departure: u32, wake: u32)
    ensures var e := FollowerSync(r, own, offset, trace, departure, wake);
            var r0 := r.(syncReceived := false, delayRespReceived := false, unblockReceived := false);
            e.state == ListenAll(r0, own, Deliveries(trace[..e.next])) &&
            (e.outcome.Stalled? ==> e.next == |trace|) &&
            (e.outcome.Released? ==>
               e.state.syncReceived && e.state.delayRespReceived && e.state.unblockReceived &&
               Adjusted(Add32(wake, e.outcome.wait), e.offset) == e.state.timeToUnblock)
  {
    var r0 := r.(syncReceived := false, delayRespReceived := false, unblockReceived := false);
    assert trace[..0] == [];
    var w1 := Await(r0, own, trace, 0, SyncSlot);
    AwaitFrom(r0, r0, own, trace, 0, SyncSlot);
    if w1.1.syncReceived {
      var w2 := Await(w1.1, own, trace, w1.0, RespSlot);
      AwaitFrom(r0, w1.1, own, trace, w1.0, RespSlot);
      if w2.1.delayRespReceived {
        var estimate := OffsetEstimate(w2.1.syncTimestamp, w2.1.syncArrival, departure, w2.1.pingDelay);
        var w3 := Await(w2.1, own, trace, w2.0, UnblockSlot);
        AwaitFrom(r0, w2.1, own, trace, w2.0, UnblockSlot);
        ListenAllKeepsGot(w1.1, own, Deliveries(trace[w1.0..w2.0]), SyncSlot);
        ListenAllKeepsGot(w2.1, own, Deliveries(trace[w2.0..w3.0]), SyncSlot);
        ListenAllKeepsGot(w2.1, own, Deliveries(trace[w2.0..w3.0]), RespSlot);
        if w3.1.unblockReceived {
          WakeAtDeadline(w3.1.timeToUnblock, wake, estimate);
        }
      }
    }
  }

  /** A wait that starts where the listener has run over the first k ticks
      ends where it has run over the first k' ticks, with the slot filled or
      the trace used up. */
  lemma {:induction false} AwaitFrom(r0: Record, r: Record, own: u32, trace: seq<Tick>, k: nat, slot: Slot)
    requires k <= |trace| && r == ListenAll(r0, own, Deliveries(trace[..k]))
    ensures var w := Await(r, own, trace, k, slot);
            k <= w.0 <= |trace| && (Got(w.1, slot) || w.0 == |trace|) &&
            w.1 == ListenAll(r, own, Deliveries(trace[k..w.0])) &&
            w.1 == ListenAll(r0, own, Deliveries(trace[..w.0]))
  {
    AwaitConsumes(r, own, trace, k, slot);
    var w := Await(r, own, trace, k, slot);
    Chain(r0, own, trace, k, w.0);
  }

  /** Listening over the first k ticks and then over ticks k..j is
      listening over the first j. */
  lemma {:induction false} Chain(r0: Record, own: u32, trace: seq<Tick>, k: nat, j: nat)
    requires k <= j <= |trace|
    ensures ListenAll(ListenAll(r0, own, Deliveries(trace[..k])), own, Deliveries(trace[k..j])) ==
            ListenAll(r0, own, Deliveries(trace[..j]))
  {
    assert trace[..j] == trace[..k] + trace[k..j];
    DeliveriesAppend(trace[..k], trace[k..j]);
    ListenAllAppend(r0, own, Deliveries(trace[..k]), Deliveries(trace[k..j]));
  }

  /** The passes over ticks k0..k + 1 send what those over k0..k sent and
      then what pass k sends. */
  lemma PingTicksNext(f: u32, trace: seq<Tick>, k0: nat, k: nat)
    requires k0 <= k < |trace|
    ensures PingTicks(f, trace[k0..k + 1]) == PingTicks(f, trace[k0..k]) + PingTick(f, trace[k])
  {
    assert trace[k0..k + 1][..k - k0] == trace[k0..k];
  }

  /** One pass of a ping phase. */
  lemma PingPhaseStep(trace: seq<Tick>, k: nat)
    requires k < |trace|
    ensures PingPhase(trace, k) == if HasRequest(trace[k].inbox) then Span(true, k + 1) else PingPhase(trace, k + 1)
  {
  }

  /** Taking the least remaining follower next keeps the visit order
      ascending. */
  lemma NextFollower(order: seq<u32>, remaining: set<u32>, all: set<u32>, f: u32)
    requires IsLeast(f, remaining) && order + Ascending(remaining) == Ascending(all)
    ensures (order + [f]) + Ascending(remaining - {f}) == Ascending(all)
  {
    AscendingStep(remaining, f);
    assert order + ([f] + Ascending(remaining - {f})) == (order + [f]) + Ascending(remaining - {f});
  }

  /** Once a ping phase stalls, the followers after it do not change the
      round. */
  lemma RoundStalls(order: seq<u32>, remaining: set<u32>, all: set<u32>, trace: seq<Tick>)
    requires order + Ascending(remaining) == Ascending(all)
    requires !MasterRound(order, trace, 0).done
    ensures MasterRound(Ascending(all), trace, 0) == MasterRound(order, trace, 0)
  {
    MasterRoundStalled(order, Ascending(remaining), trace, 0);
  }

  /** Sending more packets extends the log by their frames. */
  lemma SentFrames(before: seq<Frame>, ps: seq<PtpPacket>, qs: seq<PtpPacket>)
    ensures before + Frames(ps) + Frames(qs) == before + Frames(ps + qs)
  {
    FramesAppend(ps, qs);
  }

  /** The anonymous-namespace globals of the synchronisation firmware, and
      the log of frames handed to the radio. */
  class Node {
    var numOfMicrobits: int
    var offset: i32
    var serialNumber: u32
    var isMaster: bool
    var lowestSerial: u32
    var numOfSerialsReceived: nat
    var delayRespReceived: bool
    var syncReceived: bool
    var pingDeparture: u32
    var pingDelay: u32
    var syncTimestamp: u32
    var syncArrival: u32
    var numOfPings: int
    var discoveredSerials: set<u32>
    var followerHasSynced: bool
    var timeToUnblock: u32
    var unblockPktReceived: bool
    /** Every frame `send` handed to the radio, oldest first. */
    var sent: seq<Frame>

    /** The election globals as a ballot. */
    function Votes(): Ballot
      reads this`discoveredSerials, this`lowestSerial, this`numOfSerialsReceived
    {
      Ballot(discoveredSerials, lowestSerial, numOfSerialsReceived)
    }

    /** The globals `follower_listener` writes, as a record. */
    function Listening(): Record
      reads this`syncReceived, this`syncArrival, this`syncTimestamp, this`delayRespReceived,
            this`pingDelay, this`unblockPktReceived, this`timeToUnblock
    {
      Record(syncReceived, syncArrival, syncTimestamp, delayRespReceived, pingDelay,
             unblockPktReceived, timeToUnblock)
    }

    /** The election invariant on the globals. */
    ghost predicate Valid()
      reads this`discoveredSerials, this`lowestSerial, this`numOfSerialsReceived, this`serialNumber
    {
      Consistent(Votes(), serialNumber)
    }

    /** Static storage starts zeroed: no serials discovered, nothing sent. */
    constructor ()
      ensures Valid()
      ensures numOfMicrobits == 0 && offset == 0 && serialNumber == 0 && !isMaster
      ensures lowestSerial == 0 && numOfSerialsReceived == 0 && discoveredSerials == {}
      ensures !delayRespReceived && !syncReceived && !followerHasSynced && !unblockPktReceived
      ensures pingDeparture == 0 && pingDelay == 0 && syncTimestamp == 0 && syncArrival == 0
      ensures numOfPings == 0 && timeToUnblock == 0 && sent == []
    {
      numOfMicrobits := 0;
      offset := 0;
      serialNumber := 0;
      isMaster := false;
      lowestSerial := 0;
      numOfSerialsReceived := 0;
      delayRespReceived := false;
      syncReceived := false;
      pingDeparture := 0;
      pingDelay := 0;
      syncTimestamp := 0;
      syncArrival := 0;
      numOfPings := 0;
      discoveredSerials := {};
      followerHasSynced := false;
      timeToUnblock := 0;
      unblockPktReceived := false;
      sent := [];
    }

    /** `SystemTime()` for the raw reading `raw` of `systemTime()`: adding
        the offset modulo 2^32, so that taking the offset off again gives
        the raw reading back. */
    function SystemTime(raw: u32): (t: u32)
      reads this`offset
      ensures Wrap32(t - offset) == raw
      ensures offset == 0 ==> t == raw
    {
      Adjusted(raw, offset)
    }

    /** `send`: fills a nine-byte buffer with the flag and the big-endian
        serial and timestamp, and hands it to the radio. */
    method Send(flag: u8, serial: u32, timestamp: u32)
      modifies this`sent
      ensures sent == old(sent) + Frames([PtpPacket(flag, serial, timestamp)])
    {
      var buf := new u8[PTP_PACKET_SIZE];
      buf[0] := flag;
      buf[1] := Byte(serial / 0x100_0000);
      buf[2] := Byte(serial / 0x1_0000);
      buf[3] := Byte(serial / 0x100);
      buf[4] := Byte(serial);
      buf[5] := Byte(timestamp / 0x100_0000);
      buf[6] := Byte(timestamp / 0x1_0000);
      buf[7] := Byte(timestamp / 0x100);
      buf[8] := Byte(timestamp);
      assert buf[..] == Encode(PtpPacket(flag, serial, timestamp));
      sent := sent + [buf[..]];
      assert [buf[..]] == Frames([PtpPacket(flag, serial, timestamp)]);
    }

    /** `master_selection` on one delivery. */
    method MasterSelection(d: Delivery)
      modifies this`discoveredSerials, this`lowestSerial, this`numOfSerialsReceived
      ensures Votes() == Handle(old(Votes()), serialNumber, Decode(d.frame))
      ensures old(Valid()) ==> Valid()
    {
      var p := Decode(d.frame);
      if p.serial == serialNumber {
        return;
      }
      if p.flag == MASTER_SELECTION {
        discoveredSerials := discoveredSerials + {p.serial};
        if p.serial < lowestSerial {
          lowestSerial := p.serial;
        }
        numOfSerialsReceived := |discoveredSerials|;
      }
    }

    /** A sleep during which `master_selection` runs once per delivery. */
    method SleepElecting(inbox: seq<Delivery>)
      modifies this`discoveredSerials, this`lowestSerial, this`numOfSerialsReceived
      ensures Votes() == HandleAll(old(Votes()), serialNumber, Packets(inbox))
      ensures old(Valid()) ==> Valid()
    {
      for i := 0 to |inbox|
        invariant Votes() == HandleAll(old(Votes()), serialNumber, Packets(inbox[..i]))
        invariant old(Valid()) ==> Valid()
      {
        MasterSelection(inbox[i]);
        assert inbox[..i + 1] == inbox[..i] + [inbox[i]];
        PacketsAppend(inbox[..i], [inbox[i]]);
        var ps := Packets(inbox[..i + 1]);
        assert ps[..|ps| - 1] == Packets(inbox[..i]);
      }
      assert inbox[..|inbox|] == inbox;
    }

    /** `on_delay_req` on one delivery: reads the clock (`d.at`) first, then
        answers a DELAY_REQ and records that a follower synchronised. */
    method OnDelayReq(d: Delivery)
      modifies this`sent, this`followerHasSynced
      ensures sent == old(sent) + Frames(Reply(d))
      ensures followerHasSynced == (old(followerHasSynced) || Decode(d.frame).flag == DELAY_REQ)
    {
      var t := d.at;
      var p := Decode(d.frame);
      if p.flag == DELAY_REQ {
        Send(DELAY_RESP, p.serial, t);
        followerHasSynced := true;
      }
      assert Reply(d) == if p.flag == DELAY_REQ then [PtpPacket(DELAY_RESP, p.serial, t)] else [];
      assert Frames([]) == [];
    }

    /** A sleep during which `on_delay_req` runs once per delivery. */
    method SleepAnswering(inbox: seq<Delivery>)
      modifies this`sent, this`followerHasSynced
      ensures sent == old(sent) + Frames(Replies(inbox))
      ensures followerHasSynced == (old(followerHasSynced) || HasRequest(inbox))
    {
      for i := 0 to |inbox|
        invariant sent == old(sent) + Frames(Replies(inbox[..i]))
        invariant followerHasSynced == (old(followerHasSynced) || HasRequest(inbox[..i]))
      {
        OnDelayReq(inbox[i]);
        RepliesNext(inbox, i);
        SentFrames(old(sent), Replies(inbox[..i]), Reply(inbox[i]));
        HasRequestNext(inbox, i);
      }
      assert inbox[..|inbox|] == inbox;
    }

    /** `follower_listener` on one delivery. */
    method FollowerListener(d: Delivery)
      modifies this`syncArrival, this`syncTimestamp, this`syncReceived, this`timeToUnblock,
               this`unblockPktReceived, this`pingDelay, this`delayRespReceived
      ensures Listening() == Listen(old(Listening()), serialNumber, d)
    {
      var t := d.at;
      var p := Decode(d.frame);
      if p.flag == SYNC_PING && p.serial == serialNumber {
        syncArrival := t;
        syncTimestamp := p.timestamp;
        syncReceived := true;
      } else if p.flag == SET_UNBLOCK_TIME {
        timeToUnblock := p.timestamp;
        unblockPktReceived := true;
      } else if p.flag == DELAY_RESP && p.serial == serialNumber {
        pingDelay := p.timestamp;
        delayRespReceived := true;
      }
    }

    /** A sleep during which `follower_listener` runs once per delivery. */
    method SleepListening(inbox: seq<Delivery>)
      modifies this`syncArrival, this`syncTimestamp, this`syncReceived, this`timeToUnblock,
               this`unblockPktReceived, this`pingDelay, this`delayRespReceived
      ensures Listening() == ListenAll(old(Listening()), serialNumber, inbox)
    {
      for i := 0 to |inbox|
        invariant Listening() == ListenAll(old(Listening()), serialNumber, inbox[..i])
      {
        FollowerListener(inbox[i]);
        assert inbox[..i + 1][..i] == inbox[..i];
      }
      assert inbox[..|inbox|] == inbox;
    }

    /** `while (!flag) sleep(100)` for one of the follower's flags, from
        tick k on: consumes ticks until the flag is set or the trace ends. */
    method AwaitSlot(trace: seq<Tick>, k: nat, slot: Slot) returns (next: nat)
      requires k <= |trace|
      modifies this`syncArrival, this`syncTimestamp, this`syncReceived, this`timeToUnblock,
               this`unblockPktReceived, this`pingDelay, this`delayRespReceived
      ensures next <= |trace|
      ensures (next, Listening()) == Await(old(Listening()), serialNumber, trace, k, slot)
    {
      next := k;
      while !Got(Listening(), slot) && next < |trace|
        invariant k <= next <= |trace|
        invariant Await(Listening(), serialNumber, trace, next, slot) == Await(old(Listening()), serialNumber, trace, k, slot)
        decreases |trace| - next
      {
        SleepListening(trace[next].inbox);
        next := next + 1;
      }
    }

    /** The body of that loop for tick k: a MASTER_SELECTION broadcast, then
        a sleep while `master_selection` handles the tick's deliveries. */
    method ElectionPass(ghost b0: Ballot, trace: seq<Tick>, k: nat)
      requires k < |trace| && Votes() == BallotAfter(b0, serialNumber, trace, 0, k)
      modifies this`sent, this`discoveredSerials, this`lowestSerial, this`numOfSerialsReceived
      ensures sent == old(sent) + Frames([PtpPacket(MASTER_SELECTION, serialNumber, EMPTY_FIELD)])
      ensures Votes() == BallotAfter(b0, serialNumber, trace, 0, k + 1)
      ensures old(Valid()) ==> Valid()
    {
      Send(MASTER_SELECTION, serialNumber, EMPTY_FIELD);
      SleepElecting(trace[k].inbox);
      BallotAfterNext(b0, serialNumber, trace, 0, k);
    }

    /** The do-while loop of `Init`: each pass sends this node's
        MASTER_SELECTION, sleeps through one tick while `master_selection`
        handles its deliveries, and reads the clock; it leaves once
        `num_of_serials_received >= num_of_microbits - 1` and the adjusted
        clock is past `syncEnd`. */
    method ElectionPasses(syncEnd: u32, trace: seq<Tick>) returns (elected: bool, used: nat)
      requires offset == 0
      modifies this`sent, this`discoveredSerials, this`lowestSerial, this`numOfSerialsReceived
      ensures var r := ElectionEnd(old(Votes()), serialNumber, numOfMicrobits, syncEnd, trace);
              elected == r.done && used == r.next
      ensures Votes() == BallotAfter(old(Votes()), serialNumber, trace, 0, used)
      ensures sent == old(sent) + Frames(Repeat(PtpPacket(MASTER_SELECTION, serialNumber, EMPTY_FIELD), used))
      ensures old(Valid()) ==> Valid()
    {
      ghost var b0 := Votes();
      ghost var announce := PtpPacket(MASTER_SELECTION, serialNumber, EMPTY_FIELD);
      ghost var exits := ElectionTests(b0, serialNumber, numOfMicrobits, syncEnd, trace);
      assert trace[0..0] == [];
      used := 0;
      elected := false;
      while !elected && used < |trace|
        invariant used <= |trace|
        invariant Votes() == BallotAfter(b0, serialNumber, trace, 0, used)
        invariant !elected ==> FirstExit(exits, used) == FirstExit(exits, 0)
        invariant elected ==> FirstExit(exits, 0) == Span(true, used)
        invariant sent == old(sent) + Frames(Repeat(announce, used))
        invariant old(Valid()) ==> Valid()
        decreases |trace| - used
      {
        ElectionPass(b0, trace, used);
        RepeatNext(announce, used);
        SentFrames(old(sent), Repeat(announce, used), [announce]);
        var now := SystemTime(trace[used].clock);
        ghost var pass := used;
        used := used + 1;
        assert now == trace[pass].clock;
        assert exits[pass] == (numOfSerialsReceived >= numOfMicrobits - 1 && now > syncEnd);
        assert FirstExit(exits, pass) == if exits[pass] then Span(true, used) else FirstExit(exits, used);
        if numOfSerialsReceived >= numOfMicrobits - 1 && now > syncEnd {
          elected := true;
        }
      }
    }

    /** The assignments at the top of `Init`. */
    method Reset(n: int, serial: u32)
      modifies this`delayRespReceived, this`syncReceived, this`numOfSerialsReceived, this`offset,
               this`numOfPings, this`numOfMicrobits, this`lowestSerial, this`serialNumber
      ensures offset == 0 && numOfMicrobits == n && serialNumber == serial && numOfPings == 0
      ensures !delayRespReceived && !syncReceived
      ensures Votes() == Ballot(discoveredSerials, serial, 0)
    {
      delayRespReceived := false;
      syncReceived := false;
      numOfSerialsReceived := 0;
      offset := 0;
      numOfPings := 0;
      numOfMicrobits := n;
      lowestSerial := serial;
      serialNumber := lowestSerial;
    }

    /** After the loop: one last MASTER_SELECTION, then the role decision. */
    method Decide()
      modifies this`sent, this`isMaster
      ensures sent == old(sent) + Frames([PtpPacket(MASTER_SELECTION, serialNumber, EMPTY_FIELD)])
      ensures isMaster == (lowestSerial == serialNumber)
    {
      Send(MASTER_SELECTION, serialNumber, EMPTY_FIELD);
      isMaster := lowestSerial == serialNumber;
    }

    /** The election of `Init` once the globals are reset: the passes, then,
        if they ended, one last MASTER_SELECTION and the role decision. */
    method Elect(syncEnd: u32, trace: seq<Tick>) returns (elected: bool, used: nat)
      requires offset == 0
      modifies this`sent, this`discoveredSerials, this`lowestSerial, this`numOfSerialsReceived, this`isMaster
      ensures var r := ElectionEnd(old(Votes()), serialNumber, numOfMicrobits, syncEnd, trace);
              elected == r.done && used == r.next
      ensures Votes() == BallotAfter(old(Votes()), serialNumber, trace, 0, used)
      ensures sent == old(sent) + Frames(Repeat(PtpPacket(MASTER_SELECTION, serialNumber, EMPTY_FIELD),
                                                if elected then used + 1 else used))
      ensures elected ==> isMaster == (lowestSerial == serialNumber)
      ensures !elected ==> isMaster == old(isMaster)
      ensures old(Votes()) == Start(serialNumber) ==> Valid()
    {
      ghost var announce := PtpPacket(MASTER_SELECTION, serialNumber, EMPTY_FIELD);
      ghost var b0 := Votes();
      elected, used := ElectionPasses(syncEnd, trace);
      ghost var votes := Votes();
      if elected {
        Decide();
        RepeatNext(announce, used);
        SentFrames(old(sent), Repeat(announce, used), [announce]);
      }
      assert Votes() == votes;
      if b0 == Start(serialNumber) {
        FreshElection(serialNumber, trace, used);
      }
    }

    /** `Init(uBit, n)` for a node whose serial number is `serial`, whose
        first clock reading is `startClock`, and whose election passes
        follow `trace`. Reports whether the loop ended (the role decision is
        then made) and how many ticks it consumed. `discovered_serials` is
        not cleared: a node starts from what earlier calls left there. */
    method Init(n: int, serial: u32, startClock: u32, trace: seq<Tick>) returns (elected: bool, used: nat)
      requires n >= 2
      modifies this`delayRespReceived, this`syncReceived, this`numOfSerialsReceived, this`offset,
               this`numOfPings, this`numOfMicrobits, this`lowestSerial, this`serialNumber,
               this`discoveredSerials, this`sent, this`isMaster
      ensures offset == 0 && numOfMicrobits == n && serialNumber == serial && numOfPings == 0
      ensures !delayRespReceived && !syncReceived
      ensures var b0 := Ballot(old(discoveredSerials), serial, 0);
              var r := ElectionEnd(b0, serial, n, Add32(startClock, 1000), trace);
              elected == r.done && used == r.next &&
              Votes() == BallotAfter(b0, serial, trace, 0, used)
      ensures sent == old(sent) + Frames(Repeat(PtpPacket(MASTER_SELECTION, serial, EMPTY_FIELD),
                                                if elected then used + 1 else used))
      ensures elected ==> isMaster == (lowestSerial == serialNumber)
      ensures !elected ==> isMaster == old(isMaster)
      ensures old(discoveredSerials) == {} ==> Valid()
    {
      Reset(n, serial);
      var syncEnd := Add32(SystemTime(startClock), 1000);
      assert syncEnd == Add32(startClock, 1000);
      ghost var b0 := Votes();
      if old(discoveredSerials) == {} {
        assert b0 == Start(serial);
      }
      elected, used := Elect(syncEnd, trace);
    }

    /** `SyncAsMaster`: pings every discovered serial in increasing order
        until some DELAY_REQ arrives, answering every DELAY_REQ meanwhile;
        then broadcasts the deadline `SystemTime() + UNBLOCK_DELAY`, read at
        the raw clock `deadlineClock`, and sleeps until it, measured at the
        raw clock `wakeClock`. The deadline is a local: the global
        `time_to_unblock` is not touched, and neither is the offset. */
    method SyncAsMaster(trace: seq<Tick>, deadlineClock: u32, wakeClock: u32) returns (outcome: Outcome, used: nat)
      modifies this`sent, this`followerHasSynced
      ensures var r := MasterRound(Ascending(discoveredSerials), trace, 0);
              used == r.next &&
              (!r.done ==> outcome == Stalled && sent == old(sent) + Frames(r.sent)) &&
              (r.done ==>
                 var deadline := Add32(SystemTime(deadlineClock), UNBLOCK_DELAY);
                 outcome == Released(BarrierWait(deadline, SystemTime(wakeClock))) &&
                 sent == old(sent) + Frames(r.sent + [PtpPacket(SET_UNBLOCK_TIME, serialNumber, deadline)]) &&
                 Adjusted(Add32(wakeClock, outcome.wait), offset) == deadline)
    {
      var done;
      done, used := PingFollowers(trace);
      if !done {
        return Stalled, used;
      }
      var deadline := Add32(SystemTime(deadlineClock), UNBLOCK_DELAY);
      Send(SET_UNBLOCK_TIME, serialNumber, deadline);
      SentFrames(old(sent), MasterRound(Ascending(discoveredSerials), trace, 0).sent,
                 [PtpPacket(SET_UNBLOCK_TIME, serialNumber, deadline)]);
      outcome := Released(Sub32(deadline, SystemTime(wakeClock)));
      WakeAtDeadline(deadline, wakeClock, offset);
    }

    /** The range-for of `SyncAsMaster` over `discovered_serials`, smallest
        serial first: one ping phase per follower, each from where the
        previous one stopped. */
    method PingFollowers(trace: seq<Tick>) returns (done: bool, k: nat)
      modifies this`sent, this`followerHasSynced
      ensures var r := MasterRound(Ascending(discoveredSerials), trace, 0);
              done == r.done && k == r.next && sent == old(sent) + Frames(r.sent)
    {
      var remaining := discoveredSerials;
      ghost var order: seq<u32> := [];
      k := 0;
      while remaining != {}
        invariant remaining <= discoveredSerials
        invariant order + Ascending(remaining) == Ascending(discoveredSerials)
        invariant k <= |trace|
        invariant var r := MasterRound(order, trace, 0);
                  r.done && r.next == k && sent == old(sent) + Frames(r.sent)
        decreases |remaining|
      {
        LeastExists(remaining);
        var f :| f in remaining && IsLeast(f, remaining);
        NextFollower(order, remaining, discoveredSerials, f);
        k := PingNext(old(sent), order, f, trace, k);
        if !followerHasSynced {
          RoundStalls(order + [f], remaining - {f}, discoveredSerials, trace);
          return false, k;
        }
        order := order + [f];
        remaining := remaining - {f};
      }
      assert order == Ascending(discoveredSerials);
      done := true;
    }

    /** One iteration of that range-for: clear `follower_has_synced` and run
        follower f's ping phase where the round so far stopped. */
    method PingNext(ghost base: seq<Frame>, ghost order: seq<u32>, f: u32, trace: seq<Tick>, k: nat) returns (k': nat)
      requires k <= |trace|
      requires var r := MasterRound(order, trace, 0);
               r.done && r.next == k && sent == base + Frames(r.sent)
      modifies this`sent, this`followerHasSynced
      ensures var r := MasterRound(order + [f], trace, 0);
              followerHasSynced == r.done && k' == r.next && sent == base + Frames(r.sent)
    {
      MasterRoundSnoc(order, f, trace, 0);
      ghost var r := MasterRound(order, trace, 0);
      followerHasSynced := false;
      k' := PingUntilSynced(f, trace, k);
      SentFrames(base, r.sent, PingTicks(f, trace[k..k']));
    }

    /** The inner loop of `SyncAsMaster` for follower f, from tick k0 on:
        while no DELAY_REQ has arrived, send f a SYNC_PING stamped with the
        tick's clock reading and sleep while `on_delay_req` answers the
        tick's deliveries. Ends at the first tick that brought a DELAY_REQ,
        or when the trace runs out. */
    method PingUntilSynced(f: u32, trace: seq<Tick>, k0: nat) returns (k: nat)
      requires k0 <= |trace| && !followerHasSynced
      modifies this`sent, this`followerHasSynced
      ensures PingPhase(trace, k0) == Span(followerHasSynced, k)
      ensures sent == old(sent) + Frames(PingTicks(f, trace[k0..k]))
    {
      k := k0;
      assert trace[k0..k0] == [];
      while !followerHasSynced && k < |trace|
        invariant k0 <= k <= |trace|
        invariant sent == old(sent) + Frames(PingTicks(f, trace[k0..k]))
        invariant PingPhase(trace, k0) == if followerHasSynced then Span(true, k) else PingPhase(trace, k)
        decreases |trace| - k
      {
        PingPhaseStep(trace, k);
        PingPass(f, trace[k]);
        PingTicksNext(f, trace, k0, k);
        SentFrames(old(sent), PingTicks(f, trace[k0..k]), PingTick(f, trace[k]));
        k := k + 1;
      }
    }

    /** One pass of that loop: a SYNC_PING to f stamped with the tick's raw
        clock, then a sleep while `on_delay_req` answers the tick's
        deliveries. */
    method PingPass(f: u32, t: Tick)
      modifies this`sent, this`followerHasSynced
      ensures sent == old(sent) + Frames(PingTick(f, t))
      ensures followerHasSynced == (old(followerHasSynced) || HasRequest(t.inbox))
    {
      Send(SYNC_PING, f, t.clock);
      SleepAnswering(t.inbox);
      SentFrames(old(sent), [PtpPacket(SYNC_PING, f, t.clock)], Replies(t.inbox));
    }

    /** `SyncAsFollower`: clears the three flags, waits for its SYNC_PING,
        sends DELAY_REQ (departure read at the raw clock `departureClock`),
        waits for its DELAY_RESP, sets the offset, waits for the deadline and
        sleeps until it (measured at the raw clock `wakeClock`). */
    method SyncAsFollower(trace: seq<Tick>, departureClock: u32, wakeClock: u32) returns (outcome: Outcome, used: nat)
      modifies this`syncArrival, this`syncTimestamp, this`syncReceived, this`timeToUnblock,
               this`unblockPktReceived, this`pingDelay, this`delayRespReceived,
               this`pingDeparture, this`sent, this`offset
      ensures var e := FollowerSync(old(Listening()), serialNumber, old(offset), trace, departureClock, wakeClock);
              outcome == e.outcome && used == e.next && Listening() == e.state && offset == e.offset &&
              sent == old(sent) + (if e.requested then Frames([PtpPacket(DELAY_REQ, serialNumber, EMPTY_FIELD)]) else []) &&
              pingDeparture == (if e.requested then departureClock else old(pingDeparture))
    {
      ClearFlags();
      ghost var r0 := Listening();
      var k := AwaitSlot(trace, 0, SyncSlot);
      ghost var w1 := Await(r0, serialNumber, trace, 0, SyncSlot);
      assert (k, Listening()) == w1;
      if !syncReceived {
        return Stalled, k;
      }
      pingDeparture := departureClock;
      Send(DELAY_REQ, serialNumber, EMPTY_FIELD);
      k := AwaitSlot(trace, k, RespSlot);
      ghost var w2 := Await(w1.1, serialNumber, trace, w1.0, RespSlot);
      assert (k, Listening()) == w2;
      if !delayRespReceived {
        return Stalled, k;
      }
      offset := OffsetEstimate(syncTimestamp, syncArrival, pingDeparture, pingDelay);
      assert offset == OffsetEstimate(w2.1.syncTimestamp, w2.1.syncArrival, departureClock, w2.1.pingDelay);
      k := AwaitSlot(trace, k, UnblockSlot);
      ghost var w3 := Await(w2.1, serialNumber, trace, w2.0, UnblockSlot);
      assert (k, Listening()) == w3;
      if !unblockPktReceived {
        return Stalled, k;
      }
      outcome := Released(Sub32(timeToUnblock, SystemTime(wakeClock)));
      used := k;
    }

    /** The three flag resets at the top of `SyncAsFollower`. */
    method ClearFlags()
      modifies this`syncReceived, this`delayRespReceived, this`unblockPktReceived
      ensures Listening() == old(Listening()).(syncReceived := false, delayRespReceived := false, unblockReceived := false)
    {
      syncReceived := false;
      delayRespReceived := false;
      unblockPktReceived := false;
    }

    /** `Sync`: the master runs `SyncAsMaster`, every other node
        `SyncAsFollower`. `stampClock` is the raw clock reading taken
        between the waits (the master's deadline reading, the follower's
        DELAY_REQ departure) and `wakeClock` the one before the final sleep.
        Either way, a released node wakes with its adjusted clock at the
        deadline: the one it broadcast, or the one it received. The master's
        offset stays as it was. */
    method Sync(trace: seq<Tick>, stampClock: u32, wakeClock: u32) returns (outcome: Outcome, used: nat)
      modifies this`syncArrival, this`syncTimestamp, this`syncReceived, this`timeToUnblock,
               this`unblockPktReceived, this`pingDelay, this`delayRespReceived,
               this`pingDeparture, this`sent, this`offset, this`followerHasSynced
      ensures isMaster ==> offset == old(offset)
      ensures isMaster && outcome.Released? ==>
                |sent| > |old(sent)| &&
                Decode(sent[|sent| - 1]).flag == SET_UNBLOCK_TIME &&
                Adjusted(Add32(wakeClock, outcome.wait), offset) == Decode(sent[|sent| - 1]).timestamp
      ensures !isMaster && outcome.Released? ==>
                unblockPktReceived && Adjusted(Add32(wakeClock, outcome.wait), offset) == timeToUnblock
    {
      if isMaster {
        outcome, used := SyncAsMaster(trace, stampClock, wakeClock);
        if outcome.Released? {
          var r := MasterRound(Ascending(discoveredSerials), trace, 0);
          var deadline := Add32(SystemTime(stampClock), UNBLOCK_DELAY);
          var last := PtpPacket(SET_UNBLOCK_TIME, serialNumber, deadline);
          FramesAppend(r.sent, [last]);
          DecodeEncode(last);
        }
      } else {
        outcome, used := SyncAsFollower(trace, stampClock, wakeClock);
        FollowerSyncConsumes(old(Listening()), serialNumber, old(offset), trace, stampClock, wakeClock);
      }
    }
  }
}
