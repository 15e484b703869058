/** The two packet demultiplexers of a synchronisation round, as transitions
    on values, and the reference definition of what the master sends while it
    pings its followers one after another. */
module Exchange {
  import opened Timestamps
  import opened Packet
  import opened Radio

  // ---------------------------------------------------------------------
  // Follower side: follower_listener

  /** The globals `follower_listener` writes. */
  datatype Record = Record(syncReceived: bool, syncArrival: u32, syncTimestamp: u32,
                           delayRespReceived: bool, pingDelay: u32,
                           unblockReceived: bool, timeToUnblock: u32)

  /** The three things a follower waits for. */
  datatype Slot = SyncSlot | RespSlot | UnblockSlot

  /** The completion flag of a slot. */
  function Got(r: Record, slot: Slot): bool
  {
    match slot
    case SyncSlot => r.syncReceived
    case RespSlot => r.delayRespReceived
    case UnblockSlot => r.unblockReceived
  }

  /** The packet timestamp a slot keeps: `sync_timestamp`, `ping_delay` or
      `time_to_unblock`. */
  function Stamp(r: Record, slot: Slot): u32
  {
    match slot
    case SyncSlot => r.syncTimestamp
    case RespSlot => r.pingDelay
    case UnblockSlot => r.timeToUnblock
  }

  /** The packets that fill a slot: SYNC_PING and DELAY_RESP only when
      addressed to the node's own serial, SET_UNBLOCK_TIME from any sender. */
  predicate Fills(p: PtpPacket, own: u32, slot: Slot)
  {
    match slot
    case SyncSlot => p.flag == SYNC_PING && p.serial == own
    case RespSlot => p.flag == DELAY_RESP && p.serial == own
    case UnblockSlot => p.flag == SET_UNBLOCK_TIME
  }

  /** `follower_listener` on one delivery. */
  function Listen(r: Record, own: u32, d: Delivery): (r': Record)
    ensures forall slot :: Got(r, slot) ==> Got(r', slot)
  {
    var p := Decode(d.frame);
    if p.flag == SYNC_PING && p.serial == own then
      r.(syncArrival := d.at, syncTimestamp := p.timestamp, syncReceived := true)
    else if p.flag == SET_UNBLOCK_TIME then
      r.(timeToUnblock := p.timestamp, unblockReceived := true)
    else if p.flag == DELAY_RESP && p.serial == own then
      r.(pingDelay := p.timestamp, delayRespReceived := true)
    else
      r
  }

  /** `follower_listener` run on each delivery in turn. */
  function ListenAll(r: Record, own: u32, ds: seq<Delivery>): Record
    decreases |ds|
  {
    if ds == [] then r else Listen(ListenAll(r, own, ds[..|ds| - 1]), own, ds[|ds| - 1])
  }

  /** A delivery fills exactly the slot its packet is for, and changes
      nothing when it fills none: a SYNC_PING or DELAY_RESP for another
      serial and every other flag are ignored. Only a SYNC_PING moves the
      recorded arrival time. */
  lemma ListenFills(r: Record, own: u32, d: Delivery, slot: Slot)
    ensures var p := Decode(d.frame);
            Fills(p, own, slot) ==> Got(Listen(r, own, d), slot) && Stamp(Listen(r, own, d), slot) == p.timestamp
    ensures var p := Decode(d.frame);
            !Fills(p, own, slot) ==>
              Got(Listen(r, own, d), slot) == Got(r, slot) && Stamp(Listen(r, own, d), slot) == Stamp(r, slot)
    ensures var p := Decode(d.frame);
            Listen(r, own, d).syncArrival == if Fills(p, own, SyncSlot) then d.at else r.syncArrival
  {
  }

  /** A delivery whose packet fills no slot leaves every global as it was. */
  lemma ListenIgnores(r: Record, own: u32, d: Delivery)
    requires var p := Decode(d.frame);
             !Fills(p, own, SyncSlot) && !Fills(p, own, RespSlot) && !Fills(p, own, UnblockSlot)
    ensures Listen(r, own, d) == r
  {
  }

  /** Delivering the same packet twice has the effect of delivering it once. */
  lemma ListenIdempotent(r: Record, own: u32, d: Delivery)
    ensures Listen(Listen(r, own, d), own, d) == Listen(r, own, d)
  {
  }

  lemma {:induction false} ListenAllAppend(r: Record, own: u32, ds: seq<Delivery>, es: seq<Delivery>)
    ensures ListenAll(r, own, ds + es) == ListenAll(ListenAll(r, own, ds), own, es)
    decreases |es|
  {
    if es == [] {
      assert ds + es == ds;
    } else {
      var es' := es[..|es| - 1];
      assert (ds + es)[..|ds + es| - 1] == ds + es';
      ListenAllAppend(r, own, ds, es');
    }
  }

  /** A run of deliveries none of which fills a slot leaves that slot's
      flag and value (and, for SYNC_PING, the arrival time) as they were. */
  lemma {:induction false} ListenAllUntouched(r: Record, own: u32, ds: seq<Delivery>, slot: Slot)
    requires forall i :: 0 <= i < |ds| ==> !Fills(Decode(ds[i].frame), own, slot)
    ensures var r' := ListenAll(r, own, ds);
            Got(r', slot) == Got(r, slot) && Stamp(r', slot) == Stamp(r, slot) &&
            (slot == SyncSlot ==> r'.syncArrival == r.syncArrival)
    decreases |ds|
  {
    if ds != [] {
      var ds' := ds[..|ds| - 1];
      forall i | 0 <= i < |ds'| ensures !Fills(Decode(ds'[i].frame), own, slot) {
        assert ds'[i] == ds[i];
      }
      ListenAllUntouched(r, own, ds', slot);
      ListenFills(ListenAll(r, own, ds'), own, ds[|ds| - 1], slot);
    }
  }

  /** After a run of deliveries a slot holds what the LAST packet filling it
      carried, and for SYNC_PING that packet's arrival time. */
  lemma {:induction false} ListenAllKeepsLast(r: Record, own: u32, ds: seq<Delivery>, slot: Slot, i: nat)
    requires i < |ds| && Fills(Decode(ds[i].frame), own, slot)
    requires forall j :: i < j < |ds| ==> !Fills(Decode(ds[j].frame), own, slot)
    ensures var r' := ListenAll(r, own, ds);
            Got(r', slot) && Stamp(r', slot) == Decode(ds[i].frame).timestamp &&
            (slot == SyncSlot ==> r'.syncArrival == ds[i].at)
  {
    var before, after := ds[..i + 1], ds[i + 1..];
    assert ds == before + after;
    ListenAllAppend(r, own, before, after);
    assert before[..|before| - 1] == ds[..i];
    var r1 := ListenAll(r, own, before);
    ListenFills(ListenAll(r, own, ds[..i]), own, ds[i], slot);
    forall j | 0 <= j < |after| ensures !Fills(Decode(after[j].frame), own, slot) {
      assert after[j] == ds[i + 1 + j];
    }
    ListenAllUntouched(r1, own, after, slot);
  }

  /** The listener never clears a flag: once a slot is filled it stays
      filled. */
  lemma {:induction false} ListenAllKeepsGot(r: Record, own: u32, ds: seq<Delivery>, slot: Slot)
    requires Got(r, slot)
    ensures Got(ListenAll(r, own, ds), slot)
    decreases |ds|
  {
    if ds != [] {
      ListenAllKeepsGot(r, own, ds[..|ds| - 1], slot);
    }
  }

  /** The follower's wait loops: starting at tick k, consume ticks until the
      slot's flag is set (checked before each sleep), or the trace ends.
      Returns the next unconsumed tick and the record reached. */
  function Await(r: Record, own: u32, trace: seq<Tick>, k: nat, slot: Slot): (res: (nat, Record))
    requires k <= |trace|
    ensures k <= res.0 <= |trace|
    ensures Got(res.1, slot) || res.0 == |trace|
    ensures Got(r, slot) ==> res == (k, r)
    decreases |trace| - k
  {
    if Got(r, slot) || k == |trace| then (k, r)
    else Await(ListenAll(r, own, trace[k].inbox), own, trace, k + 1, slot)
  }

  /** A wait ends with its flag set or with the trace used up, and its record
      is the listener run over exactly the deliveries of the ticks it
      consumed. */
  lemma {:induction false} AwaitConsumes(r: Record, own: u32, trace: seq<Tick>, k: nat, slot: Slot)
    requires k <= |trace|
    ensures var (k', r') := Await(r, own, trace, k, slot);
            k <= k' <= |trace| &&
            (Got(r', slot) || k' == |trace|) &&
            r' == ListenAll(r, own, Deliveries(trace[k..k']))
    decreases |trace| - k
  {
    if Got(r, slot) || k == |trace| {
      assert trace[k..k] == [];
    } else {
      var r1 := ListenAll(r, own, trace[k].inbox);
      AwaitConsumes(r1, own, trace, k + 1, slot);
      var (k', r') := Await(r1, own, trace, k + 1, slot);
      assert trace[k..k'] == [trace[k]] + trace[k + 1..k'];
      DeliveriesAppend([trace[k]], trace[k + 1..k']);
      ListenAllAppend(r, own, trace[k].inbox, Deliveries(trace[k + 1..k']));
    }
  }

  // ---------------------------------------------------------------------
  // Master side: on_delay_req and the ping phases

  /** `on_delay_req` on one delivery: a DELAY_REQ, whatever its serial, is
      answered by a DELAY_RESP addressed to that serial carrying the
      master's arrival time; anything else gets no answer. The result is
      the packets handed to `send`. */
  function Reply(d: Delivery): (out: seq<PtpPacket>)
    ensures |out| <= 1
    ensures Decode(d.frame).flag == DELAY_REQ <==> |out| == 1
    ensures |out| == 1 ==> out[0].flag == DELAY_RESP && out[0].serial == Decode(d.frame).serial && out[0].timestamp == d.at
  {
    var p := Decode(d.frame);
    if p.flag == DELAY_REQ then [PtpPacket(DELAY_RESP, p.serial, d.at)] else []
  }

  /** The answers to a run of deliveries, in order. */
  function Replies(ds: seq<Delivery>): seq<PtpPacket>
    decreases |ds|
  {
    if ds == [] then [] else Replies(ds[..|ds| - 1]) + Reply(ds[|ds| - 1])
  }

  /** The deliveries among a run that carry a DELAY_REQ. */
  function Requests(ds: seq<Delivery>): seq<Delivery>
    decreases |ds|
  {
    if ds == [] then []
    else
      var d := ds[|ds| - 1];
      Requests(ds[..|ds| - 1]) + (if Decode(d.frame).flag == DELAY_REQ then [d] else [])
  }

  /** Every DELAY_REQ is answered, duplicates included, one DELAY_RESP per
      request and in the same order, each addressed to the requester and
      carrying the time the request arrived. */
  lemma {:induction false} EveryRequestAnswered(ds: seq<Delivery>)
    ensures |Replies(ds)| == |Requests(ds)|
    ensures forall i :: 0 <= i < |Replies(ds)| ==>
              Replies(ds)[i] == PtpPacket(DELAY_RESP, Decode(Requests(ds)[i].frame).serial, Requests(ds)[i].at)
    decreases |ds|
  {
    if ds != [] {
      EveryRequestAnswered(ds[..|ds| - 1]);
    }
  }

  lemma {:induction false} RepliesAppend(ds: seq<Delivery>, es: seq<Delivery>)
    ensures Replies(ds + es) == Replies(ds) + Replies(es)
    decreases |es|
  {
    if es == [] {
      assert ds + es == ds;
    } else {
      var es' := es[..|es| - 1];
      assert (ds + es)[..|ds + es| - 1] == ds + es';
      RepliesAppend(ds, es');
    }
  }

  /** Whether a tick's deliveries include a DELAY_REQ: what sets
      `follower_has_synced` during that tick's sleep. */
  predicate HasRequest(inbox: seq<Delivery>)
  {
    exists i :: 0 <= i < |inbox| && Decode(inbox[i].frame).flag == DELAY_REQ
  }

  /** How far a ping phase got: whether it completed, and the next
      unconsumed tick. */
  datatype Span = Span(done: bool, next: nat)

  lemma RepliesNext(ds: seq<Delivery>, i: nat)
    requires i < |ds|
    ensures Replies(ds[..i + 1]) == Replies(ds[..i]) + Reply(ds[i])
  {
    assert ds[..i + 1][..i] == ds[..i];
  }

  /** A prefix one delivery longer holds a DELAY_REQ when the shorter one
      did or the added delivery is one. */
  lemma HasRequestNext(ds: seq<Delivery>, i: nat)
    requires i < |ds|
    ensures HasRequest(ds[..i + 1]) <==> HasRequest(ds[..i]) || Decode(ds[i].frame).flag == DELAY_REQ
  {
    var next := ds[..i + 1];
    if Decode(ds[i].frame).flag == DELAY_REQ {
      assert Decode(next[i].frame).flag == DELAY_REQ;
    }
    if HasRequest(ds[..i]) {
      var j :| 0 <= j < i && Decode(ds[..i][j].frame).flag == DELAY_REQ;
      assert Decode(next[j].frame).flag == DELAY_REQ;
    }
    if HasRequest(next) {
      var j :| 0 <= j < i + 1 && Decode(next[j].frame).flag == DELAY_REQ;
      if j < i {
        assert Decode(ds[..i][j].frame).flag == DELAY_REQ;
      }
    }
  }

  /** Where the master's round stands: whether it completed, the next
      unconsumed tick, and the frames sent. */
  datatype Progress = Progress(done: bool, next: nat, sent: seq<PtpPacket>)

  /** What one pass of the inner loop sends: a SYNC_PING to follower f with
      the raw clock, then the answers given while it sleeps. */
  function PingTick(f: u32, t: Tick): seq<PtpPacket>
  {
    [PtpPacket(SYNC_PING, f, t.clock)] + Replies(t.inbox)
  }

  /** What the inner loop sends over a run of passes. */
  function PingTicks(f: u32, ticks: seq<Tick>): seq<PtpPacket>
    decreases |ticks|
  {
    if ticks == [] then [] else PingTicks(f, ticks[..|ticks| - 1]) + PingTick(f, ticks[|ticks| - 1])
  }

  lemma {:induction false} PingTicksAppend(f: u32, a: seq<Tick>, b: seq<Tick>)
    ensures PingTicks(f, a + b) == PingTicks(f, a) + PingTicks(f, b)
    decreases |b|
  {
    if b == [] {
      assert a + b == a;
    } else {
      var b', t := b[..|b| - 1], b[|b| - 1];
      assert (a + b)[..|a + b| - 1] == a + b';
      assert (a + b)[|a + b| - 1] == t;
      PingTicksAppend(f, a, b');
      calc {
        PingTicks(f, a + b);
        PingTicks(f, a + b') + PingTick(f, t);
        PingTicks(f, a) + PingTicks(f, b') + PingTick(f, t);
        { assert PingTicks(f, b) == PingTicks(f, b') + PingTick(f, t); }
        PingTicks(f, a) + PingTicks(f, b);
      }
    }
  }

  /** `while (!follower_has_synced) { send SYNC_PING; sleep }` from tick k
      on: the phase ends after the first tick that delivers a DELAY_REQ,
      whichever serial it carries, or runs out of ticks unfinished. */
  function PingPhase(trace: seq<Tick>, k: nat): (r: Span)
    requires k <= |trace|
    ensures k <= r.next <= |trace|
    decreases |trace| - k
  {
    if k == |trace| then Span(false, k)
    else if HasRequest(trace[k].inbox) then Span(true, k + 1)
    else PingPhase(trace, k + 1)
  }

  /** The master's loop over its followers in the given order, one ping
      phase each, from tick k on; it stops at the first phase that runs out
      of ticks. */
  function MasterRound(followers: seq<u32>, trace: seq<Tick>, k: nat): (r: Progress)
    requires k <= |trace|
    ensures k <= r.next <= |trace|
    decreases |followers|
  {
    if followers == [] then Progress(true, k, [])
    else
      var phase := PingPhase(trace, k);
      var sent := PingTicks(followers[0], trace[k..phase.next]);
      if !phase.done then Progress(false, phase.next, sent)
      else
        var rest := MasterRound(followers[1..], trace, phase.next);
        Progress(rest.done, rest.next, sent + rest.sent)
  }

  /** A phase consumes ticks up to and including the first one that delivers
      a DELAY_REQ; if none does, it consumes the whole trace unfinished. */
  lemma {:induction false} PhaseEndsAtFirstRequest(trace: seq<Tick>, k: nat)
    requires k <= |trace|
    ensures var r := PingPhase(trace, k);
            (r.done ==> k < r.next && HasRequest(trace[r.next - 1].inbox)) &&
            (!r.done ==> r.next == |trace|) &&
            forall j :: k <= j < r.next && (r.done ==> j < r.next - 1) ==> !HasRequest(trace[j].inbox)
    decreases |trace| - k
  {
    if k < |trace| && !HasRequest(trace[k].inbox) {
      PhaseEndsAtFirstRequest(trace, k + 1);
    }
  }

  /** Ticks without a DELAY_REQ do not end a phase: starting the phase after
      them ends it at the same place. */
  lemma {:induction false} PhaseSkips(trace: seq<Tick>, k: nat, j: nat)
    requires k <= j <= |trace|
    requires forall i :: k <= i < j ==> !HasRequest(trace[i].inbox)
    ensures PingPhase(trace, k) == PingPhase(trace, j)
    decreases j - k
  {
    if k < j {
      PhaseSkips(trace, k + 1, j);
    }
  }

  /** The number of ticks that deliver a DELAY_REQ. */
  function RequestTicks(ticks: seq<Tick>): nat
    decreases |ticks|
  {
    if ticks == [] then 0
    else RequestTicks(ticks[..|ticks| - 1]) + (if HasRequest(ticks[|ticks| - 1].inbox) then 1 else 0)
  }

  lemma {:induction false} RequestTicksAppend(a: seq<Tick>, b: seq<Tick>)
    ensures RequestTicks(a + b) == RequestTicks(a) + RequestTicks(b)
    decreases |b|
  {
    if b == [] {
      assert a + b == a;
    } else {
      var b' := b[..|b| - 1];
      assert (a + b)[..|a + b| - 1] == a + b';
      RequestTicksAppend(a, b');
    }
  }

  lemma RequestTicksSingle(t: Tick)
    ensures RequestTicks([t]) == if HasRequest(t.inbox) then 1 else 0
  {
    assert [t][..0] == [];
  }

  /** A phase that completes sees exactly one tick with a DELAY_REQ. */
  lemma {:induction false} PhaseSeesOneRequest(trace: seq<Tick>, k: nat)
    requires k <= |trace|
    ensures var r := PingPhase(trace, k);
            RequestTicks(trace[k..r.next]) == if r.done then 1 else 0
    decreases |trace| - k
  {
    var r := PingPhase(trace, k);
    if k == |trace| {
      assert trace[k..r.next] == [];
    } else if HasRequest(trace[k].inbox) {
      assert trace[k..r.next] == [trace[k]];
      RequestTicksSingle(trace[k]);
    } else {
      PhaseSeesOneRequest(trace, k + 1);
      assert trace[k..r.next] == [trace[k]] + trace[k + 1..r.next];
      RequestTicksAppend([trace[k]], trace[k + 1..r.next]);
      RequestTicksSingle(trace[k]);
    }
  }

  /** The master computes its deadline only after `follower_has_synced` was
      observed once per follower: a completed round consumed exactly as many
      DELAY_REQ-bearing ticks as there are followers. */
  lemma {:induction false} RoundSeesOneRequestPerFollower(followers: seq<u32>, trace: seq<Tick>, k: nat)
    requires k <= |trace|
    ensures var r := MasterRound(followers, trace, k);
            r.done ==> RequestTicks(trace[k..r.next]) == |followers|
    decreases |followers|
  {
    var r := MasterRound(followers, trace, k);
    if followers != [] {
      var phase := PingPhase(trace, k);
      PhaseSeesOneRequest(trace, k);
      if phase.done {
        RoundSeesOneRequestPerFollower(followers[1..], trace, phase.next);
        assert trace[k..r.next] == trace[k..phase.next] + trace[phase.next..r.next];
        RequestTicksAppend(trace[k..phase.next], trace[phase.next..r.next]);
      }
    } else {
      assert trace[k..r.next] == [];
    }
  }

  /** A round whose first phase completes is that phase followed by the
      round of the remaining followers. */
  lemma MasterRoundUnfold(followers: seq<u32>, trace: seq<Tick>, k: nat)
    requires k <= |trace| && followers != [] && PingPhase(trace, k).done
    ensures var phase := PingPhase(trace, k);
            var rest := MasterRound(followers[1..], trace, phase.next);
            MasterRound(followers, trace, k) ==
              Progress(rest.done, rest.next, PingTicks(followers[0], trace[k..phase.next]) + rest.sent)
  {
  }

  lemma PacketsAssoc(a: seq<PtpPacket>, b: seq<PtpPacket>, c: seq<PtpPacket>)
    ensures a + (b + c) == (a + b) + c
  {
  }

  /** A round with one follower is that follower's phase. */
  lemma MasterRoundSingle(f: u32, trace: seq<Tick>, k: nat)
    requires k <= |trace|
    ensures var phase := PingPhase(trace, k);
            MasterRound([f], trace, k) == Progress(phase.done, phase.next, PingTicks(f, trace[k..phase.next]))
  {
    var phase := PingPhase(trace, k);
    var sent := PingTicks(f, trace[k..phase.next]);
    assert [f][1..] == [];
    assert sent + [] == sent;
  }

  /** The step of `MasterRoundSnoc`: if appending f to the followers after
      the first one runs one more phase, so does appending it to all. */
  lemma MasterRoundCombine(followers: seq<u32>, f: u32, trace: seq<Tick>, k: nat)
    requires k <= |trace| && followers != [] && MasterRound(followers, trace, k).done
    requires var phase := PingPhase(trace, k);
             phase.done &&
             var rest := MasterRound(followers[1..], trace, phase.next);
             var last := PingPhase(trace, rest.next);
             MasterRound(followers[1..] + [f], trace, phase.next) ==
               Progress(last.done, last.next, rest.sent + PingTicks(f, trace[rest.next..last.next]))
    ensures var r := MasterRound(followers, trace, k);
            var last := PingPhase(trace, r.next);
            MasterRound(followers + [f], trace, k) ==
              Progress(last.done, last.next, r.sent + PingTicks(f, trace[r.next..last.next]))
  {
    var fs := followers + [f];
    var phase := PingPhase(trace, k);
    var head := PingTicks(followers[0], trace[k..phase.next]);
    var rest := MasterRound(followers[1..], trace, phase.next);
    var last := PingPhase(trace, rest.next);
    var tail := PingTicks(f, trace[rest.next..last.next]);
    assert MasterRound(followers, trace, k) == Progress(rest.done, rest.next, head + rest.sent) by {
      MasterRoundUnfold(followers, trace, k);
    }
    assert MasterRound(fs, trace, k) == Progress(last.done, last.next, head + (rest.sent + tail)) by {
      assert fs[0] == followers[0] && fs[1..] == followers[1..] + [f];
      MasterRoundUnfold(fs, trace, k);
    }
    PacketsAssoc(head, rest.sent, tail);
  }

  /** Adding a follower at the end of a completed round runs one more phase
      from where the round stopped. */
  lemma {:induction false} MasterRoundSnoc(followers: seq<u32>, f: u32, trace: seq<Tick>, k: nat)
    requires k <= |trace|
    requires MasterRound(followers, trace, k).done
    ensures var r := MasterRound(followers, trace, k);
            var last := PingPhase(trace, r.next);
            MasterRound(followers + [f], trace, k) ==
              Progress(last.done, last.next, r.sent + PingTicks(f, trace[r.next..last.next]))
    decreases |followers|
  {
    if followers == [] {
      assert followers + [f] == [f];
      MasterRoundSingle(f, trace, k);
    } else {
      var phase := PingPhase(trace, k);
      assert phase.done;
      MasterRoundSnoc(followers[1..], f, trace, phase.next);
      MasterRoundCombine(followers, f, trace, k);
    }
  }

  /** Once a phase runs out of ticks, later followers add nothing. */
  lemma {:induction false} MasterRoundStalled(followers: seq<u32>, more: seq<u32>, trace: seq<Tick>, k: nat)
    requires k <= |trace|
    requires !MasterRound(followers, trace, k).done
    ensures MasterRound(followers + more, trace, k) == MasterRound(followers, trace, k)
    decreases |followers|
  {
    assert followers != [];
    assert (followers + more)[1..] == followers[1..] + more;
    var phase := PingPhase(trace, k);
    if phase.done {
      MasterRoundStalled(followers[1..], more, trace, phase.next);
    }
  }

  /** A packet the master may send while pinging: a SYNC_PING addressed to
      one of `targets`, or a DELAY_RESP. */
  predicate PingOrReply(p: PtpPacket, targets: seq<u32>)
  {
    (p.flag == SYNC_PING && p.serial in targets) || p.flag == DELAY_RESP
  }

  lemma AllAppend(a: seq<PtpPacket>, b: seq<PtpPacket>, targets: seq<u32>)
    requires forall i :: 0 <= i < |a| ==> PingOrReply(a[i], targets)
    requires forall i :: 0 <= i < |b| ==> PingOrReply(b[i], targets)
    ensures forall i :: 0 <= i < |a + b| ==> PingOrReply((a + b)[i], targets)
  {
    forall i | 0 <= i < |a + b| ensures PingOrReply((a + b)[i], targets) {
      if i >= |a| {
        assert (a + b)[i] == b[i - |a|];
      }
    }
  }

  /** Everything sent while pinging follower f is a SYNC_PING to f or a
      DELAY_RESP. */
  lemma {:induction false} PingTicksOnly(f: u32, targets: seq<u32>, ticks: seq<Tick>)
    requires f in targets
    ensures forall i :: 0 <= i < |PingTicks(f, ticks)| ==> PingOrReply(PingTicks(f, ticks)[i], targets)
    decreases |ticks|
  {
    if ticks != [] {
      var t := ticks[|ticks| - 1];
      PingTicksOnly(f, targets, ticks[..|ticks| - 1]);
      EveryRequestAnswered(t.inbox);
      AllAppend([PtpPacket(SYNC_PING, f, t.clock)], Replies(t.inbox), targets);
      AllAppend(PingTicks(f, ticks[..|ticks| - 1]), PingTick(f, t), targets);
    }
  }

  /** Everything the master sends during a round is a SYNC_PING addressed to
      one of its followers or a DELAY_RESP; in particular it contains no
      SET_UNBLOCK_TIME, which is sent once, after the round. */
  lemma {:induction false} RoundSendsPingsAndReplies(followers: seq<u32>, trace: seq<Tick>, k: nat)
    requires k <= |trace|
    ensures forall i :: 0 <= i < |MasterRound(followers, trace, k).sent| ==>
              PingOrReply(MasterRound(followers, trace, k).sent[i], followers)
    decreases |followers|
  {
    if followers != [] {
      var f := followers[0];
      var phase := PingPhase(trace, k);
      PingTicksOnly(f, followers, trace[k..phase.next]);
      if phase.done {
        RoundSendsPingsAndReplies(followers[1..], trace, phase.next);
        var rest := MasterRound(followers[1..], trace, phase.next);
        forall i | 0 <= i < |rest.sent| ensures PingOrReply(rest.sent[i], followers) {
          assert PingOrReply(rest.sent[i], followers[1..]);
          assert forall x :: x in followers[1..] ==> x in followers;
        }
        AllAppend(PingTicks(f, trace[k..phase.next]), rest.sent, followers);
      }
    }
  }
}
