/** Master election: the bookkeeping `master_selection` keeps while `Init`
    broadcasts MASTER_SELECTION packets, and the role decision it leads to. */
module Election {
  import opened Timestamps
  import opened Packet

  /** The election globals: the foreign serials heard so far
      (`discovered_serials`), the running minimum (`lowest_serial`) and the
      counter `num_of_serials_received`. */
  datatype Ballot = Ballot(discovered: set<u32>, lowest: u32, received: nat)

  /** The invariant the election keeps for a node with serial `own`: the
      node's own serial is never recorded, the counter is the number of
      serials recorded, and `lowest` is the minimum of own and discovered. */
  ghost predicate Consistent(b: Ballot, own: u32)
  {
    && own !in b.discovered
    && b.received == |b.discovered|
    && (b.lowest == own || b.lowest in b.discovered)
    && b.lowest <= own
    && forall x :: x in b.discovered ==> b.lowest <= x
  }

  /** `Init` starts `lowest_serial` at the node's own serial with nothing heard. */
  function Start(own: u32): (b: Ballot)
    ensures Consistent(b, own)
    ensures b.discovered == {}
  {
    Ballot({}, own, 0)
  }

  /** `master_selection` on one decoded packet. A packet carrying the node's
      own serial, or any flag other than MASTER_SELECTION, changes nothing;
      otherwise the serial joins the discovered set and the invariant still
      holds, so `lowest` is the minimum of the grown set. */
  function Handle(b: Ballot, own: u32, p: PtpPacket): (r: Ballot)
    ensures p.serial == own || p.flag != MASTER_SELECTION ==> r == b
    ensures p.serial != own && p.flag == MASTER_SELECTION ==> r.discovered == b.discovered + {p.serial}
    ensures Consistent(b, own) ==> Consistent(r, own)
  {
    if p.serial == own then b
    else if p.flag == MASTER_SELECTION then
      var discovered := b.discovered + {p.serial};
      Ballot(discovered, if p.serial < b.lowest then p.serial else b.lowest, |discovered|)
    else b
  }

  /** The handler run on a sequence of packets, first to last. */
  function HandleAll(b: Ballot, own: u32, ps: seq<PtpPacket>): Ballot
    decreases |ps|
  {
    if ps == [] then b else Handle(HandleAll(b, own, ps[..|ps| - 1]), own, ps[|ps| - 1])
  }

  /** The foreign serials announced in MASTER_SELECTION packets. */
  function Heard(ps: seq<PtpPacket>, own: u32): set<u32>
  {
    set i | 0 <= i < |ps| && ps[i].flag == MASTER_SELECTION && ps[i].serial != own :: ps[i].serial
  }

  /** Handling the same packet twice has the effect of handling it once. */
  lemma HandleIdempotent(b: Ballot, own: u32, p: PtpPacket)
    requires Consistent(b, own)
    ensures Handle(Handle(b, own, p), own, p) == Handle(b, own, p)
  {
  }

  /** The order in which two packets arrive does not matter. */
  lemma HandleCommutes(b: Ballot, own: u32, p: PtpPacket, q: PtpPacket)
    requires Consistent(b, own)
    ensures Handle(Handle(b, own, p), own, q) == Handle(Handle(b, own, q), own, p)
  {
    if p.serial != own && p.flag == MASTER_SELECTION && q.serial != own && q.flag == MASTER_SELECTION {
      var both := b.discovered + {p.serial} + {q.serial};
      assert both == b.discovered + {q.serial} + {p.serial};
      var lowest := if p.serial < b.lowest && p.serial <= q.serial then p.serial
                    else if q.serial < b.lowest then q.serial else b.lowest;
      var bp := Handle(b, own, p);
      assert bp.discovered == b.discovered + {p.serial};
      var bq := Handle(b, own, q);
      assert bq.discovered == b.discovered + {q.serial};
      assert Handle(bp, own, q) == Ballot(both, lowest, |both|);
      assert Handle(bq, own, p) == Ballot(both, lowest, |both|);
    }
  }

  lemma {:induction false} HandleAllAppend(b: Ballot, own: u32, ps: seq<PtpPacket>, qs: seq<PtpPacket>)
    ensures HandleAll(b, own, ps + qs) == HandleAll(HandleAll(b, own, ps), own, qs)
    decreases |qs|
  {
    if qs == [] {
      assert ps + qs == ps;
    } else {
      var qs' := qs[..|qs| - 1];
      assert (ps + qs)[..|ps + qs| - 1] == ps + qs';
      HandleAllAppend(b, own, ps, qs');
    }
  }

  /** Whatever packets arrive, starting from `Init`'s ballot the discovered
      set is exactly the set of foreign serials announced, the counter is its
      size and `lowest` is the minimum of own and those serials. */
  lemma {:induction false} HandleAllHeard(own: u32, ps: seq<PtpPacket>)
    ensures HandleAll(Start(own), own, ps).discovered == Heard(ps, own)
    ensures Consistent(HandleAll(Start(own), own, ps), own)
    decreases |ps|
  {
    if ps != [] {
      var ps' := ps[..|ps| - 1];
      HandleAllHeard(own, ps');
      var p := ps[|ps| - 1];
      assert Heard(ps, own) == Heard(ps', own) + (if p.flag == MASTER_SELECTION && p.serial != own then {p.serial} else {}) by {
        forall x | x in Heard(ps, own)
          ensures x in Heard(ps', own) || (p.flag == MASTER_SELECTION && p.serial != own && x == p.serial)
        {
          var i :| 0 <= i < |ps| && ps[i].flag == MASTER_SELECTION && ps[i].serial != own && ps[i].serial == x;
          if i < |ps| - 1 {
            assert ps'[i] == ps[i];
          }
        }
        forall x | x in Heard(ps', own) ensures x in Heard(ps, own) {
          var i :| 0 <= i < |ps'| && ps'[i].flag == MASTER_SELECTION && ps'[i].serial != own && ps'[i].serial == x;
          assert ps[i] == ps'[i];
        }
        if p.flag == MASTER_SELECTION && p.serial != own {
          assert ps[|ps| - 1] == p;
          assert p.serial in Heard(ps, own);
        }
      }
    }
  }

  /** The decision `is_master = lowest_serial == serial_number`: under the
      invariant it holds exactly when the node's serial is below every
      serial it discovered. */
  lemma MasterDecision(b: Ballot, own: u32)
    requires Consistent(b, own)
    ensures b.lowest == own <==> forall x :: x in b.discovered ==> own < x
  {
  }

  /** m is the least serial of s. */
  predicate IsLeast(m: u32, s: set<u32>)
  {
    m in s && forall x :: x in s ==> m <= x
  }

  /** Every non-empty set of serials has a least element; returns it. */
  lemma {:induction false} LeastOf(s: set<u32>) returns (m: u32)
    requires s != {}
    ensures m in s && forall x :: x in s ==> m <= x
    decreases |s|
  {
    var y :| y in s;
    var rest := s - {y};
    if rest == {} {
      assert s == {y};
      m := y;
    } else {
      var least := LeastOf(rest);
      m := if y < least then y else least;
      forall x | x in s ensures m <= x {
        if x != y {
          assert x in rest;
        }
      }
    }
  }

  /** A node that has discovered every other member of its group becomes
      master exactly when its serial is the least in the group. */
  lemma {:induction false} MasterIffLeast(group: set<u32>, b: Ballot, own: u32)
    requires own in group
    requires Consistent(b, own) && b.discovered == group - {own}
    ensures b.lowest == own <==> forall x :: x in group ==> own <= x
  {
    MasterDecision(b, own);
    if forall x :: x in group ==> own <= x {
      forall x | x in b.discovered ensures own < x {
        assert x in group && x != own;
      }
    }
    if b.lowest == own {
      forall x | x in group ensures own <= x {
        if x != own {
          assert x in b.discovered;
        }
      }
    }
  }

  /** Election correctness for a group of distinct serials in which every
      node has discovered every other node: exactly one node ends with
      `lowest_serial == serial_number`, and it holds the smallest serial. */
  lemma {:induction false} ExactlyOneMaster(group: set<u32>, ballots: map<u32, Ballot>)
    requires group != {}
    requires forall s :: s in group ==> s in ballots && Consistent(ballots[s], s) && ballots[s].discovered == group - {s}
    ensures exists m :: m in group && ballots[m].lowest == m
    ensures forall m :: m in group && ballots[m].lowest == m ==> forall x :: x in group ==> m <= x
    ensures forall m, n :: m in group && n in group && ballots[m].lowest == m && ballots[n].lowest == n ==> m == n
  {
    forall s | s in group
      ensures ballots[s].lowest == s <==> forall x :: x in group ==> s <= x
    {
      MasterIffLeast(group, ballots[s], s);
    }
    var m := LeastOf(group);
    assert ballots[m].lowest == m;
  }

  lemma LeastExists(s: set<u32>)
    requires s != {}
    ensures exists m: u32 :: IsLeast(m, s)
  {
    var m := LeastOf(s);
    assert IsLeast(m, s);
  }

  /** A set of serials listed in increasing order: the order in which a
      range-for over a std::set visits them. */
  ghost function Ascending(s: set<u32>): (xs: seq<u32>)
    decreases |s|
  {
    if s == {} then []
    else
      LeastExists(s);
      var m: u32 :| IsLeast(m, s);
      var rest := s - {m};
      assert |rest| == |s| - 1;
      [m] + Ascending(rest)
  }

  /** The listing starts with the least element, whichever way it was found. */
  lemma AscendingStep(s: set<u32>, m: u32)
    requires IsLeast(m, s)
    ensures Ascending(s) == [m] + Ascending(s - {m})
  {
    LeastExists(s);
    var m': u32 :| IsLeast(m', s);
    assert m' <= m && m <= m';
  }

  /** The listing holds every serial of the set exactly once, each smaller
      than the next. */
  lemma {:induction false} AscendingSorted(s: set<u32>)
    ensures |Ascending(s)| == |s|
    ensures forall x :: x in Ascending(s) <==> x in s
    ensures forall i, j :: 0 <= i < j < |Ascending(s)| ==> Ascending(s)[i] < Ascending(s)[j]
    decreases |s|
  {
    if s != {} {
      var m := LeastOf(s);
      AscendingStep(s, m);
      var rest := s - {m};
      AscendingSorted(rest);
      var xs := Ascending(s);
      assert xs == [m] + Ascending(rest);
      forall i, j | 0 <= i < j < |xs| ensures xs[i] < xs[j] {
        if i == 0 {
          assert xs[j] == Ascending(rest)[j - 1];
          assert xs[j] in rest;
        } else {
          assert xs[i] == Ascending(rest)[i - 1] && xs[j] == Ascending(rest)[j - 1];
        }
      }
    }
  }
}
