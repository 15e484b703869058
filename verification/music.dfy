/** The score pipeline of the song generator: MIDI-derived events are
    cleaned of repeated rests, cut into segments at long notes and rests,
    merged into segments of a minimum length, and stored once per distinct
    segment in an event table indexed by (start, length) spans. */
module Music {

  /** A `(period, duration, velocity)` triple; a period of 0 is a rest.
      Python integers, so unbounded. */
  datatype Event = Event(period: int, duration: int, velocity: int)

  predicate IsRest(e: Event)
  {
    e.period == 0
  }

  /** The rest `(0, d, 0)` that stands for a run of rests of total length d. */
  function Rest(d: int): Event
  {
    Event(0, d, 0)
  }

  /** The sum of the durations of some events. */
  function Total(es: seq<Event>): int
    decreases |es|
  {
    if es == [] then 0 else Total(es[..|es| - 1]) + es[|es| - 1].duration
  }

  lemma {:induction false} TotalAppend(a: seq<Event>, b: seq<Event>)
    ensures Total(a + b) == Total(a) + Total(b)
    decreases |b|
  {
    if b == [] {
      assert a + b == a;
    } else {
      assert (a + b)[..|a + b| - 1] == a + b[..|b| - 1];
      TotalAppend(a, b[..|b| - 1]);
    }
  }

  /** The events that are not rests, in order. */
  function Notes(es: seq<Event>): seq<Event>
    decreases |es|
  {
    if es == [] then []
    else Notes(es[..|es| - 1]) + (if IsRest(es[|es| - 1]) then [] else [es[|es| - 1]])
  }

  /** Segments laid end to end. */
  function Flatten(ss: seq<seq<Event>>): seq<Event>
    decreases |ss|
  {
    if ss == [] then [] else Flatten(ss[..|ss| - 1]) + ss[|ss| - 1]
  }

  /** Concatenation of event sequences is associative. */
  lemma EventsAssoc(a: seq<Event>, b: seq<Event>, c: seq<Event>)
    ensures a + (b + c) == (a + b) + c
  {
  }

  lemma {:induction false} FlattenAppend(a: seq<seq<Event>>, b: seq<seq<Event>>)
    ensures Flatten(a + b) == Flatten(a) + Flatten(b)
    decreases |b|
  {
    if b == [] {
      assert a + b == a;
    } else {
      assert (a + b)[..|a + b| - 1] == a + b[..|b| - 1];
      FlattenAppend(a, b[..|b| - 1]);
      EventsAssoc(Flatten(a), Flatten(b[..|b| - 1]), b[|b| - 1]);
    }
  }

  lemma FlattenSnoc(ss: seq<seq<Event>>, s: seq<Event>)
    ensures Flatten(ss + [s]) == Flatten(ss) + s
  {
    assert (ss + [s])[..|ss|] == ss;
  }

  lemma FlattenNext(ss: seq<seq<Event>>, i: nat)
    requires i < |ss|
    ensures Flatten(ss[..i + 1]) == Flatten(ss[..i]) + ss[i]
  {
    assert ss[..i + 1][..i] == ss[..i];
  }

  // ---------------------------------------------------------------------
  // deduplicate_rests

  /** The state of `deduplicate_rests` after a prefix of the input: what it
      has yielded and `current_rest_duration`. */
  function DedupScan(events: seq<Event>): (r: (seq<Event>, int))
    decreases |events|
  {
    if events == [] then ([], 0)
    else
      var (out, acc) := DedupScan(events[..|events| - 1]);
      DedupStep(out, acc, events[|events| - 1])
  }

  /** One event through `deduplicate_rests`: a rest adds to the pending
      rest; a note is yielded, after the pending rest when that is positive. */
  function DedupStep(out: seq<Event>, acc: int, e: Event): (r: (seq<Event>, int))
  {
    if IsRest(e) then (out, acc + e.duration)
    else if acc > 0 then (out + [Rest(acc), e], 0)
    else (out + [e], acc)
  }

  /** Everything `deduplicate_rests` yields: the scan's output, then the
      pending rest if its total is positive. */
  function Dedup(events: seq<Event>): seq<Event>
  {
    var (out, acc) := DedupScan(events);
    if acc > 0 then out + [Rest(acc)] else out
  }

  /** No two rests are next to each other. */
  predicate NoAdjacentRests(es: seq<Event>)
  {
    forall i :: 0 < i < |es| ==> !(IsRest(es[i - 1]) && IsRest(es[i]))
  }

  /** Every rest is a `(0, d, 0)` with d > 0. */
  predicate RestsPositive(es: seq<Event>)
  {
    forall i :: 0 <= i < |es| && IsRest(es[i]) ==> es[i] == Rest(es[i].duration) && es[i].duration > 0
  }

  /** A yielded sequence in the shape `deduplicate_rests` keeps: no two
      rests next to each other, every rest a positive `(0, d, 0)`, and a
      note last. */
  predicate DedupShaped(out: seq<Event>)
  {
    NoAdjacentRests(out) && RestsPositive(out) && (out != [] ==> !IsRest(out[|out| - 1]))
  }

  /** The step from (out, acc) to r keeps the shape, passes a note on to the
      output, and moves a rest's duration into the pending rest. */
  predicate StepKeeps(out: seq<Event>, acc: int, e: Event, r: (seq<Event>, int))
  {
    DedupShaped(r.0) &&
    Notes(r.0) == Notes(out) + (if IsRest(e) then [] else [e]) &&
    Total(r.0) + r.1 == Total(out) + acc + e.duration
  }

  /** Every step of `deduplicate_rests` keeps the shape, its notes and its
      total. */
  lemma DedupStepShape(out: seq<Event>, acc: int, e: Event)
    requires DedupShaped(out)
    ensures StepKeeps(out, acc, e, DedupStep(out, acc, e))
  {
    if !IsRest(e) {
      if acc > 0 {
        FlushStep(out, acc, e);
      } else {
        EventSnoc(out, e);
        ShapeSnoc(out, e);
        assert DedupStep(out, acc, e) == (out + [e], acc);
      }
    }
  }

  /** A note after a positive pending rest: the rest, then the note. */
  lemma FlushStep(out: seq<Event>, acc: int, e: Event)
    requires DedupShaped(out) && !IsRest(e) && acc > 0
    ensures StepKeeps(out, acc, e, (out + [Rest(acc), e], 0))
  {
    var withRest := out + [Rest(acc)];
    EventSnoc(out, Rest(acc));
    ShapeSnoc(out, Rest(acc));
    assert NoAdjacentRests(withRest) && RestsPositive(withRest);
    assert Notes(withRest) == Notes(out) && Total(withRest) == Total(out) + acc;
    EventSnoc(withRest, e);
    ShapeSnoc(withRest, e);
    assert withRest + [e] == out + [Rest(acc), e];
  }

  /** Appending one event adds its duration to the total, and appends it to
      the notes when it is a note. */
  lemma EventSnoc(es: seq<Event>, x: Event)
    ensures Total(es + [x]) == Total(es) + x.duration
    ensures Notes(es + [x]) == Notes(es) + (if IsRest(x) then [] else [x])
  {
    assert (es + [x])[..|es|] == es;
  }

  /** Appending a note, or a positive rest after a note, keeps rests apart
      and positive. */
  lemma ShapeSnoc(es: seq<Event>, x: Event)
    requires NoAdjacentRests(es) && RestsPositive(es)
    requires IsRest(x) ==> x == Rest(x.duration) && x.duration > 0
    requires IsRest(x) && es != [] ==> !IsRest(es[|es| - 1])
    ensures NoAdjacentRests(es + [x]) && RestsPositive(es + [x])
  {
    var s := es + [x];
    forall i | 0 < i < |s| ensures !(IsRest(s[i - 1]) && IsRest(s[i])) {
      assert s[i - 1] == es[i - 1];
      if i < |es| {
        assert s[i] == es[i];
      }
    }
    forall i | 0 <= i < |s| && IsRest(s[i]) ensures s[i] == Rest(s[i].duration) && s[i].duration > 0 {
      if i < |es| {
        assert s[i] == es[i];
      }
    }
  }

  /** The scan's output so far is shaped, holds the input's notes, and with
      the pending rest makes up the input's total duration. */
  lemma {:induction false} DedupScanShape(events: seq<Event>)
    ensures var (out, acc) := DedupScan(events);
            DedupShaped(out) && Notes(out) == Notes(events) && Total(out) + acc == Total(events)
    decreases |events|
  {
    if events != [] {
      var init := events[..|events| - 1];
      var e := events[|events| - 1];
      DedupScanShape(init);
      var (out, acc) := DedupScan(init);
      DedupStepShape(out, acc, e);
    }
  }

  /** No rest has a negative duration, as holds for every score read from
      MIDI. */
  predicate NoNegativeRest(events: seq<Event>)
  {
    forall i :: 0 <= i < |events| && IsRest(events[i]) ==> events[i].duration >= 0
  }

  /** `deduplicate_rests` keeps every note, in order; leaves no two rests
      next to each other; yields every rest as a positive `(0, d, 0)`; and,
      when no rest has a negative duration, keeps the total duration. */
  lemma {:induction false} DedupSpec(events: seq<Event>)
    ensures var out := Dedup(events);
            Notes(out) == Notes(events) && NoAdjacentRests(out) && RestsPositive(out)
    ensures NoNegativeRest(events) ==> Total(Dedup(events)) == Total(events)
  {
    DedupScanShape(events);
    var (out, acc) := DedupScan(events);
    if acc > 0 {
      assert (out + [Rest(acc)])[..|out|] == out;
      assert Notes(out + [Rest(acc)]) == Notes(out);
    }
    if NoNegativeRest(events) {
      PendingNonNegative(events);
    }
  }

  /** Dropping the last event keeps the absence of negative rests. */
  lemma NoNegativeRestInit(events: seq<Event>)
    requires events != [] && NoNegativeRest(events)
    ensures NoNegativeRest(events[..|events| - 1])
  {
    var init := events[..|events| - 1];
    forall i | 0 <= i < |init| && IsRest(init[i]) ensures init[i].duration >= 0 {
      assert init[i] == events[i];
    }
  }

  /** With no negative rest, the pending rest is never negative. */
  lemma {:induction false} PendingNonNegative(events: seq<Event>)
    requires NoNegativeRest(events)
    ensures DedupScan(events).1 >= 0
    decreases |events|
  {
    if events != [] {
      NoNegativeRestInit(events);
      PendingNonNegative(events[..|events| - 1]);
    }
  }

  /** The length of the maximal run of rests that ends a sequence. */
  function TrailingRun(es: seq<Event>): (k: nat)
    ensures k <= |es|
    ensures k < |es| ==> !IsRest(es[|es| - k - 1])
    decreases |es|
  {
    if es == [] || !IsRest(es[|es| - 1]) then 0 else TrailingRun(es[..|es| - 1]) + 1
  }

  /** What a run of rests of total duration d becomes: one rest `(0, d, 0)`
      when d is positive, nothing otherwise. */
  function RunRest(d: int): seq<Event>
  {
    if d > 0 then [Rest(d)] else []
  }

  /** The reference reading of `deduplicate_rests`, run by run: every note
      stays in its place, and every maximal run of rests between notes (and
      at either end) is replaced by `RunRest` of its total duration. */
  function Compact(es: seq<Event>): seq<Event>
    decreases |es|, 1
  {
    var k := TrailingRun(es);
    CompactBody(es[..|es| - k]) + RunRest(Total(es[|es| - k..]))
  }

  /** `Compact` of a sequence that is empty or ends with a note: the
      compaction of what precedes that note, then the note. */
  function CompactBody(body: seq<Event>): seq<Event>
    decreases |body|, 0
  {
    if body == [] then [] else Compact(body[..|body| - 1]) + [body[|body| - 1]]
  }

  /** A sequence that ends with a note, or is empty, compacts to its body. */
  lemma CompactNoRun(es: seq<Event>)
    requires TrailingRun(es) == 0
    ensures Compact(es) == CompactBody(es)
  {
    assert es[..|es|] == es;
    assert es[|es|..] == [];
  }

  /** Compacting splits into the part up to the last note and the final run. */
  lemma CompactSplit(es: seq<Event>)
    ensures var k := TrailingRun(es);
            Compact(es) == Compact(es[..|es| - k]) + RunRest(Total(es[|es| - k..]))
  {
    BodyEndsWithNote(es);
    CompactNoRun(es[..|es| - TrailingRun(es)]);
  }

  /** What precedes the final run of rests is empty or ends with a note. */
  lemma BodyEndsWithNote(es: seq<Event>)
    ensures TrailingRun(es[..|es| - TrailingRun(es)]) == 0
  {
    var k := TrailingRun(es);
    var body := es[..|es| - k];
    if body != [] {
      assert body[|body| - 1] == es[|es| - k - 1];
    }
  }

  /** After `events`, `deduplicate_rests` has yielded the compaction of
      everything up to the last note, and its pending rest is the total of
      the final run of rests. */
  predicate ScanCompacted(events: seq<Event>)
  {
    var k := TrailingRun(events);
    DedupScan(events) == (Compact(events[..|events| - k]), Total(events[|events| - k..]))
  }

  /** A rest lengthens the final run and adds to the pending rest. */
  lemma RestExtendsRun(events: seq<Event>)
    requires events != [] && IsRest(events[|events| - 1])
    requires ScanCompacted(events[..|events| - 1])
    ensures ScanCompacted(events)
  {
    var init := events[..|events| - 1];
    var k0 := TrailingRun(init);
    assert TrailingRun(events) == k0 + 1;
    assert events[..|events| - (k0 + 1)] == init[..|init| - k0];
    var run := events[|events| - (k0 + 1)..];
    assert run[..|run| - 1] == init[|init| - k0..];
  }

  /** A note closes the final run: its rest, if positive, then the note. */
  lemma NoteClosesRun(events: seq<Event>)
    requires events != [] && !IsRest(events[|events| - 1])
    requires ScanCompacted(events[..|events| - 1]) && DedupScan(events[..|events| - 1]).1 >= 0
    ensures ScanCompacted(events)
  {
    var init := events[..|events| - 1];
    var e := events[|events| - 1];
    var (out, acc) := DedupScan(init);
    assert TrailingRun(events) == 0;
    CompactNoRun(events);
    assert Compact(events) == Compact(init) + [e];
    CompactSplit(init);
    assert Compact(init) == out + RunRest(acc);
    assert DedupScan(events) == DedupStep(out, acc, e);
    if acc > 0 {
      assert out + [Rest(acc)] + [e] == out + [Rest(acc), e];
    }
    assert events[..|events|] == events;
    assert events[|events|..] == [];
    assert DedupScan(events).0 == Compact(events);
    assert DedupScan(events).1 == 0;
  }

  /** With no negative rest, the scan stays compacted after every prefix. */
  lemma {:induction false} ScanCompacts(events: seq<Event>)
    requires NoNegativeRest(events)
    ensures ScanCompacted(events)
    decreases |events|
  {
    if events == [] {
      CompactNoRun(events);
    } else {
      var init := events[..|events| - 1];
      NoNegativeRestInit(events);
      ScanCompacts(init);
      if IsRest(events[|events| - 1]) {
        RestExtendsRun(events);
      } else {
        PendingNonNegative(init);
        NoteClosesRun(events);
      }
    }
  }

  /** With no negative rest, `deduplicate_rests` yields exactly the
      run-by-run compaction: notes in place, each maximal run of rests
      merged into one `(0, sum, 0)`, and runs summing to zero dropped. */
  lemma DedupCompacts(events: seq<Event>)
    requires NoNegativeRest(events)
    ensures Dedup(events) == Compact(events)
  {
    ScanCompacts(events);
    CompactSplit(events);
  }

  /** The generator's own example. */
  lemma DedupExample()
    ensures Dedup([Event(1, 2, 3), Event(0, 2, 0), Event(0, 3, 0)]) == [Event(1, 2, 3), Event(0, 5, 0)]
  {
    var es := [Event(1, 2, 3), Event(0, 2, 0), Event(0, 3, 0)];
    assert es[..2] == [Event(1, 2, 3), Event(0, 2, 0)];
    assert es[..2][..1] == [Event(1, 2, 3)];
    assert es[..2][..1][..0] == [];
    assert [Event(1, 2, 3)][..0] == [];
    assert [] + [Event(1, 2, 3)] == [Event(1, 2, 3)];
    assert DedupScan([Event(1, 2, 3)]) == ([Event(1, 2, 3)], 0);
    assert DedupScan(es[..2]) == ([Event(1, 2, 3)], 2);
    assert DedupScan(es) == ([Event(1, 2, 3)], 5);
  }

  /** `deduplicate_rests`, its yields collected in order. */
  method DeduplicateRests(events: seq<Event>) returns (out: seq<Event>)
    ensures out == Dedup(events)
  {
    out := [];
    var currentRestDuration := 0;
    for i := 0 to |events|
      invariant (out, currentRestDuration) == DedupScan(events[..i])
    {
      assert events[..i + 1][..i] == events[..i];
      ghost var next := DedupStep(out, currentRestDuration, events[i]);
      assert next == DedupScan(events[..i + 1]);
      var event := events[i];
      var period := event.period;
      var duration := event.duration;
      if period == 0 {
        currentRestDuration := currentRestDuration + duration;
      } else {
        if currentRestDuration > 0 {
          ghost var before := out;
          ghost var acc := currentRestDuration;
          out := out + [Event(0, currentRestDuration, 0)];
          currentRestDuration := 0;
          assert out + [event] == before + [Rest(acc), event];
        }
        out := out + [event];
      }
    }
    assert events[..|events|] == events;
    if currentRestDuration > 0 {
      out := out + [Event(0, currentRestDuration, 0)];
    }
  }

  // ---------------------------------------------------------------------
  // segment_on_breaks

  /** Default thresholds of `segment_on_breaks`. */
  const MIN_DURATION: int := 100
  const MIN_REST_DURATION: int := 50

  /** An event that closes a segment: a note of at least `minDuration` or a
      rest of at least `minRestDuration`. */
  predicate IsBreak(e: Event, minDuration: int, minRestDuration: int)
  {
    (!IsRest(e) && e.duration >= minDuration) || (IsRest(e) && e.duration >= minRestDuration)
  }

  /** No event before the last one of a segment is a break. */
  predicate NoEarlyBreak(segment: seq<Event>, minDuration: int, minRestDuration: int)
  {
    forall j :: 0 <= j < |segment| - 1 ==> !IsBreak(segment[j], minDuration, minRestDuration)
  }

  /** A segment closed by a break: not empty, broken at its last event and
      nowhere before. */
  predicate Closed(segment: seq<Event>, minDuration: int, minRestDuration: int)
  {
    segment != [] && IsBreak(segment[|segment| - 1], minDuration, minRestDuration) &&
    NoEarlyBreak(segment, minDuration, minRestDuration)
  }

  /** The state of `segment_on_breaks` after a prefix of the input: the
      segments it has yielded and the open `segment`. */
  function SegmentScan(events: seq<Event>, minDuration: int, minRestDuration: int): (r: (seq<seq<Event>>, seq<Event>))
    decreases |events|
  {
    if events == [] then ([], [])
    else
      var (done, open) := SegmentScan(events[..|events| - 1], minDuration, minRestDuration);
      var e := events[|events| - 1];
      if IsBreak(e, minDuration, minRestDuration) then (done + [open + [e]], []) else (done, open + [e])
  }

  /** Everything `segment_on_breaks` yields: the closed segments, then the
      open one if it is not empty. */
  function Segments(events: seq<Event>, minDuration: int, minRestDuration: int): seq<seq<Event>>
  {
    var (done, open) := SegmentScan(events, minDuration, minRestDuration);
    if open != [] then done + [open] else done
  }

  /** Segments closed by a break, followed by an open segment without one. */
  predicate ScanShaped(done: seq<seq<Event>>, open: seq<Event>, minDuration: int, minRestDuration: int)
  {
    (forall k :: 0 <= k < |done| ==> Closed(done[k], minDuration, minRestDuration)) &&
    (forall j :: 0 <= j < |open| ==> !IsBreak(open[j], minDuration, minRestDuration))
  }

  /** A break closes the open segment it ends. */
  lemma CloseSegment(open: seq<Event>, e: Event, minDuration: int, minRestDuration: int)
    requires forall j :: 0 <= j < |open| ==> !IsBreak(open[j], minDuration, minRestDuration)
    requires IsBreak(e, minDuration, minRestDuration)
    ensures Closed(open + [e], minDuration, minRestDuration)
  {
    var grown := open + [e];
    assert forall j :: 0 <= j < |grown| - 1 ==> grown[j] == open[j];
  }

  /** One event through `segment_on_breaks` keeps the shape and the layout. */
  lemma SegmentStep(done: seq<seq<Event>>, open: seq<Event>, e: Event, minDuration: int, minRestDuration: int)
    requires ScanShaped(done, open, minDuration, minRestDuration)
    ensures IsBreak(e, minDuration, minRestDuration) ==>
              ScanShaped(done + [open + [e]], [], minDuration, minRestDuration) &&
              Flatten(done + [open + [e]]) + [] == Flatten(done) + (open + [e])
    ensures !IsBreak(e, minDuration, minRestDuration) ==>
              ScanShaped(done, open + [e], minDuration, minRestDuration)
  {
    var grown := open + [e];
    if IsBreak(e, minDuration, minRestDuration) {
      CloseSegment(open, e, minDuration, minRestDuration);
      FlattenSnoc(done, grown);
      assert Flatten(done + [grown]) + [] == Flatten(done + [grown]);
      assert forall k :: 0 <= k < |done| ==> (done + [grown])[k] == done[k];
    } else {
      assert forall j :: 0 <= j < |open| ==> grown[j] == open[j];
    }
  }

  /** The scan lays out its input: the closed segments followed by the open
      one; every closed segment is cut right after its first break, and the
      open one holds no break. */
  lemma {:induction false} SegmentScanShape(events: seq<Event>, minDuration: int, minRestDuration: int)
    ensures var (done, open) := SegmentScan(events, minDuration, minRestDuration);
            Flatten(done) + open == events && ScanShaped(done, open, minDuration, minRestDuration)
    decreases |events|
  {
    if events != [] {
      var init := events[..|events| - 1];
      var e := events[|events| - 1];
      SegmentScanShape(init, minDuration, minRestDuration);
      var (done, open) := SegmentScan(init, minDuration, minRestDuration);
      SegmentStep(done, open, e, minDuration, minRestDuration);
      assert events == init + [e];
      EventsAssoc(Flatten(done), open, [e]);
    }
  }

  /** `segment_on_breaks` lays out the input exactly, yields no empty
      segment, cuts every segment but the last right after a break, and
      never leaves a break inside a segment. */
  lemma SegmentsSpec(events: seq<Event>, minDuration: int, minRestDuration: int)
    ensures var out := Segments(events, minDuration, minRestDuration);
            Flatten(out) == events &&
            (forall i :: 0 <= i < |out| ==> out[i] != [] && NoEarlyBreak(out[i], minDuration, minRestDuration)) &&
            (forall i :: 0 <= i < |out| - 1 ==> Closed(out[i], minDuration, minRestDuration))
  {
    SegmentScanShape(events, minDuration, minRestDuration);
    var (done, open) := SegmentScan(events, minDuration, minRestDuration);
    if open != [] {
      FlattenSnoc(done, open);
      assert forall i :: 0 <= i < |done| ==> (done + [open])[i] == done[i];
    }
  }

  /** `segment_on_breaks`, its yields collected in order. */
  method SegmentOnBreaks(events: seq<Event>, minDuration: int, minRestDuration: int) returns (segments: seq<seq<Event>>)
    ensures segments == Segments(events, minDuration, minRestDuration)
  {
    segments := [];
    var segment: seq<Event> := [];
    for i := 0 to |events|
      invariant (segments, segment) == SegmentScan(events[..i], minDuration, minRestDuration)
    {
      assert events[..i + 1][..i] == events[..i];
      var event := events[i];
      var isRest := event.period == 0;
      segment := segment + [event];
      if (!isRest && event.duration >= minDuration) || (isRest && event.duration >= minRestDuration) {
        segments := segments + [segment];
        segment := [];
      }
    }
    assert events[..|events|] == events;
    if segment != [] {
      segments := segments + [segment];
    }
  }

  // ---------------------------------------------------------------------
  // merge_event_segments

  /** The state of `merge_event_segments` after a prefix of the input: the
      segments it has yielded and `current_segment`. A segment is yielded as
      soon as the input segments gathered into it last `minDuration`. */
  function MergeScan(segments: seq<seq<Event>>, minDuration: int): (r: (seq<seq<Event>>, seq<Event>))
    decreases |segments|
  {
    if segments == [] then ([], [])
    else
      var (merged, current) := MergeScan(segments[..|segments| - 1], minDuration);
      var grown := current + segments[|segments| - 1];
      if Total(grown) >= minDuration then (merged + [grown], []) else (merged, grown)
  }

  /** Everything `merge_event_segments` yields: the scan's segments, then
      what is left over if it is not empty. */
  function Merge(segments: seq<seq<Event>>, minDuration: int): seq<seq<Event>>
  {
    var (merged, current) := MergeScan(segments, minDuration);
    if current != [] then merged + [current] else merged
  }

  /** The scan lays out its input: what it yielded followed by what it holds;
      everything it yielded lasts `minDuration`, and what it holds, when not
      empty, does not. */
  lemma {:induction false} MergeScanShape(segments: seq<seq<Event>>, minDuration: int)
    ensures var (merged, current) := MergeScan(segments, minDuration);
            Flatten(merged) + current == Flatten(segments) &&
            (forall i :: 0 <= i < |merged| ==> Total(merged[i]) >= minDuration) &&
            (current != [] ==> Total(current) < minDuration)
    decreases |segments|
  {
    if segments != [] {
      var init := segments[..|segments| - 1];
      MergeScanShape(init, minDuration);
      var (merged, current) := MergeScan(init, minDuration);
      var grown := current + segments[|segments| - 1];
      if Total(grown) >= minDuration {
        assert (merged + [grown])[..|merged|] == merged;
      }
    }
  }

  /** `merge_event_segments` lays out exactly the events of its input, and
      every segment it yields except the last lasts at least `minDuration`.
      The last one holds what is left and may be shorter (see
      `MergeShortTail`). */
  lemma MergeSpec(segments: seq<seq<Event>>, minDuration: int)
    ensures var out := Merge(segments, minDuration);
            Flatten(out) == Flatten(segments) &&
            (forall i :: 0 <= i < |out| - 1 ==> Total(out[i]) >= minDuration)
  {
    MergeScanShape(segments, minDuration);
    var (merged, current) := MergeScan(segments, minDuration);
    if current != [] {
      assert (merged + [current])[..|merged|] == merged;
    }
  }

  /** The documentation promises every yielded segment lasts
      `minDuration`; a short input is yielded whole all the same. */
  lemma MergeShortTail()
    ensures Merge([[Event(440, 30, 1)]], 100) == [[Event(440, 30, 1)]]
    ensures Total([Event(440, 30, 1)]) < 100
  {
    assert [[Event(440, 30, 1)]][..0] == [];
    assert [Event(440, 30, 1)][..0] == [];
  }

  /** Segments that each last `minDuration` pass through the scan unchanged. */
  lemma {:induction false} MergeScanLong(segments: seq<seq<Event>>, minDuration: int)
    requires forall i :: 0 <= i < |segments| ==> Total(segments[i]) >= minDuration
    ensures MergeScan(segments, minDuration) == (segments, [])
    decreases |segments|
  {
    if segments != [] {
      var init := segments[..|segments| - 1];
      assert forall i :: 0 <= i < |init| ==> init[i] == segments[i];
      MergeScanLong(init, minDuration);
      assert [] + segments[|segments| - 1] == segments[|segments| - 1];
      assert init + [segments[|segments| - 1]] == segments;
    }
  }

  /** Merging what has been merged changes nothing. */
  lemma {:induction false} MergeIdempotent(segments: seq<seq<Event>>, minDuration: int)
    ensures Merge(Merge(segments, minDuration), minDuration) == Merge(segments, minDuration)
  {
    MergeScanShape(segments, minDuration);
    var (merged, current) := MergeScan(segments, minDuration);
    MergeScanLong(merged, minDuration);
    if current != [] {
      var out := merged + [current];
      assert out[..|out| - 1] == merged;
      assert [] + current == current;
      assert MergeScan(out, minDuration) == (merged, current);
    }
  }

  /** `merge_event_segments`, its yields collected in order. */
  method MergeEventSegments(segments: seq<seq<Event>>, minDuration: int) returns (merged: seq<seq<Event>>)
    ensures merged == Merge(segments, minDuration)
  {
    merged := [];
    var currentSegment: seq<Event> := [];
    var currentDuration := 0;
    for i := 0 to |segments|
      invariant (merged, currentSegment) == MergeScan(segments[..i], minDuration)
      invariant currentDuration == Total(currentSegment)
    {
      assert segments[..i + 1][..i] == segments[..i];
      var segment := segments[i];
      TotalAppend(currentSegment, segment);
      currentSegment := currentSegment + segment;
      var sum := SumDurations(segment);
      currentDuration := currentDuration + sum;
      if currentDuration >= minDuration {
        merged := merged + [currentSegment];
        currentSegment := [];
        currentDuration := 0;
      }
    }
    assert segments[..|segments|] == segments;
    if currentSegment != [] {
      merged := merged + [currentSegment];
    }
  }

  /** `sum(d for _, d, _ in segment)`. */
  method SumDurations(segment: seq<Event>) returns (sum: int)
    ensures sum == Total(segment)
  {
    sum := 0;
    for i := 0 to |segment|
      invariant sum == Total(segment[..i])
    {
      assert segment[..i + 1][..i] == segment[..i];
      sum := sum + segment[i].duration;
    }
    assert segment[..|segment|] == segment;
  }

  // ---------------------------------------------------------------------
  // compress_segments

  datatype Option<T> = None | Some(value: T)

  /** A `(start_index, length)` pair: where a segment sits in the event table. */
  datatype Slice = Slice(start: nat, length: nat)

  /** The distinct segments, in order of first use: the keys of the
      dictionary `compress_segments` builds, in insertion order. */
  function Distinct(ss: seq<seq<Event>>): (ds: seq<seq<Event>>)
    ensures |ds| <= |ss|
    decreases |ss|
  {
    if ss == [] then []
    else
      var ds := Distinct(ss[..|ss| - 1]);
      if ss[|ss| - 1] in ds then ds else ds + [ss[|ss| - 1]]
  }

  /** The positions where segment x is used, ascending: the list the
      dictionary holds for key x. */
  function Uses(ss: seq<seq<Event>>, x: seq<Event>): seq<nat>
    decreases |ss|
  {
    if ss == [] then []
    else Uses(ss[..|ss| - 1], x) + (if ss[|ss| - 1] == x then [|ss| - 1] else [])
  }

  /** No element occurs twice. */
  predicate NoRepeats(ds: seq<seq<Event>>)
  {
    forall a, b :: 0 <= a < b < |ds| ==> ds[a] != ds[b]
  }

  /** `Distinct` holds each segment of its input exactly once. */
  lemma {:induction false} DistinctSpec(ss: seq<seq<Event>>)
    ensures NoRepeats(Distinct(ss))
    ensures forall x :: x in Distinct(ss) <==> x in ss
    decreases |ss|
  {
    if ss != [] {
      var init := ss[..|ss| - 1];
      var last := ss[|ss| - 1];
      DistinctSpec(init);
      assert ss == init + [last];
      var ds := Distinct(init);
      if last !in ds {
        var ds' := ds + [last];
        forall a, b | 0 <= a < b < |ds'| ensures ds'[a] != ds'[b] {
          if b == |ds| {
            assert ds'[a] == ds[a] && ds[a] in ds;
          } else {
            assert ds'[a] == ds[a] && ds'[b] == ds[b];
          }
        }
      }
    }
  }

  /** `Uses` lists exactly the positions holding x, in ascending order. */
  lemma {:induction false} UsesSpec(ss: seq<seq<Event>>, x: seq<Event>)
    ensures forall j :: j in Uses(ss, x) <==> 0 <= j < |ss| && ss[j] == x
    ensures forall a, b :: 0 <= a < b < |Uses(ss, x)| ==> Uses(ss, x)[a] < Uses(ss, x)[b]
    decreases |ss|
  {
    if ss != [] {
      var init := ss[..|ss| - 1];
      UsesSpec(init, x);
      assert forall j :: 0 <= j < |init| ==> init[j] == ss[j];
      var us := Uses(init, x);
      if ss[|ss| - 1] == x {
        var us' := us + [|ss| - 1];
        forall a, b | 0 <= a < b < |us'| ensures us'[a] < us'[b] {
          if b < |us| {
            assert us'[a] == us[a] && us'[b] == us[b] && us[a] < us[b];
          } else {
            assert us'[a] == us[a] && us[a] in us;
          }
        }
        assert Uses(ss, x) == us';
      } else {
        assert Uses(ss, x) == us + [] == us;
      }
    }
  }

  /** A segment that is never used has no uses. */
  lemma {:induction false} UsesAbsent(ss: seq<seq<Event>>, x: seq<Event>)
    requires x !in ss
    ensures Uses(ss, x) == []
    decreases |ss|
  {
    if ss != [] {
      var init := ss[..|ss| - 1];
      assert forall y :: y in init ==> y in ss;
      UsesAbsent(init, x);
    }
  }

  /** The position of x in a list that holds it. */
  function IndexOf(keys: seq<seq<Event>>, x: seq<Event>): (p: nat)
    requires x in keys
    ensures p < |keys| && keys[p] == x
    ensures forall q :: 0 <= q < p ==> keys[q] != x
  {
    if keys[0] == x then 0 else 1 + IndexOf(keys[1..], x)
  }

  /** In a list without repeats, the position of its p-th element is p. */
  lemma IndexOfDistinct(keys: seq<seq<Event>>, p: nat)
    requires p < |keys| && NoRepeats(keys)
    ensures IndexOf(keys, keys[p]) == p
  {
  }

  /** Appending to a list moves no element's first position; an element new
      to the list sits at the end. */
  lemma IndexOfSnoc(s: seq<seq<Event>>, y: seq<Event>, x: seq<Event>)
    requires x in s + [y]
    ensures x in s ==> IndexOf(s + [y], x) == IndexOf(s, x)
    ensures x !in s ==> IndexOf(s + [y], x) == |s|
  {
    var q := IndexOf(s + [y], x);
    if x in s {
      var p := IndexOf(s, x);
      assert (s + [y])[p] == x;
    }
  }

  /** The first use of a segment is its first position. */
  lemma FirstUseIsIndexOf(ss: seq<seq<Event>>, x: seq<Event>)
    requires x in ss
    ensures Uses(ss, x) != [] && Uses(ss, x)[0] == IndexOf(ss, x)
  {
    UsesSpec(ss, x);
    var p := IndexOf(ss, x);
    assert p in Uses(ss, x);
    var us := Uses(ss, x);
    assert us[0] in us;
  }

  /** Every element of ds occurs in ss, and ds lists them in the order of
      their first positions in ss. */
  predicate InFirstUseOrder(ds: seq<seq<Event>>, ss: seq<seq<Event>>)
  {
    (forall a :: 0 <= a < |ds| ==> ds[a] in ss) &&
    forall a, b :: 0 <= a < b < |ds| ==> IndexOf(ss, ds[a]) < IndexOf(ss, ds[b])
  }

  /** One more segment keeps the first-use order of the distinct ones. */
  lemma OrderSnoc(init: seq<seq<Event>>, last: seq<Event>, ds: seq<seq<Event>>)
    requires forall x :: x in ds <==> x in init
    requires InFirstUseOrder(ds, init)
    ensures InFirstUseOrder(if last in ds then ds else ds + [last], init + [last])
  {
    var ss := init + [last];
    forall a | 0 <= a < |ds| ensures ds[a] in ss && IndexOf(ss, ds[a]) == IndexOf(init, ds[a]) < |init| {
      IndexOfSnoc(init, last, ds[a]);
    }
    if last !in ds {
      var ds' := ds + [last];
      IndexOfSnoc(init, last, last);
      forall a, b | 0 <= a < b < |ds'| ensures IndexOf(ss, ds'[a]) < IndexOf(ss, ds'[b]) {
        assert ds'[a] == ds[a];
        if b < |ds| {
          assert ds'[b] == ds[b];
        }
      }
    }
  }

  /** `Distinct` lists the segments in the order of their first positions. */
  lemma {:induction false} DistinctOrder(ss: seq<seq<Event>>)
    ensures InFirstUseOrder(Distinct(ss), ss)
    decreases |ss|
  {
    if ss != [] {
      var init := ss[..|ss| - 1];
      var last := ss[|ss| - 1];
      assert ss == init + [last];
      DistinctOrder(init);
      DistinctSpec(init);
      OrderSnoc(init, last, Distinct(init));
    }
  }

  /** Every distinct segment is used, and their first uses ascend in the
      order `Distinct` lists them: sorting the dictionary's items by first
      use, as `compress_segments` does, keeps its insertion order. */
  lemma FirstUseAscending(ss: seq<seq<Event>>)
    ensures var ds := Distinct(ss);
            (forall a :: 0 <= a < |ds| ==> Uses(ss, ds[a]) != []) &&
            (forall a, b :: 0 <= a < b < |ds| ==> Uses(ss, ds[a])[0] < Uses(ss, ds[b])[0])
  {
    DistinctOrder(ss);
    var ds := Distinct(ss);
    forall a | 0 <= a < |ds| ensures Uses(ss, ds[a]) != [] && Uses(ss, ds[a])[0] == IndexOf(ss, ds[a]) {
      FirstUseIsIndexOf(ss, ds[a]);
    }
  }

  /** Where x sits when the keys are laid end to end. */
  function SliceIn(keys: seq<seq<Event>>, x: seq<Event>): Slice
    requires x in keys
  {
    Slice(|Flatten(keys[..IndexOf(keys, x)])|, |x|)
  }

  /** Reading the slice s of an event table gives x. */
  predicate ReadsBack(events: seq<Event>, s: Slice, x: seq<Event>)
  {
    s.start + s.length <= |events| && events[s.start..s.start + s.length] == x
  }

  /** Laying out the keys and reading back any key's slice gives the key. */
  lemma {:induction false} SliceRoundTrip(keys: seq<seq<Event>>, x: seq<Event>)
    requires x in keys
    ensures ReadsBack(Flatten(keys), SliceIn(keys, x), x)
  {
    var p := IndexOf(keys, x);
    assert keys == keys[..p] + [x] + keys[p + 1..];
    FlattenAppend(keys[..p] + [x], keys[p + 1..]);
    FlattenAppend(keys[..p], [x]);
    assert [x][..0] == [];
    assert Flatten([x]) == x;
  }

  /** Two keys share a slice exactly when they are the same key. */
  lemma SliceShared(keys: seq<seq<Event>>, x: seq<Event>, y: seq<Event>)
    requires x in keys && y in keys
    ensures SliceIn(keys, x) == SliceIn(keys, y) <==> x == y
  {
    SliceRoundTrip(keys, x);
    SliceRoundTrip(keys, y);
  }

  /** `compress_segments`' result is reversible and never larger than its
      input: each segment reads back from the event table at its slice,
      equal segments share a slice and different ones do not, and the table
      holds no more events than the segments together. */
  lemma CompressSpec(ss: seq<seq<Event>>)
    ensures forall i :: 0 <= i < |ss| ==> ss[i] in Distinct(ss)
    ensures forall i :: 0 <= i < |ss| ==> ReadsBack(Flatten(Distinct(ss)), SliceIn(Distinct(ss), ss[i]), ss[i])
    ensures forall i, j :: 0 <= i < |ss| && 0 <= j < |ss| ==>
              (SliceIn(Distinct(ss), ss[i]) == SliceIn(Distinct(ss), ss[j]) <==> ss[i] == ss[j])
    ensures |Flatten(Distinct(ss))| <= |Flatten(ss)|
  {
    DistinctSpec(ss);
    var ds := Distinct(ss);
    forall i | 0 <= i < |ss| ensures ReadsBack(Flatten(ds), SliceIn(ds, ss[i]), ss[i]) {
      SliceRoundTrip(ds, ss[i]);
    }
    forall i, j | 0 <= i < |ss| && 0 <= j < |ss|
      ensures SliceIn(ds, ss[i]) == SliceIn(ds, ss[j]) <==> ss[i] == ss[j]
    {
      SliceShared(ds, ss[i], ss[j]);
    }
    DistinctShorter(ss);
  }

  /** The distinct segments hold no more events than all of them. */
  lemma {:induction false} DistinctShorter(ss: seq<seq<Event>>)
    ensures |Flatten(Distinct(ss))| <= |Flatten(ss)|
    decreases |ss|
  {
    if ss != [] {
      var init := ss[..|ss| - 1];
      var last := ss[|ss| - 1];
      DistinctShorter(init);
      if last !in Distinct(init) {
        FlattenAppend(Distinct(init), [last]);
        assert [last][..0] == [];
      }
    }
  }

  /** First pass of `compress_segments`: an empty slot per segment, and the
      dictionary from each distinct segment to the positions using it, with
      its keys in insertion order. */
  method GroupSegments(segments: seq<seq<Event>>)
    returns (slots: seq<Option<Slice>>, keys: seq<seq<Event>>, d: map<seq<Event>, seq<nat>>)
    ensures |slots| == |segments| && forall j :: 0 <= j < |slots| ==> slots[j] == None
    ensures keys == Distinct(segments)
    ensures forall k :: k in d <==> k in keys
    ensures forall k :: k in d ==> d[k] == Uses(segments, k)
  {
    slots := [];
    keys := [];
    d := map[];
    for i := 0 to |segments|
      invariant |slots| == i && forall j :: 0 <= j < i ==> slots[j] == None
      invariant keys == Distinct(segments[..i])
      invariant forall k :: k in d <==> k in keys
      invariant forall k :: k in d ==> d[k] == Uses(segments[..i], k)
    {
      assert segments[..i + 1][..i] == segments[..i];
      var segment := segments[i];
      slots := slots + [None];
      if segment in d {
        d := d[segment := d[segment] + [i]];
      } else {
        DistinctSpec(segments[..i]);
        UsesAbsent(segments[..i], segment);
        keys := keys + [segment];
        d := d[segment := [i]];
      }
    }
    assert segments[..|segments|] == segments;
  }

  /** `output_segments[i] = (start_index, length)` for every i in `uses`. */
  method PlaceSegment(slots: seq<Option<Slice>>, uses: seq<nat>, slice: Slice) returns (placed: seq<Option<Slice>>)
    requires forall t :: 0 <= t < |uses| ==> uses[t] < |slots|
    ensures |placed| == |slots|
    ensures forall j :: 0 <= j < |slots| ==> placed[j] == if j in uses then Some(slice) else slots[j]
  {
    placed := slots;
    for t := 0 to |uses|
      invariant |placed| == |slots|
      invariant forall j :: 0 <= j < |slots| ==> placed[j] == if j in uses[..t] then Some(slice) else slots[j]
    {
      assert uses[..t + 1] == uses[..t] + [uses[t]];
      placed := placed[uses[t] := Some(slice)];
    }
    assert uses[..|uses|] == uses;
  }

  /** Every segment whose key comes before position m has its slice filled
      in, and no other. */
  ghost predicate Placed(slots: seq<Option<Slice>>, segments: seq<seq<Event>>, keys: seq<seq<Event>>, m: nat)
    requires forall j :: 0 <= j < |segments| ==> segments[j] in keys
  {
    |slots| == |segments| &&
    forall j :: 0 <= j < |segments| ==>
      slots[j] == if IndexOf(keys, segments[j]) < m then Some(SliceIn(keys, segments[j])) else None
  }

  /** Filling in the slice of key m for each of its uses places one more key. */
  lemma PlacedNext(slots: seq<Option<Slice>>, placed: seq<Option<Slice>>, segments: seq<seq<Event>>,
                   keys: seq<seq<Event>>, m: nat)
    requires NoRepeats(keys) && m < |keys|
    requires forall j :: 0 <= j < |segments| ==> segments[j] in keys
    requires Placed(slots, segments, keys, m) && |placed| == |slots|
    requires forall j :: 0 <= j < |slots| ==>
               placed[j] == if j in Uses(segments, keys[m]) then Some(SliceIn(keys, keys[m])) else slots[j]
    ensures Placed(placed, segments, keys, m + 1)
  {
    UsesSpec(segments, keys[m]);
    IndexOfDistinct(keys, m);
    forall j | 0 <= j < |segments|
      ensures placed[j] == if IndexOf(keys, segments[j]) < m + 1 then Some(SliceIn(keys, segments[j])) else None
    {
      var p := IndexOf(keys, segments[j]);
      if j in Uses(segments, keys[m]) {
        assert segments[j] == keys[m];
      } else {
        assert p != m;
      }
    }
  }

  /** One pass of the loop over the dictionary's items: key m's events are
      appended to the table and its slice is filled in for each of its uses. */
  method LayOutKey(segments: seq<seq<Event>>, keys: seq<seq<Event>>, m: nat, indices: seq<nat>,
                   events: seq<Event>, slots: seq<Option<Slice>>)
    returns (events': seq<Event>, slots': seq<Option<Slice>>)
    requires NoRepeats(keys) && m < |keys|
    requires forall j :: 0 <= j < |segments| ==> segments[j] in keys
    requires indices == Uses(segments, keys[m])
    requires events == Flatten(keys[..m]) && Placed(slots, segments, keys, m)
    ensures events' == Flatten(keys[..m + 1])
    ensures Placed(slots', segments, keys, m + 1)
  {
    var segment := keys[m];
    UsesSpec(segments, segment);
    assert forall t :: 0 <= t < |indices| ==> indices[t] in indices;
    IndexOfDistinct(keys, m);
    FlattenNext(keys, m);
    var startIndex := |events|;
    var length := |segment|;
    events' := events + segment;
    slots' := PlaceSegment(slots, indices, Slice(startIndex, length));
    PlacedNext(slots, slots', segments, keys, m);
  }

  /** The slots once every one is filled in (`compress_segments` asserts
      that none is left empty). */
  method Filled(slots: seq<Option<Slice>>) returns (spans: seq<Slice>)
    requires forall j :: 0 <= j < |slots| ==> slots[j].Some?
    ensures |spans| == |slots| && forall j :: 0 <= j < |slots| ==> slots[j] == Some(spans[j])
  {
    spans := [];
    for j := 0 to |slots|
      invariant |spans| == j && forall i :: 0 <= i < j ==> slots[i] == Some(spans[i])
    {
      spans := spans + [slots[j].value];
    }
  }

  /** `compress_segments`: the event table lays out the distinct segments in
      order of first use, and each segment gets the slice of the table where
      it sits (see `CompressSpec` for what that slice reads back). */
  method CompressSegments(segments: seq<seq<Event>>) returns (events: seq<Event>, spans: seq<Slice>)
    ensures events == Flatten(Distinct(segments))
    ensures |spans| == |segments|
    ensures forall i :: 0 <= i < |segments| ==>
              segments[i] in Distinct(segments) && spans[i] == SliceIn(Distinct(segments), segments[i])
  {
    var slots, keys, d := GroupSegments(segments);
    KeysCover(segments, keys);
    events := [];
    for m := 0 to |keys|
      invariant events == Flatten(keys[..m])
      invariant Placed(slots, segments, keys, m)
    {
      events, slots := LayOutKey(segments, keys, m, d[keys[m]], events, slots);
    }
    assert keys[..|keys|] == keys;
    PlacedAll(slots, segments, keys);
    spans := Filled(slots);
  }

  /** The distinct segments have no repeats and include every segment. */
  lemma KeysCover(segments: seq<seq<Event>>, keys: seq<seq<Event>>)
    requires keys == Distinct(segments)
    ensures NoRepeats(keys) && forall j :: 0 <= j < |segments| ==> segments[j] in keys
  {
    DistinctSpec(segments);
  }

  /** Once every key is placed, every slot holds its segment's slice. */
  lemma PlacedAll(slots: seq<Option<Slice>>, segments: seq<seq<Event>>, keys: seq<seq<Event>>)
    requires forall j :: 0 <= j < |segments| ==> segments[j] in keys
    requires Placed(slots, segments, keys, |keys|)
    ensures |slots| == |segments|
    ensures forall j :: 0 <= j < |segments| ==> slots[j] == Some(SliceIn(keys, segments[j]))
  {
  }
}
