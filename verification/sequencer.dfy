/** The playback loop of `main`: once the nodes are synchronised, each one
    walks its song, switching the audio pin at note boundaries measured on
    the adjusted clock, with a fixed silent gap between consecutive notes. */
module Sequencer {
  import opened Timestamps

  /** The silent gap inserted after every note, in milliseconds. */
  const ARTICULATION_MS: int := 10

  /** One entry of `_song_events`: the generated `music_event_t` holds three
      `int`s. */
  datatype SongEvent = SongEvent(periodUs: i32, durationMs: i32, velocity: i32)

  /** One `setAnalogValue` followed by one `setAnalogPeriodUs`. */
  datatype PinWrite = PinWrite(value: int, periodUs: int)

  /** The pin writes that silence the output. */
  const Silence := PinWrite(0, 0)

  /** The pin writes that play a note. */
  function Tone(e: SongEvent): PinWrite
  {
    PinWrite(e.velocity, e.periodUs)
  }

  /** The loop's locals `cur_note`, `isArticulated` and `next_change`. */
  datatype Player = Player(curNote: int, isArticulated: bool, nextChange: i32)

  /** What `main` does before the loop, given the `SystemTime()` reading
      `start` (stored in an `int`): schedule the end of note 0 and start
      playing it. */
  function Start(song: seq<SongEvent>, start: u32): (r: (Player, seq<PinWrite>))
    requires |song| > 0
    ensures r.0.curNote == 0 && !r.0.isArticulated
  {
    var time := AsSigned(start);
    (Player(0, false, WrapI32(time + song[0].durationMs)), [Tone(song[0])])
  }

  /** One pass of the loop body at the `SystemTime()` reading `now`: the
      state reached and the pin writes made. */
  function Step(song: seq<SongEvent>, p: Player, now: u32): (r: (Player, seq<PinWrite>))
    requires 0 <= p.curNote < |song|
    ensures p.curNote <= r.0.curNote <= p.curNote + 1 && r.0.curNote <= |song|
  {
    var time := AsSigned(now);
    if !(p.nextChange < time) then (p, [])
    else if !p.isArticulated then
      (Player(p.curNote, true, WrapI32(p.nextChange + ARTICULATION_MS)), [Silence])
    else
      var cur := p.curNote + 1;
      if cur >= |song| then (Player(cur, false, p.nextChange), [Silence])
      else (Player(cur, false, WrapI32(p.nextChange + song[cur].durationMs - ARTICULATION_MS)), [Tone(song[cur])])
  }

  /** Before its deadline a pass changes nothing and writes nothing. */
  lemma StepIdle(song: seq<SongEvent>, p: Player, now: u32)
    requires 0 <= p.curNote < |song|
    requires p.nextChange >= AsSigned(now)
    ensures Step(song, p, now) == (p, [])
  {
  }

  /** The first expiry of a note silences the pin, opens the gap and keeps
      the note; the expiry of the gap moves to the next note. */
  lemma StepExpires(song: seq<SongEvent>, p: Player, now: u32)
    requires 0 <= p.curNote < |song|
    requires p.nextChange < AsSigned(now)
    ensures var (q, w) := Step(song, p, now);
            q.isArticulated == !p.isArticulated &&
            (!p.isArticulated ==> q.curNote == p.curNote && w == [Silence] &&
                                  q.nextChange == WrapI32(p.nextChange + ARTICULATION_MS)) &&
            (p.isArticulated ==> q.curNote == p.curNote + 1 &&
                                 w == if q.curNote < |song| then [Tone(song[q.curNote])] else [Silence])
  {
  }

  /** Across a note boundary `next_change` moves by exactly the next note's
      duration: ARTICULATION_MS at the first expiry, the rest at the second. */
  lemma {:induction false} NoteBoundary(song: seq<SongEvent>, p: Player, t1: u32, t2: u32)
    requires 0 <= p.curNote < |song| - 1 && !p.isArticulated
    requires p.nextChange < AsSigned(t1)
    requires Step(song, p, t1).0.nextChange < AsSigned(t2)
    ensures var q := Step(song, Step(song, p, t1).0, t2).0;
            q.curNote == p.curNote + 1 &&
            q.nextChange == WrapI32(p.nextChange + song[p.curNote + 1].durationMs)
  {
    var mid := WrapI32(p.nextChange + ARTICULATION_MS);
    WrapI32Add(p.nextChange + ARTICULATION_MS, song[p.curNote + 1].durationMs - ARTICULATION_MS);
    assert mid + song[p.curNote + 1].durationMs - ARTICULATION_MS
        == mid + (song[p.curNote + 1].durationMs - ARTICULATION_MS);
  }

  /** The loop run over a sequence of clock readings, one per pass, from the
      state `main` sets up; passes after the last note has ended do not run. */
  function Steps(song: seq<SongEvent>, start: u32, times: seq<u32>): (r: (Player, seq<PinWrite>))
    requires |song| > 0
    ensures 0 <= r.0.curNote <= |song|
    decreases |times|
  {
    if times == [] then Start(song, start)
    else
      var (p, out) := Steps(song, start, times[..|times| - 1]);
      if p.curNote < |song| then
        var (q, w) := Step(song, p, times[|times| - 1]);
        (q, out + w)
      else (p, out)
  }

  /** The sum of the durations of some notes. */
  function Duration(song: seq<SongEvent>): int
    decreases |song|
  {
    if song == [] then 0 else Duration(song[..|song| - 1]) + song[|song| - 1].durationMs
  }

  /** The writes of n completed notes: each note, then its gap. */
  function Played(song: seq<SongEvent>, n: nat): seq<PinWrite>
    requires n <= |song|
  {
    if n == 0 then [] else Played(song, n - 1) + [Tone(song[n - 1]), Silence]
  }

  /** Every pin write so far, for a player on note `cur`: the notes before
      it, each followed by its gap, then note `cur` and its gap if it has
      begun; once the song is over, one more silence. */
  function Rendition(song: seq<SongEvent>, cur: nat, articulated: bool): seq<PinWrite>
    requires cur <= |song|
  {
    if cur < |song| then Played(song, cur) + [Tone(song[cur])] + (if articulated then [Silence] else [])
    else Played(song, cur) + [Silence]
  }

  /** The time the player waits for: the start plus the durations of the
      notes up to the current one, plus the gap while it is articulated; once
      the song is over, the end of the last gap. Kept modulo 2^32 as the int
      additions wrap. */
  function Schedule(song: seq<SongEvent>, start: u32, cur: nat, articulated: bool): i32
    requires cur <= |song|
  {
    if cur < |song| then WrapI32(AsSigned(start) + Duration(song[..cur + 1]) + (if articulated then ARTICULATION_MS else 0))
    else WrapI32(AsSigned(start) + Duration(song) + ARTICULATION_MS)
  }

  /** The invariant of the playback loop. */
  predicate Playing(song: seq<SongEvent>, start: u32, p: Player, out: seq<PinWrite>)
  {
    && 0 <= p.curNote <= |song|
    && (p.curNote == |song| ==> !p.isArticulated)
    && out == Rendition(song, p.curNote, p.isArticulated)
    && p.nextChange == Schedule(song, start, p.curNote, p.isArticulated)
  }

  lemma DurationNext(song: seq<SongEvent>, n: nat)
    requires n < |song|
    ensures Duration(song[..n + 1]) == Duration(song[..n]) + song[n].durationMs
  {
    assert song[..n + 1][..n] == song[..n];
  }

  /** Every pass keeps the invariant. */
  lemma StepPlaying(song: seq<SongEvent>, start: u32, p: Player, out: seq<PinWrite>, now: u32)
    requires p.curNote < |song| && Playing(song, start, p, out)
    ensures var (q, w) := Step(song, p, now); Playing(song, start, q, out + w)
  {
    if p.nextChange < AsSigned(now) {
      if !p.isArticulated {
        ArticulatePlaying(song, start, p, out);
      } else {
        AdvancePlaying(song, start, p, out);
      }
    }
  }

  /** The first expiry of a note keeps the invariant. */
  lemma ArticulatePlaying(song: seq<SongEvent>, start: u32, p: Player, out: seq<PinWrite>)
    requires p.curNote < |song| && Playing(song, start, p, out) && !p.isArticulated
    ensures Playing(song, start, Player(p.curNote, true, WrapI32(p.nextChange + ARTICULATION_MS)), out + [Silence])
  {
    WrapI32Add(AsSigned(start) + Duration(song[..p.curNote + 1]), ARTICULATION_MS);
  }

  /** The expiry of a gap keeps the invariant. */
  lemma {:induction false} AdvancePlaying(song: seq<SongEvent>, start: u32, p: Player, out: seq<PinWrite>)
    requires p.curNote < |song| && Playing(song, start, p, out) && p.isArticulated
    ensures var cur := p.curNote + 1;
            cur < |song| ==>
              Playing(song, start, Player(cur, false, WrapI32(p.nextChange + song[cur].durationMs - ARTICULATION_MS)),
                      out + [Tone(song[cur])])
    ensures p.curNote + 1 == |song| ==> Playing(song, start, Player(|song|, false, p.nextChange), out + [Silence])
  {
    var cur := p.curNote + 1;
    var base := AsSigned(start) + Duration(song[..cur]);
    assert out == Played(song, cur);
    if cur < |song| {
      DurationNext(song, cur);
      WrapI32Add(base + ARTICULATION_MS, song[cur].durationMs - ARTICULATION_MS);
      assert p.nextChange + song[cur].durationMs - ARTICULATION_MS
          == p.nextChange + (song[cur].durationMs - ARTICULATION_MS);
    } else {
      assert song[..cur] == song;
    }
  }

  /** Before the loop, note 0 sounds and is due to end its duration after
      the start: the loop invariant holds. */
  lemma StartPlaying(song: seq<SongEvent>, start: u32)
    requires |song| > 0
    ensures var (p, out) := Start(song, start); Playing(song, start, p, out)
  {
    assert song[..1] == [song[0]];
    assert Duration(song[..1]) == song[0].durationMs by {
      assert song[..1][..0] == [];
    }
  }

  /** The loop keeps its invariant over any sequence of clock readings: the
      pins have played exactly the rendition up to the current note, and the
      player waits for the scheduled time. */
  lemma {:induction false} StepsPlaying(song: seq<SongEvent>, start: u32, times: seq<u32>)
    requires |song| > 0
    ensures var (p, out) := Steps(song, start, times); Playing(song, start, p, out)
    decreases |times|
  {
    if times == [] {
      StartPlaying(song, start);
    } else {
      StepsPlaying(song, start, times[..|times| - 1]);
      var (p, out) := Steps(song, start, times[..|times| - 1]);
      if p.curNote < |song| {
        StepPlaying(song, start, p, out, times[|times| - 1]);
      }
    }
  }

  /** A finished song has played every note in order, each followed by its
      gap, and then silenced the pin. */
  lemma FinishedRendition(song: seq<SongEvent>, start: u32, p: Player, out: seq<PinWrite>)
    requires Playing(song, start, p, out) && p.curNote == |song|
    ensures |out| == 2 * |song| + 1
    ensures forall j :: 0 <= j < |song| ==> out[2 * j] == Tone(song[j]) && out[2 * j + 1] == Silence
    ensures out[2 * |song|] == Silence
  {
    PlayedLayout(song, |song|);
  }

  lemma {:induction false} PlayedLayout(song: seq<SongEvent>, n: nat)
    requires n <= |song|
    ensures |Played(song, n)| == 2 * n
    ensures forall j :: 0 <= j < n ==> Played(song, n)[2 * j] == Tone(song[j]) && Played(song, n)[2 * j + 1] == Silence
  {
    if n > 0 {
      PlayedLayout(song, n - 1);
    }
  }

  /** `main` from its first `SystemTime()` reading `start`, with `times` the
      readings taken by successive passes of the loop (each pass then sleeps
      1 ms). Returns the pin writes, the final locals and the number of
      readings used; it stops when the song is over or the readings run
      out. */
  method Play(song: seq<SongEvent>, start: u32, times: seq<u32>)
    returns (out: seq<PinWrite>, curNote: int, isArticulated: bool, nextChange: i32, used: nat)
    requires |song| > 0
    ensures used <= |times| && (curNote < |song| ==> used == |times|)
    ensures (Player(curNote, isArticulated, nextChange), out) == Steps(song, start, times[..used])
    ensures Playing(song, start, Player(curNote, isArticulated, nextChange), out)
  {
    isArticulated := false;
    curNote := 0;
    var finNote := |song|;
    var time := AsSigned(start);
    nextChange := WrapI32(time + song[0].durationMs);
    out := [Tone(song[0])];
    used := 0;
    while curNote < finNote && used < |times|
      invariant used <= |times| && 0 <= curNote <= finNote
      invariant (Player(curNote, isArticulated, nextChange), out) == Steps(song, start, times[..used])
      decreases |times| - used
    {
      assert times[..used + 1][..used] == times[..used];
      ghost var before := (Player(curNote, isArticulated, nextChange), out);
      ghost var after := Step(song, before.0, times[used]);
      time := AsSigned(times[used]);
      used := used + 1;
      if nextChange < time {
        if !isArticulated {
          out := out + [Silence];
          nextChange := WrapI32(nextChange + ARTICULATION_MS);
          isArticulated := true;
        } else {
          isArticulated := false;
          curNote := curNote + 1;
          if curNote >= finNote {
            out := out + [Silence];
          } else {
            out := out + [Tone(song[curNote])];
            nextChange := WrapI32(nextChange + song[curNote].durationMs - ARTICULATION_MS);
          }
        }
      } else {
        assert before.1 + [] == out;
      }
      assert (Player(curNote, isArticulated, nextChange), out) == (after.0, before.1 + after.1);
    }
    StepsPlaying(song, start, times[..used]);
  }
}
