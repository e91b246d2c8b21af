/** Note-track generation (midigen.py): one Standard MIDI File track holding a
    Set Tempo meta event and a note_on/note_off pair per hit time. Delta-times
    follow the track chunk rules of the Standard MIDI File 1.0 specification:
    every event carries the number of ticks since the previous event of the
    track. File serialisation is not modelled; the message list is. */
module MidiGen {
  import opened Results

  /** Ticks per quarter note of a freshly created mido MidiFile. */
  const TicksPerBeat: nat := 480
  /** General MIDI percussion key 42 (closed hi-hat), used for every hit. */
  const Note: int := 42
  const Velocity: int := 64
  /** Set Tempo (FF 51 03) stores microseconds per beat in three bytes. */
  const MaxTempo: int := 0xFF_FFFF

  datatype Message =
    | SetTempo(tempo: int)
    | NoteOn(note: int, velocity: int, time: int)
    | NoteOff(note: int, velocity: int, time: int)
  {
    /** The delta-time of the event; the tempo meta message is built with time 0. */
    function Delta(): int
    {
      match this
      case SetTempo(_) => 0
      case NoteOn(_, _, t) => t
      case NoteOff(_, _, t) => t
    }
  }

  datatype MidiFile = MidiFile(ticksPerBeat: nat, tracks: seq<seq<Message>>)

  /** Why create_midi fails: the tempo does not fit the three-byte Set Tempo
      field (rejected when the meta message is built), or it is zero (the
      division computing ticks per second). */
  datatype MidiError = TempoOutOfRange | ZeroDivision

  /** Python's round() of an exact value: the nearest integer, ties to even. */
  function Round(x: real): (n: int)
    ensures x - 0.5 <= n as real <= x + 0.5
    ensures (n as real == x - 0.5 || n as real == x + 0.5) ==> n % 2 == 0
  {
    var f := x.Floor;
    var d := x - f as real;
    if d < 0.5 then f
    else if d > 0.5 then f + 1
    else if f % 2 == 0 then f
    else f + 1
  }

  /** Rounding never reverses the order of two values. */
  lemma RoundMonotone(x: real, y: real)
    requires x <= y
    ensures Round(x) <= Round(y)
  {
  }

  /** `ticks_per_beat * 1000000 / tempo`, with the tempo in microseconds per beat. */
  function TicksPerSecond(tempo: int): (tps: real)
    requires tempo > 0
    ensures tps > 0.0
  {
    TicksPerBeat as real * 1000000.0 / tempo as real
  }

  /** The absolute tick of a hit time: `round(time * ticks_per_second)`. */
  function Tick(time: real, tps: real): (t: int)
    ensures time * tps - 0.5 <= t as real <= time * tps + 0.5
  {
    Round(time * tps)
  }

  /** The absolute tick of every hit time, in input order. */
  function Ticks(times: seq<real>, tps: real): (ticks: seq<int>)
    ensures |ticks| == |times|
    ensures forall i :: 0 <= i < |times| ==> ticks[i] == Tick(times[i], tps)
  {
    seq(|times|, i requires 0 <= i < |times| => Tick(times[i], tps))
  }

  /** The fixed note length: `round(0.1 * ticks_per_second)`. */
  function NoteOffDelta(tempo: int): (off: int)
    requires tempo > 0
    ensures off >= 0
    ensures 0.1 * TicksPerSecond(tempo) - 0.5 <= off as real <= 0.1 * TicksPerSecond(tempo) + 0.5
  {
    RoundMonotone(0.0, 0.1 * TicksPerSecond(tempo));
    assert Round(0.0) == 0;
    Round(0.1 * TicksPerSecond(tempo))
  }

  /** `last_tick` when the i-th hit is reached: the previous note_on's tick, 0 at first. */
  function PrevTick(ticks: seq<int>, i: nat): int
    requires i <= |ticks|
  {
    if i == 0 then 0 else ticks[i - 1]
  }

  /** The delta the i-th note_on carries: its tick minus the previous note_on's tick. */
  function OnDelta(ticks: seq<int>, i: nat): int
    requires i < |ticks|
  {
    ticks[i] - PrevTick(ticks, i)
  }

  /** The track as the source lays it out, message by message: the tempo, then
      for hit i a note_on at position 1 + 2i and its note_off right after. */
  function NoteTrack(tempo: int, ticks: seq<int>, off: int): (track: seq<Message>)
    ensures |track| == 1 + 2 * |ticks| && track[0] == SetTempo(tempo)
  {
    [SetTempo(tempo)] +
    seq(2 * |ticks|, j requires 0 <= j < 2 * |ticks| =>
      if j % 2 == 0 then NoteOn(Note, Velocity, OnDelta(ticks, j / 2))
      else NoteOff(Note, Velocity, off))
  }

  /** The error create_midi raises for `tempo`, if any, in the order it would raise it. */
  function TempoCheck(tempo: int): (e: Option<MidiError>)
    ensures e.None? <==> 0 < tempo <= MaxTempo
    ensures e == Some(ZeroDivision) <==> tempo == 0
  {
    if tempo < 0 || tempo > MaxTempo then Some(TempoOutOfRange)
    else if tempo == 0 then Some(ZeroDivision)
    else None
  }

  /** What create_midi builds for `times` at `tempo`: one file with one track. */
  function MidiSpec(times: seq<real>, tempo: int): (r: Result<MidiFile, MidiError>)
    ensures r.Err? <==> TempoCheck(tempo).Some?
  {
    match TempoCheck(tempo)
    case Some(e) => Err(e)
    case None =>
      var tps := TicksPerSecond(tempo);
      Ok(MidiFile(TicksPerBeat, [NoteTrack(tempo, Ticks(times, tps), NoteOffDelta(tempo))]))
  }

  /** Appending one hit to the ticks appends its note_on/note_off pair to the track. */
  lemma NoteTrackSnoc(tempo: int, ticks: seq<int>, x: int, off: int)
    ensures NoteTrack(tempo, ticks + [x], off) ==
      NoteTrack(tempo, ticks, off) +
      [NoteOn(Note, Velocity, x - PrevTick(ticks, |ticks|)), NoteOff(Note, Velocity, off)]
  {
  }

  /** One turn of create_midi's loop: the first i + 1 hits' track is the first i
      hits' track followed by hit i's note_on and note_off. */
  lemma NoteTrackStep(tempo: int, ticks: seq<int>, off: int, i: nat)
    requires i < |ticks|
    ensures NoteTrack(tempo, ticks[..i + 1], off) ==
      NoteTrack(tempo, ticks[..i], off) +
      [NoteOn(Note, Velocity, ticks[i] - PrevTick(ticks, i)), NoteOff(Note, Velocity, off)]
  {
    assert ticks[..i + 1] == ticks[..i] + [ticks[i]];
    NoteTrackSnoc(tempo, ticks[..i], ticks[i], off);
  }

  /** create_midi, with the file left unsaved: the loop keeps `last_tick` as the
      previous note_on's tick and appends two messages per hit time. */
  method CreateMidi(times: seq<real>, tempo: int) returns (r: Result<MidiFile, MidiError>)
    ensures r == MidiSpec(times, tempo)
  {
    var track: seq<Message> := [];
    if tempo < 0 || tempo > MaxTempo {
      return Err(TempoOutOfRange);
    }
    track := track + [SetTempo(tempo)];
    if tempo == 0 {
      return Err(ZeroDivision);
    }
    var ticksPerSecond := TicksPerBeat as real * 1000000.0 / tempo as real;
    ghost var ticks := Ticks(times, ticksPerSecond);
    ghost var off := NoteOffDelta(tempo);
    assert off == Round(0.1 * ticksPerSecond);
    var lastTick := 0;
    for i := 0 to |times|
      invariant track == NoteTrack(tempo, ticks[..i], off)
      invariant lastTick == PrevTick(ticks, i)
    {
      var currentTick := Tick(times[i], ticksPerSecond);
      var delta := currentTick - lastTick;
      NoteTrackStep(tempo, ticks, off, i);
      track := track + [NoteOn(Note, Velocity, delta)];
      track := track + [NoteOff(Note, Velocity, Round(0.1 * ticksPerSecond))];
      lastTick := currentTick;
    }
    assert ticks[..|times|] == ticks;
    return Ok(MidiFile(TicksPerBeat, [track]));
  }

  /** Hit i gives a note_on immediately followed by a note_off, both on key 42 at
      velocity 64; the note_on carries the tick difference to the previous hit,
      the note_off the fixed note length. */
  lemma NoteTrackPair(tempo: int, ticks: seq<int>, off: int, i: nat)
    requires i < |ticks|
    ensures var track := NoteTrack(tempo, ticks, off);
      track[1 + 2 * i] == NoteOn(Note, Velocity, ticks[i] - PrevTick(ticks, i)) &&
      track[2 + 2 * i] == NoteOff(Note, Velocity, off)
  {
  }

  /** The first k hits of the track are the track of the first k hits. */
  lemma NoteTrackPrefix(tempo: int, ticks: seq<int>, off: int, k: nat)
    requires k <= |ticks|
    ensures NoteTrack(tempo, ticks, off)[..1 + 2 * k] == NoteTrack(tempo, ticks[..k], off)
  {
  }

  /** The deltas of the note_on messages of a track, in track order. */
  function NoteOnDeltas(track: seq<Message>): seq<int>
  {
    if track == [] then []
    else
      var last := track[|track| - 1];
      NoteOnDeltas(track[..|track| - 1]) + (if last.NoteOn? then [last.time] else [])
  }

  function Sum(xs: seq<int>): int
  {
    if xs == [] then 0 else Sum(xs[..|xs| - 1]) + xs[|xs| - 1]
  }

  /** Elapsed ticks at the end of a track: the sum of all delta-times, which is
      the absolute time a MIDI reader assigns to the last event. */
  function Elapsed(track: seq<Message>): int
  {
    if track == [] then 0 else Elapsed(track[..|track| - 1]) + track[|track| - 1].Delta()
  }

  /** The note_on deltas of the whole track telescope to the last hit's tick. */
  lemma {:induction false} NoteOnDeltasTelescope(tempo: int, ticks: seq<int>, off: int)
    ensures |NoteOnDeltas(NoteTrack(tempo, ticks, off))| == |ticks|
    ensures Sum(NoteOnDeltas(NoteTrack(tempo, ticks, off))) == PrevTick(ticks, |ticks|)
  {
    if ticks == [] {
      assert NoteTrack(tempo, ticks, off) == [SetTempo(tempo)];
      assert [SetTempo(tempo)][..0] == [];
    } else {
      var n := |ticks|;
      var init := ticks[..n - 1];
      assert ticks == init + [ticks[n - 1]];
      NoteOnDeltasTelescope(tempo, init, off);
      NoteTrackSnoc(tempo, init, ticks[n - 1], off);
      var t0 := NoteTrack(tempo, init, off);
      var on := NoteOn(Note, Velocity, ticks[n - 1] - PrevTick(init, n - 1));
      var t1 := t0 + [on];
      var t2 := t1 + [NoteOff(Note, Velocity, off)];
      assert NoteTrack(tempo, ticks, off) == t2;
      assert t2[..|t2| - 1] == t1;
      assert t1[..|t1| - 1] == t0;
      assert NoteOnDeltas(t2) == NoteOnDeltas(t0) + [on.time];
      assert (NoteOnDeltas(t0) + [on.time])[..n - 1] == NoteOnDeltas(t0);
    }
  }

  /** The sum of the first k note_on deltas equals the k-th hit's absolute tick. */
  lemma PrefixSumIsTick(tempo: int, ticks: seq<int>, off: int, k: nat)
    requires 1 <= k <= |ticks|
    ensures Sum(NoteOnDeltas(NoteTrack(tempo, ticks, off)[..1 + 2 * k])) == ticks[k - 1]
  {
    NoteTrackPrefix(tempo, ticks, off, k);
    NoteOnDeltasTelescope(tempo, ticks[..k], off);
  }

  lemma ScaleMonotone(a: real, b: real, c: real)
    requires a <= b && 0.0 <= c
    ensures a * c <= b * c
  {
  }

  /** A later time never gets an earlier tick. */
  lemma TickMonotone(x: real, y: real, tps: real)
    requires x <= y && 0.0 <= tps
    ensures Tick(x, tps) <= Tick(y, tps)
  {
    ScaleMonotone(x, y, tps);
    RoundMonotone(x * tps, y * tps);
  }

  /** Ascending, non-negative times give ticks that never fall below `last_tick`. */
  lemma AscendingTimesAscendingTicks(times: seq<real>, tps: real)
    requires tps > 0.0
    requires forall i :: 0 <= i < |times| ==> 0.0 <= times[i]
    requires forall i, j :: 0 <= i <= j < |times| ==> times[i] <= times[j]
    ensures var ticks := Ticks(times, tps);
      forall i :: 0 <= i < |times| ==> PrevTick(ticks, i) <= ticks[i]
  {
    var ticks := Ticks(times, tps);
    forall i | 0 <= i < |times|
      ensures PrevTick(ticks, i) <= ticks[i]
    {
      if i == 0 {
        TickMonotone(0.0, times[i], tps);
        assert Tick(0.0, tps) == 0;
      } else {
        TickMonotone(times[i - 1], times[i], tps);
      }
    }
  }

  /** Ascending hit times at a valid tempo give a track with no negative delta. */
  lemma AscendingTimesNonNegative(times: seq<real>, tempo: int)
    requires 0 < tempo <= MaxTempo
    requires forall i :: 0 <= i < |times| ==> 0.0 <= times[i]
    requires forall i, j :: 0 <= i <= j < |times| ==> times[i] <= times[j]
    ensures var track := MidiSpec(times, tempo).value.tracks[0];
      forall j :: 0 <= j < |track| ==> track[j].Delta() >= 0
  {
    var tps := TicksPerSecond(tempo);
    var ticks := Ticks(times, tps);
    var off := NoteOffDelta(tempo);
    RoundMonotone(0.0, 0.1 * tps);
    assert Round(0.0) == 0;
    assert off >= 0;
    AscendingTimesAscendingTicks(times, tps);
    var track := NoteTrack(tempo, ticks, off);
    assert MidiSpec(times, tempo).value.tracks[0] == track;
    forall j | 1 <= j < |track|
      ensures track[j].Delta() >= 0
    {
      NoteTrackPair(tempo, ticks, off, (j - 1) / 2);
    }
  }

  /** Nothing orders the hits: a time before the previous one gives a negative delta. */
  lemma OutOfOrderGivesNegativeDelta()
    ensures MidiSpec([1.0, 0.5], 500000).value.tracks[0][3] == NoteOn(Note, Velocity, -480)
  {
  }

  /** Every delta of a track is non-negative, as a Standard MIDI File needs. */
  ghost predicate Writable(track: seq<Message>)
  {
    forall j :: 0 <= j < |track| ==> track[j].Delta() >= 0
  }

  /** For every input, a tick below `last_tick` gives its note_on a negative delta. */
  lemma TickBelowLastGivesNegativeDelta(tempo: int, ticks: seq<int>, off: int, i: nat)
    requires i < |ticks| && ticks[i] < PrevTick(ticks, i)
    ensures NoteTrack(tempo, ticks, off)[1 + 2 * i].Delta() < 0
  {
    NoteTrackPair(tempo, ticks, off, i);
  }

  /** As written, with a non-negative note length, the track has no negative
      delta exactly when every tick is at least `last_tick`. */
  lemma NoteTrackWritableIff(tempo: int, ticks: seq<int>, off: int)
    requires off >= 0
    ensures Writable(NoteTrack(tempo, ticks, off)) <==>
      forall i :: 0 <= i < |ticks| ==> PrevTick(ticks, i) <= ticks[i]
  {
    var track := NoteTrack(tempo, ticks, off);
    if forall i :: 0 <= i < |ticks| ==> PrevTick(ticks, i) <= ticks[i] {
      forall j | 1 <= j < |track|
        ensures track[j].Delta() >= 0
      {
        NoteTrackPair(tempo, ticks, off, (j - 1) / 2);
      }
    } else {
      var i :| 0 <= i < |ticks| && ticks[i] < PrevTick(ticks, i);
      TickBelowLastGivesNegativeDelta(tempo, ticks, off, i);
    }
  }

  /** With 480 ticks per beat at 500000 microseconds per beat, a hit at one
      second is at tick 960 and each note lasts 96 ticks. */
  lemma TempoExample()
    ensures TicksPerSecond(500000) == 960.0
    ensures Tick(1.0, TicksPerSecond(500000)) == 960
    ensures NoteOffDelta(500000) == 96
  {
  }

  /** No hit times: the track holds the tempo alone. */
  lemma EmptyTimesTempoOnly(tempo: int)
    requires 0 < tempo <= MaxTempo
    ensures MidiSpec([], tempo) == Ok(MidiFile(TicksPerBeat, [[SetTempo(tempo)]]))
  {
    assert NoteTrack(tempo, [], NoteOffDelta(tempo)) == [SetTempo(tempo)];
  }

  lemma ElapsedSnoc(track: seq<Message>, m: Message)
    ensures Elapsed(track + [m]) == Elapsed(track) + m.Delta()
  {
  }

  lemma MulSucc(n: int, c: int)
    ensures (n - 1) * c + c == n * c
  {
  }

  /** As written, every note_off delta counts in the file's timeline but not in
      `last_tick`: the track lasts its last tick plus one note length per hit. */
  lemma {:induction false} NoteTrackElapsed(tempo: int, ticks: seq<int>, off: int)
    ensures Elapsed(NoteTrack(tempo, ticks, off)) == PrevTick(ticks, |ticks|) + |ticks| * off
  {
    if ticks == [] {
      assert NoteTrack(tempo, ticks, off) == [SetTempo(tempo)];
      assert [SetTempo(tempo)][..0] == [];
    } else {
      var n := |ticks|;
      var init := ticks[..n - 1];
      var x := ticks[n - 1];
      assert ticks == init + [x];
      NoteTrackElapsed(tempo, init, off);
      NoteTrackSnoc(tempo, init, x, off);
      var t0 := NoteTrack(tempo, init, off);
      var on := NoteOn(Note, Velocity, x - PrevTick(init, n - 1));
      var t1 := t0 + [on];
      ElapsedSnoc(t0, on);
      ElapsedSnoc(t1, NoteOff(Note, Velocity, off));
      assert t1 + [NoteOff(Note, Velocity, off)] == NoteTrack(tempo, ticks, off);
      MulSucc(n, off);
    }
  }

  /** As written, the k-th note_on lies at its tick plus k note lengths. */
  lemma NoteOnDrifts(tempo: int, ticks: seq<int>, off: int, k: nat)
    requires k < |ticks|
    ensures Elapsed(NoteTrack(tempo, ticks, off)[..2 + 2 * k]) == ticks[k] + k * off
  {
    var track := NoteTrack(tempo, ticks, off);
    NoteTrackPrefix(tempo, ticks, off, k);
    NoteTrackElapsed(tempo, ticks[..k], off);
    assert track[..2 + 2 * k][..1 + 2 * k] == track[..1 + 2 * k];
    assert PrevTick(ticks[..k], k) == PrevTick(ticks, k);
  }

  /** Hits at 0 s and 1 s at 500000 microseconds per beat: the second note_on
      is read at tick 1056, not at its tick 960. */
  lemma DriftExample()
    ensures var track := MidiSpec([0.0, 1.0], 500000).value.tracks[0];
      Ticks([0.0, 1.0], TicksPerSecond(500000)) == [0, 960] &&
      Elapsed(track[..4]) == 1056
  {
    TempoExample();
    assert Round(0.0 * 960.0) == 0;
    var ticks := Ticks([0.0, 1.0], TicksPerSecond(500000));
    assert ticks == [0, 960];
    NoteOnDrifts(500000, ticks, 96, 1);
  }

  /** The evidently intended layout. Each note_on lies at its own tick, and each
      note lasts the fixed note length but never past the next hit: a note
      followed sooner is cut short, so the events stay in time order. */
  function NoteLength(ticks: seq<int>, i: nat, off: int): int
    requires i < |ticks|
  {
    if i + 1 < |ticks| && ticks[i + 1] - ticks[i] < off then ticks[i + 1] - ticks[i] else off
  }

  /** A note lasts the smaller of the fixed note length and the gap to the next hit. */
  lemma NoteLengthIsMin(ticks: seq<int>, i: nat, off: int)
    requires i < |ticks|
    ensures NoteLength(ticks, i, off) <= off
    ensures i + 1 < |ticks| ==> NoteLength(ticks, i, off) <= ticks[i + 1] - ticks[i]
    ensures NoteLength(ticks, i, off) == off ||
            (i + 1 < |ticks| && NoteLength(ticks, i, off) == ticks[i + 1] - ticks[i])
  {
  }

  /** Where the note before hit i ends: the reference for hit i's delta. */
  function AlignedPrev(ticks: seq<int>, i: nat, off: int): int
    requires i <= |ticks|
  {
    if i == 0 then 0 else ticks[i - 1] + NoteLength(ticks, i - 1, off)
  }

  function AlignedTrack(tempo: int, ticks: seq<int>, off: int): (track: seq<Message>)
    ensures |track| == 1 + 2 * |ticks| && track[0] == SetTempo(tempo)
  {
    [SetTempo(tempo)] +
    seq(2 * |ticks|, j requires 0 <= j < 2 * |ticks| =>
      if j % 2 == 0 then NoteOn(Note, Velocity, ticks[j / 2] - AlignedPrev(ticks, j / 2, off))
      else NoteOff(Note, Velocity, NoteLength(ticks, j / 2, off)))
  }

  /** In the corrected layout, hit i gives a note_on at position 1 + 2i, measured
      from the end of the previous note, and then a note_off of its note length. */
  lemma AlignedTrackPair(tempo: int, ticks: seq<int>, off: int, i: nat)
    requires i < |ticks|
    ensures var track := AlignedTrack(tempo, ticks, off);
      track[1 + 2 * i] == NoteOn(Note, Velocity, ticks[i] - AlignedPrev(ticks, i, off)) &&
      track[2 + 2 * i] == NoteOff(Note, Velocity, NoteLength(ticks, i, off))
  {
    assert (2 * i) / 2 == i && (2 * i) % 2 == 0;
    assert (2 * i + 1) / 2 == i && (2 * i + 1) % 2 == 1;
  }

  /** The time a reader gives message j is the time of message j - 1 plus j's delta. */
  lemma ElapsedPrefix(track: seq<Message>, j: nat)
    requires j < |track|
    ensures Elapsed(track[..j + 1]) == Elapsed(track[..j]) + track[j].Delta()
  {
    assert track[..j + 1][..j] == track[..j];
  }

  /** Two more messages move the reader's time on by both of their deltas. */
  lemma ElapsedPair(track: seq<Message>, j: nat)
    requires j + 2 <= |track|
    ensures Elapsed(track[..j + 2]) == Elapsed(track[..j]) + track[j].Delta() + track[j + 1].Delta()
  {
    ElapsedPrefix(track, j);
    ElapsedPrefix(track, j + 1);
  }

  /** In the corrected layout, the messages before hit k end where note k - 1 ends. */
  lemma {:induction false} AlignedPrefixElapsed(tempo: int, ticks: seq<int>, off: int, k: nat)
    requires k <= |ticks|
    ensures Elapsed(AlignedTrack(tempo, ticks, off)[..1 + 2 * k]) == AlignedPrev(ticks, k, off)
  {
    var track := AlignedTrack(tempo, ticks, off);
    if k == 0 {
      ElapsedPrefix(track, 0);
      assert track[..0] == [];
    } else {
      var m := k - 1;
      AlignedPrefixElapsed(tempo, ticks, off, m);
      AlignedTrackPair(tempo, ticks, off, m);
      ElapsedPair(track, 1 + 2 * m);
      assert 1 + 2 * m + 2 == 1 + 2 * k && 1 + 2 * m + 1 == 2 + 2 * m;
      assert AlignedPrev(ticks, k, off) == ticks[m] + NoteLength(ticks, m, off);
    }
  }

  /** Corrected: the k-th note_on is read exactly at the k-th hit's tick, and its
      note_off one note length later, cut short only by a sooner next hit. */
  lemma AlignedNoteOnAtTick(tempo: int, ticks: seq<int>, off: int, k: nat)
    requires k < |ticks|
    ensures Elapsed(AlignedTrack(tempo, ticks, off)[..2 + 2 * k]) == ticks[k]
    ensures Elapsed(AlignedTrack(tempo, ticks, off)[..3 + 2 * k]) == ticks[k] + NoteLength(ticks, k, off)
    ensures k + 1 < |ticks| && ticks[k + 1] - ticks[k] >= off ==> NoteLength(ticks, k, off) == off
    ensures k + 1 == |ticks| ==> NoteLength(ticks, k, off) == off
  {
    var track := AlignedTrack(tempo, ticks, off);
    AlignedPrefixElapsed(tempo, ticks, off, k);
    AlignedTrackPair(tempo, ticks, off, k);
    ElapsedPrefix(track, 1 + 2 * k);
    ElapsedPrefix(track, 2 + 2 * k);
  }

  /** Corrected: hits whose ticks ascend from 0, and a non-negative note length,
      give a track with no negative delta, however close the hits are. */
  lemma AlignedTrackWritable(tempo: int, ticks: seq<int>, off: int)
    requires off >= 0
    requires forall i :: 0 <= i < |ticks| ==> PrevTick(ticks, i) <= ticks[i]
    ensures Writable(AlignedTrack(tempo, ticks, off))
  {
    var track := AlignedTrack(tempo, ticks, off);
    forall j | 1 <= j < |track|
      ensures track[j].Delta() >= 0
    {
      var i := (j - 1) / 2;
      if i > 0 {
        assert PrevTick(ticks, i) <= ticks[i];
      }
      if i + 1 < |ticks| {
        assert PrevTick(ticks, i + 1) <= ticks[i + 1];
      }
    }
  }

  /** Corrected, from the hit times: ascending non-negative times at a valid tempo
      give a writable track. */
  lemma AlignedAscendingTimesWritable(times: seq<real>, tempo: int)
    requires 0 < tempo <= MaxTempo
    requires forall i :: 0 <= i < |times| ==> 0.0 <= times[i]
    requires forall i, j :: 0 <= i <= j < |times| ==> times[i] <= times[j]
    ensures Writable(AlignedTrack(tempo, Ticks(times, TicksPerSecond(tempo)), NoteOffDelta(tempo)))
  {
    var tps := TicksPerSecond(tempo);
    TickMonotone(0.0, 0.1, tps);
    RoundMonotone(0.0, 0.1 * tps);
    assert Round(0.0) == 0;
    AscendingTimesAscendingTicks(times, tps);
    AlignedTrackWritable(tempo, Ticks(times, tps), NoteOffDelta(tempo));
  }

  /** Two hits half a note length apart at 500000 microseconds per beat: the
      first note is cut to 48 ticks and every delta stays non-negative. */
  lemma AlignedCloseHitsExample()
    ensures AlignedTrack(500000, [0, 48], 96) ==
      [SetTempo(500000), NoteOn(Note, Velocity, 0), NoteOff(Note, Velocity, 48),
       NoteOn(Note, Velocity, 0), NoteOff(Note, Velocity, 96)]
  {
  }
}
