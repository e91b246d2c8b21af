/** The labelling and per-label export of frontend.py: each row of classifier
    probabilities gets the label of its first maximum and that maximum as its
    confidence, and the hit times are split into one note track per label. */
module Frontend {
  import opened Results
  import MidiGen

  /** A drum-hit category name, as the configured index maps column numbers to them. */
  type Label = string

  /** How many labels the export loop visits: `range(1, 7)`. */
  const ExportedLabels: nat := 6

  datatype FrontendError =
    | EmptyArgmax                       // np.argmax over rows with no column
    | MissingLabel(key: nat)            // index[key] is not configured
    | Midi(error: MidiGen.MidiError)    // create_midi raised

  ghost predicate Distinct(labels: seq<Label>)
  {
    forall i, j :: 0 <= i < j < |labels| ==> labels[i] != labels[j]
  }

  /** Every row has one probability per configured label. */
  ghost predicate Rectangular(probs: seq<seq<real>>, width: nat)
  {
    forall i :: 0 <= i < |probs| ==> |probs[i]| == width
  }

  /** `k` is where numpy's argmax lands: a maximum of `row`, and the first one. */
  ghost predicate IsFirstMax(row: seq<real>, k: int)
  {
    0 <= k < |row| &&
    (forall j :: 0 <= j < |row| ==> row[j] <= row[k]) &&
    (forall j :: 0 <= j < k ==> row[j] < row[k])
  }

  /** np.argmax of one row: the first index of the maximum. */
  function ArgMax(row: seq<real>): (k: nat)
    requires |row| > 0
    ensures IsFirstMax(row, k)
  {
    if |row| == 1 then 0
    else
      var k := ArgMax(row[..|row| - 1]);
      if row[|row| - 1] > row[k] then |row| - 1 else k
  }

  /** The first maximum is unique, so the label it selects is determined. */
  lemma FirstMaxUnique(row: seq<real>, k1: int, k2: int)
    requires IsFirstMax(row, k1) && IsFirstMax(row, k2)
    ensures k1 == k2
  {
    assert row[k1] == row[k2];
  }

  /** The `labelled_preds` comprehension: for every row, in row order, the label of
      the column its first maximum is in. With no column, argmax raises. */
  function Labels(probs: seq<seq<real>>, index: seq<Label>): (r: Result<seq<Label>, FrontendError>)
    requires Rectangular(probs, |index|)
    ensures r.Err? <==> |index| == 0
    ensures r.Ok? ==> |r.value| == |probs|
    ensures r.Ok? ==> forall i :: 0 <= i < |probs| ==> r.value[i] in index
    ensures r.Ok? ==> forall i, k :: 0 <= i < |probs| && IsFirstMax(probs[i], k) ==> r.value[i] == index[k]
  {
    if |index| == 0 then Err(EmptyArgmax)
    else Ok(seq(|probs|, i requires 0 <= i < |probs| => index[ArgMax(probs[i])]))
  }

  /** The column a label names: its first position in the index. */
  function ColumnOf(index: seq<Label>, name: Label): (k: nat)
    requires name in index
    ensures k < |index| && index[k] == name
    ensures forall j :: 0 <= j < k ==> index[j] != name
  {
    if index[0] == name then 0 else 1 + ColumnOf(index[1..], name)
  }

  /** `x[x['prediction']]`: the row's probability in the column of its label. */
  function Confidence(row: seq<real>, index: seq<Label>, name: Label): (c: real)
    requires |row| == |index| && name in index
    ensures c in row
    ensures Distinct(index) ==> forall k :: 0 <= k < |index| && index[k] == name ==> c == row[k]
  {
    row[ColumnOf(index, name)]
  }

  /** With distinct labels, the confidence of the predicted label is the row's
      maximum, read at the argmax column. */
  lemma ConfidenceIsRowMax(row: seq<real>, index: seq<Label>)
    requires |row| == |index| > 0 && Distinct(index)
    ensures var c := Confidence(row, index, index[ArgMax(row)]);
      c == row[ArgMax(row)] &&
      c in row &&
      forall j :: 0 <= j < |row| ==> row[j] <= c
  {
  }

  /** The predictions table of frontend.py: probability columns and times, to
      which the prediction and confidence columns are added in place. */
  class PredictionTable {
    const columns: seq<Label>
    var times: seq<real>
    var probs: seq<seq<real>>
    var prediction: seq<Label>
    var confidence: seq<real>

    ghost predicate Valid()
      reads this
    {
      |probs| == |times| && Rectangular(probs, |columns|) && Distinct(columns)
    }

    constructor (columns: seq<Label>, probs: seq<seq<real>>, times: seq<real>)
      requires |probs| == |times| && Rectangular(probs, |columns|) && Distinct(columns)
      ensures Valid()
      ensures this.columns == columns && this.probs == probs && this.times == times
      ensures prediction == [] && confidence == []
    {
      this.columns := columns;
      this.probs := probs;
      this.times := times;
      prediction := [];
      confidence := [];
    }

    /** Assign the prediction and confidence columns. When argmax raises
        (no label column), nothing is assigned. */
    method AssignPredictions() returns (ok: bool)
      requires Valid()
      modifies this
      ensures Valid()
      ensures times == old(times) && probs == old(probs)
      ensures ok <==> |columns| > 0
      ensures !ok ==> prediction == old(prediction) && confidence == old(confidence)
      ensures ok ==> Labels(probs, columns) == Ok(prediction)
      ensures ok ==> |confidence| == |probs|
      ensures ok ==> forall i, k :: 0 <= i < |probs| && IsFirstMax(probs[i], k) ==>
        prediction[i] == columns[k] && confidence[i] == probs[i][k]
      ensures ok ==> forall i, j :: 0 <= i < |probs| && 0 <= j < |columns| ==> probs[i][j] <= confidence[i]
    {
      var labelled := Labels(probs, columns);
      if labelled.Err? {
        return false;
      }
      var rows, labels := probs, labelled.value;
      prediction := labels;
      confidence := seq(|rows|, i requires 0 <= i < |rows| => Confidence(rows[i], columns, labels[i]));
      forall i | 0 <= i < |rows|
        ensures confidence[i] == rows[i][ArgMax(rows[i])]
      {
        ConfidenceIsRowMax(rows[i], columns);
      }
      ok := true;
    }
  }

  /** The rows whose prediction is `label`, in row order. */
  function HitRows(preds: seq<Label>, name: Label): (rows: seq<nat>)
    ensures forall j :: 0 <= j < |rows| ==> rows[j] < |preds| && preds[rows[j]] == name
    ensures forall j, j' :: 0 <= j < j' < |rows| ==> rows[j] < rows[j']
    ensures forall i :: 0 <= i < |preds| && preds[i] == name ==> i in rows
  {
    if preds == [] then []
    else
      var n := |preds|;
      HitRows(preds[..n - 1], name) + (if preds[n - 1] == name then [n - 1] else [])
  }

  /** `hit_times`: the time column of the rows predicted as `label`, in row order. */
  function HitTimes(times: seq<real>, preds: seq<Label>, name: Label): (hits: seq<real>)
    requires |times| == |preds|
    ensures var rows := HitRows(preds, name);
      |hits| == |rows| && forall j :: 0 <= j < |rows| ==> hits[j] == times[rows[j]]
  {
    if times == [] then []
    else
      var n := |times|;
      var earlier := HitTimes(times[..n - 1], preds[..n - 1], name);
      assert HitRows(preds, name) ==
        HitRows(preds[..n - 1], name) + (if preds[n - 1] == name then [n - 1] else []);
      earlier + (if preds[n - 1] == name then [times[n - 1]] else [])
  }

  /** How often `x` occurs among `labels`. */
  function CountIn(labels: seq<Label>, x: Label): nat
  {
    if labels == [] then 0 else (if labels[0] == x then 1 else 0) + CountIn(labels[1..], x)
  }

  lemma {:induction false} CountInDistinct(labels: seq<Label>, x: Label)
    requires Distinct(labels)
    ensures CountIn(labels, x) == if x in labels then 1 else 0
  {
    if labels != [] {
      CountInDistinct(labels[1..], x);
      if labels[0] == x {
        assert x !in labels[1..] by {
          forall j | 0 <= j < |labels| - 1
            ensures labels[1..][j] != x
          {
            assert labels[0] != labels[j + 1];
          }
        }
      }
    }
  }

  /** The total number of hit times over the tracks of `labels`. */
  function TotalHits(times: seq<real>, preds: seq<Label>, labels: seq<Label>): nat
    requires |times| == |preds|
  {
    if labels == [] then 0
    else |HitTimes(times, preds, labels[0])| + TotalHits(times, preds, labels[1..])
  }

  /** The number of rows whose prediction is one of `labels`. */
  function RowsIn(preds: seq<Label>, labels: seq<Label>): nat
  {
    if preds == [] then 0
    else RowsIn(preds[..|preds| - 1], labels) + (if preds[|preds| - 1] in labels then 1 else 0)
  }

  lemma {:induction false} TotalHitsSnoc(times: seq<real>, preds: seq<Label>, labels: seq<Label>)
    requires |times| == |preds| > 0
    ensures var n := |times|;
      TotalHits(times, preds, labels) ==
      TotalHits(times[..n - 1], preds[..n - 1], labels) + CountIn(labels, preds[n - 1])
  {
    if labels != [] {
      TotalHitsSnoc(times, preds, labels[1..]);
    }
  }

  /** Over distinct labels, every row whose prediction is among them is counted
      in exactly one of their tracks. */
  lemma {:induction false} TotalHitsCountsRows(times: seq<real>, preds: seq<Label>, labels: seq<Label>)
    requires |times| == |preds|
    requires Distinct(labels)
    ensures TotalHits(times, preds, labels) == RowsIn(preds, labels)
  {
    if times == [] {
      TotalHitsEmpty(times, preds, labels);
    } else {
      var n := |times|;
      TotalHitsSnoc(times, preds, labels);
      TotalHitsCountsRows(times[..n - 1], preds[..n - 1], labels);
      CountInDistinct(labels, preds[n - 1]);
    }
  }

  lemma {:induction false} TotalHitsEmpty(times: seq<real>, preds: seq<Label>, labels: seq<Label>)
    requires |times| == |preds| == 0
    ensures TotalHits(times, preds, labels) == 0
  {
    if labels != [] {
      TotalHitsEmpty(times, preds, labels[1..]);
    }
  }

  /** When every prediction is one of the labels, all rows are counted. */
  lemma {:induction false} RowsInAll(preds: seq<Label>, labels: seq<Label>)
    requires forall i :: 0 <= i < |preds| ==> preds[i] in labels
    ensures RowsIn(preds, labels) == |preds|
  {
    if preds != [] {
      RowsInAll(preds[..|preds| - 1], labels);
    }
  }

  /** One exported label: its name, its hit times and the MIDI file made of them. */
  datatype LabelTrack = LabelTrack(name: Label, hits: seq<real>, midi: MidiGen.MidiFile)

  function Export(times: seq<real>, preds: seq<Label>, name: Label, tempo: int): (t: LabelTrack)
    requires |times| == |preds|
    requires MidiGen.TempoCheck(tempo).None?
    ensures t.name == name && t.hits == HitTimes(times, preds, name)
    ensures MidiGen.MidiSpec(t.hits, tempo) == Ok(t.midi)
    ensures |t.midi.tracks| == 1 && |t.midi.tracks[0]| == 1 + 2 * |HitRows(preds, name)|
  {
    var hits := HitTimes(times, preds, name);
    LabelTrack(name, hits, MidiGen.MidiSpec(hits, tempo).value)
  }

  /** What the export loop produces: the tracks of index[0] .. index[5], or the
      first error it meets (a missing index key, or create_midi failing, which
      happens on the first label or not at all). */
  function ExportSpec(times: seq<real>, preds: seq<Label>, index: seq<Label>, tempo: int)
    : (r: Result<seq<LabelTrack>, FrontendError>)
    requires |times| == |preds|
    ensures r.Ok? <==> |index| >= ExportedLabels && MidiGen.TempoCheck(tempo).None?
    ensures r.Ok? ==> |r.value| == ExportedLabels
  {
    if |index| == 0 then Err(MissingLabel(0))
    else
      match MidiGen.TempoCheck(tempo)
      case Some(e) => Err(Midi(e))
      case None =>
        if |index| < ExportedLabels then Err(MissingLabel(|index|))
        else Ok(seq(ExportedLabels, k requires 0 <= k < ExportedLabels => Export(times, preds, index[k], tempo)))
  }

  /** The `for i in range(1, 7)` loop: select each label's hit times and build
      its MIDI file. Plotting and the file paths are not modelled. */
  method ExportTracks(times: seq<real>, preds: seq<Label>, index: seq<Label>, tempo: int)
    returns (r: Result<seq<LabelTrack>, FrontendError>)
    requires |times| == |preds|
    ensures r == ExportSpec(times, preds, index, tempo)
  {
    var tracks: seq<LabelTrack> := [];
    for i := 1 to ExportedLabels + 1
      invariant |tracks| == i - 1 <= |index|
      invariant i > 1 ==> MidiGen.TempoCheck(tempo).None?
      invariant forall k :: 0 <= k < i - 1 ==> tracks[k] == Export(times, preds, index[k], tempo)
    {
      if i - 1 >= |index| {
        return Err(MissingLabel(i - 1));
      }
      var labelName := index[i - 1];
      var hitTimes := HitTimes(times, preds, labelName);
      var midi := MidiGen.CreateMidi(hitTimes, tempo);
      if midi.Err? {
        return Err(Midi(midi.error));
      }
      tracks := tracks + [LabelTrack(labelName, hitTimes, midi.value)];
    }
    assert tracks == seq(ExportedLabels, k requires 0 <= k < ExportedLabels => Export(times, preds, index[k], tempo));
    return Ok(tracks);
  }

  /** With exactly the six labels the loop visits, all distinct, and predictions
      drawn from them, the tracks split the rows: the hit counts add up to the
      number of rows. */
  lemma ExportPartitionsRows(times: seq<real>, preds: seq<Label>, index: seq<Label>, tempo: int)
    requires |times| == |preds|
    requires |index| == ExportedLabels && Distinct(index)
    requires forall i :: 0 <= i < |preds| ==> preds[i] in index
    requires MidiGen.TempoCheck(tempo).None?
    ensures var tracks := ExportSpec(times, preds, index, tempo).value;
      TotalHits(times, preds, index) == |times| &&
      forall k :: 0 <= k < ExportedLabels ==> tracks[k].hits == HitTimes(times, preds, index[k])
  {
    TotalHitsCountsRows(times, preds, index);
    RowsInAll(preds, index);
  }

  /** Each row lands in the track of its own label and in no other. */
  lemma EachRowInOneTrack(preds: seq<Label>, index: seq<Label>, i: nat)
    requires Distinct(index)
    requires i < |preds| && preds[i] in index
    ensures var k := ColumnOf(index, preds[i]);
      i in HitRows(preds, index[k]) &&
      forall k' :: 0 <= k' < |index| && k' != k ==> i !in HitRows(preds, index[k'])
  {
  }

  /** End to end: labelling the rows and exporting the six configured labels
      puts every row's time into the track of its label, none lost, none twice. */
  lemma LabelledRowsPartition(probs: seq<seq<real>>, times: seq<real>, index: seq<Label>, tempo: int)
    requires |probs| == |times| && Rectangular(probs, |index|)
    requires |index| == ExportedLabels && Distinct(index)
    requires MidiGen.TempoCheck(tempo).None?
    ensures var preds := Labels(probs, index).value;
      ExportSpec(times, preds, index, tempo).Ok? &&
      TotalHits(times, preds, index) == |times|
  {
    var preds := Labels(probs, index).value;
    ExportPartitionsRows(times, preds, index, tempo);
  }
}
