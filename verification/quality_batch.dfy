/** The batch driver `evaluate_videos_quality`: list the download
    directory, keep the ".mp4" entries, run the three traditional analysers
    and the learned scorer on each, and write all records once at the end.

    Decoding, the numeric kernels and the learned scorer arrive as an
    `Analysers` value; the directory listing is a parameter; printing and
    the final JSON write are events of the returned trace. */
module QualityBatch {
  import opened Results
  import opened Sequences
  import opened Strings
  import opened VideoQuality

  /** The four metrics of a record. */
  datatype MetricName = Laplacian | StructuralSimilarity | PeakSignalToNoise | SimpleVqa

  /** The JSON key each metric is written under (the misspelling is the
      program's own). The key names its metric back, so no two metrics
      share a key. */
  function JsonKey(name: MetricName): (key: string)
    ensures ParseKey(key) == Some(name)
  {
    match name
    case Laplacian => "laplacian"
    case StructuralSimilarity => "structural_similarty"
    case PeakSignalToNoise => "peak_signal_to_noise_ratio"
    case SimpleVqa => "simple_VQA"
  }

  /** The metric a JSON key stands for, if any. */
  function ParseKey(key: string): Option<MetricName> {
    if key == "laplacian" then Some(Laplacian)
    else if key == "structural_similarty" then Some(StructuralSimilarity)
    else if key == "peak_signal_to_noise_ratio" then Some(PeakSignalToNoise)
    else if key == "simple_VQA" then Some(SimpleVqa)
    else None
  }

  /** One metric entry: `{"quality_score", "quality"}` or `{"quality_score"}`. */
  datatype Metric = Classified(score: Score, quality: Label) | ScoreOnly(score: Score)

  /** `{video: {metric name: metric entry}}`. */
  datatype Record = Record(video: string, metrics: map<MetricName, Metric>)

  /** Everything the driver calls but does not define: `open` decodes the
      entry of that name in the download directory, `vqa` is
      `simple_vqa_infer`, which may raise (`None`). */
  datatype Analysers = Analysers(
    open: string -> DecodedVideo,
    variance: Frame -> real,
    ssim: (Frame, Frame) -> real,
    decibels: real -> real,
    vqa: string -> Option<real>)

  /** The exceptions that end a batch. */
  datatype BatchError =
    | ListingFailed
    | AnalysisFailed(video: string, cause: VideoError)
    | InferenceFailed(video: string)

  /** What the driver does observably: a progress line per video, and the
      one `save_json` call. */
  datatype Event = Progress(ordinal: nat) | Write(records: seq<Record>)

  /** The events of a run, and the exception that ended it, if any. */
  datatype BatchRun = BatchRun(events: seq<Event>, failure: Option<BatchError>)

  function MetricEntry(a: Assessment): Metric {
    Classified(a.score, a.quality)
  }

  /** A record's metrics as the JSON object they are written as: each
      metric under its key, and no other key. */
  function JsonMetrics(metrics: map<MetricName, Metric>): (json: map<string, Metric>)
    ensures forall name :: name in metrics ==> JsonKey(name) in json && json[JsonKey(name)] == metrics[name]
    ensures forall key :: key in json ==> ParseKey(key).Some? && ParseKey(key).value in metrics
  {
    map name | name in metrics :: JsonKey(name) := metrics[name]
  }

  /** The four metrics every record holds. */
  const AllMetrics: set<MetricName> := {Laplacian, StructuralSimilarity, PeakSignalToNoise, SimpleVqa}

  /** The `video_quality` dictionary of one video. */
  function MakeRecord(name: string, lap: Assessment, ss: Assessment, ps: Assessment, vqa: real): (r: Record)
    ensures r.video == name && r.metrics.Keys == AllMetrics
    ensures r.metrics[Laplacian] == Classified(lap.score, lap.quality)
    ensures r.metrics[StructuralSimilarity] == Classified(ss.score, ss.quality)
    ensures r.metrics[PeakSignalToNoise] == Classified(ps.score, ps.quality)
    ensures r.metrics[SimpleVqa] == ScoreOnly(Finite(vqa))
    ensures JsonMetrics(r.metrics).Keys ==
      {"laplacian", "structural_similarty", "peak_signal_to_noise_ratio", "simple_VQA"}
  {
    Record(name, map[
      Laplacian := MetricEntry(lap),
      StructuralSimilarity := MetricEntry(ss),
      PeakSignalToNoise := MetricEntry(ps),
      SimpleVqa := ScoreOnly(Finite(vqa))])
  }

  /** The record of one video: the four analysers run on the same path, in
      source order, and the first exception is the video's error. */
  function EvaluateVideo(env: Analysers, name: string): (r: Result<Record, BatchError>)
    ensures r.Success? <==> LaplacianQuality(env.open(name), env.variance).Success? && env.vqa(name).Some?
    ensures r.Failure? ==> !r.error.ListingFailed? && r.error.video == name
    ensures r.Success? ==> r.value == MakeRecord(name,
      LaplacianQuality(env.open(name), env.variance).value,
      SsimQuality(env.open(name), env.ssim, SsimThreshold),
      PsnrQuality(env.open(name), env.decibels, PsnrThreshold),
      env.vqa(name).value)
    ensures r.Success? ==> WellShaped(r.value)
  {
    match LaplacianQuality(env.open(name), env.variance)
    case Failure(cause) => Failure(AnalysisFailed(name, cause))
    case Success(lap) =>
      var ss := SsimQuality(env.open(name), env.ssim, SsimThreshold);
      var ps := PsnrQuality(env.open(name), env.decibels, PsnrThreshold);
      match env.vqa(name)
      case None => Failure(InferenceFailed(name))
      case Some(score) =>
        MakeRecordShape(name, lap, ss, ps, score);
        Success(MakeRecord(name, lap, ss, ps, score))
  }

  /** The threshold a classified metric's label is measured against; the
      learned score has none. */
  function ThresholdOf(name: MetricName): real
    requires name != SimpleVqa
  {
    match name
    case Laplacian => LaplacianThreshold
    case StructuralSimilarity => SsimThreshold
    case PeakSignalToNoise => PsnrThreshold
  }

  /** Every record has exactly the four metrics; the three traditional ones
      carry a label that is "Clear" exactly when their own score beats their
      own threshold, and the learned score carries no label. */
  predicate WellShaped(rec: Record) {
    && |rec.metrics| == 4
    && (forall key :: key in rec.metrics ==> (rec.metrics[key].Classified? <==> key != SimpleVqa))
    && (forall key :: key in rec.metrics && rec.metrics[key].Classified? && key != SimpleVqa ==>
          (rec.metrics[key].quality == Clear <==> Exceeds(rec.metrics[key].score, ThresholdOf(key))))
  }

  /** A record built from assessments that label against the metric
      thresholds is well shaped. */
  lemma MakeRecordShape(name: string, lap: Assessment, ss: Assessment, ps: Assessment, vqa: real)
    requires lap.quality == Clear <==> Exceeds(lap.score, LaplacianThreshold)
    requires ss.quality == Clear <==> Exceeds(ss.score, SsimThreshold)
    requires ps.quality == Clear <==> Exceeds(ps.score, PsnrThreshold)
    ensures WellShaped(MakeRecord(name, lap, ss, ps, vqa))
  {
    var m := MakeRecord(name, lap, ss, ps, vqa).metrics;
    assert |AllMetrics| == 4;
    forall key | key in m
      ensures m[key].Classified? <==> key != SimpleVqa
      ensures m[key].Classified? ==> (m[key].quality == Clear <==> Exceeds(m[key].score, ThresholdOf(key)))
    {
      match key
      case Laplacian =>
      case StructuralSimilarity =>
      case PeakSignalToNoise =>
      case SimpleVqa =>
    }
  }

  // ---------------------------------------------------------------------
  // The loop over the directory listing
  // ---------------------------------------------------------------------

  /** The per-video step of the driver's loop. */
  function Evaluator(env: Analysers): string -> Result<Record, BatchError> {
    name => EvaluateVideo(env, name)
  }

  /** The `(index, name)` of every ".mp4" entry at or after `from`, in
      listing order. */
  function VideoEntries(listing: seq<string>, from: nat): (entries: seq<(nat, string)>)
    requires from <= |listing|
    ensures forall k :: 0 <= k < |entries| ==>
      from <= entries[k].0 < |listing| && listing[entries[k].0] == entries[k].1 && IsVideoFile(entries[k].1)
    ensures forall k, j :: 0 <= k < j < |entries| ==> entries[k].0 < entries[j].0
    decreases |listing| - from
  {
    if from == |listing| then []
    else
      var rest := VideoEntries(listing, from + 1);
      if IsVideoFile(listing[from]) then [(from, listing[from])] + rest else rest
  }

  /** Every ".mp4" entry at or after `from` is among them: no video is
      skipped. */
  lemma {:induction false} VideoEntriesComplete(listing: seq<string>, from: nat)
    requires from <= |listing|
    ensures forall i :: from <= i < |listing| ==>
      (IsVideoFile(listing[i]) <==> (i, listing[i]) in VideoEntries(listing, from))
    decreases |listing| - from
  {
    if from < |listing| {
      VideoEntriesComplete(listing, from + 1);
    }
  }

  /** The names of `entries`. */
  function Names(entries: seq<(nat, string)>): (names: seq<string>)
    ensures |names| == |entries|
    ensures forall k :: 0 <= k < |entries| ==> names[k] == entries[k].1
  {
    if entries == [] then [] else [entries[0].1] + Names(entries[1..])
  }

  /** The progress lines for `entries`: ordinal = index in the full listing + 1. */
  function Announce(entries: seq<(nat, string)>): (events: seq<Event>)
    ensures |events| == |entries|
    ensures forall k :: 0 <= k < |entries| ==> events[k] == Progress(entries[k].0 + 1)
  {
    if entries == [] then [] else [Progress(entries[0].0 + 1)] + Announce(entries[1..])
  }

  predicate AllSucceed(evaluate: string -> Result<Record, BatchError>, entries: seq<(nat, string)>) {
    forall k :: 0 <= k < |entries| ==> evaluate(entries[k].1).Success?
  }

  /** The records of `entries`, which all evaluate successfully. */
  function RecordsOf(evaluate: string -> Result<Record, BatchError>, entries: seq<(nat, string)>): (records: seq<Record>)
    requires AllSucceed(evaluate, entries)
    ensures |records| == |entries|
    ensures forall k :: 0 <= k < |entries| ==> records[k] == evaluate(entries[k].1).value
  {
    if entries == [] then []
    else [evaluate(entries[0].1).value] + RecordsOf(evaluate, entries[1..])
  }

  /** Entry `k` is the first of `entries` whose evaluation fails. */
  predicate FirstFailure(evaluate: string -> Result<Record, BatchError>, entries: seq<(nat, string)>, k: nat) {
    && k < |entries|
    && evaluate(entries[k].1).Failure?
    && forall j :: 0 <= j < k ==> evaluate(entries[j].1).Success?
  }

  /** What the `for` loop leaves behind: its progress lines, the records
      it appended, and the exception that ended it, if any. */
  datatype LoopRun = LoopRun(events: seq<Event>, records: seq<Record>, failure: Option<BatchError>)

  /** The body of `for video_id, video in enumerate(videos)` over the
      ".mp4" entries (the `continue` on other entries is `VideoEntries`):
      announce the video, evaluate it, append its record; a failing video
      ends the loop after its progress line. */
  function EvaluateEntries(evaluate: string -> Result<Record, BatchError>, entries: seq<(nat, string)>): (run: LoopRun)
    ensures forall k :: 0 <= k < |run.events| ==> run.events[k].Progress?
  {
    if entries == [] then LoopRun([], [], None)
    else
      var announce := Progress(entries[0].0 + 1);
      match evaluate(entries[0].1)
      case Failure(err) => LoopRun([announce], [], Some(err))
      case Success(record) =>
        var rest := EvaluateEntries(evaluate, entries[1..]);
        LoopRun([announce] + rest.events, [record] + rest.records, rest.failure)
  }

  /** Announcing, succeeding and recording over an entry followed by more
      entries. */
  lemma EntriesCons(evaluate: string -> Result<Record, BatchError>, e: (nat, string), later: seq<(nat, string)>)
    ensures Announce([e] + later) == [Progress(e.0 + 1)] + Announce(later)
    ensures AllSucceed(evaluate, [e] + later) <==> evaluate(e.1).Success? && AllSucceed(evaluate, later)
    ensures AllSucceed(evaluate, [e] + later) ==>
      RecordsOf(evaluate, [e] + later) == [evaluate(e.1).value] + RecordsOf(evaluate, later)
  {
    var entries := [e] + later;
    assert entries[0] == e && entries[1..] == later;
    assert forall k :: 0 <= k < |later| ==> entries[k + 1] == later[k];
  }

  /** The loop completes exactly when every entry evaluates, and then it
      has announced each of them and appended each one's record, in
      order. */
  lemma {:induction false} EvaluateEntriesCompletes(evaluate: string -> Result<Record, BatchError>, entries: seq<(nat, string)>)
    ensures var run := EvaluateEntries(evaluate, entries);
      && (run.failure.None? <==> AllSucceed(evaluate, entries))
      && (run.failure.None? ==> run.events == Announce(entries) && run.records == RecordsOf(evaluate, entries))
  {
    if entries != [] {
      var e := entries[0];
      var later := entries[1..];
      assert entries == [e] + later;
      EntriesCons(evaluate, e, later);
      if evaluate(e.1).Success? {
        EvaluateEntriesCompletes(evaluate, later);
      }
    }
  }

  /** `run` ended at entry `k` of `entries`: the first to fail, with its
      error, after announcing exactly the entries up to and including it. */
  predicate StoppedAt(evaluate: string -> Result<Record, BatchError>, entries: seq<(nat, string)>,
                      events: seq<Event>, failure: Option<BatchError>, k: nat) {
    && FirstFailure(evaluate, entries, k)
    && failure == Some(evaluate(entries[k].1).error)
    && events == Announce(entries[..k + 1])
  }

  /** A video that evaluates, in front of entries whose run stopped at
      entry `k`, moves the stop to entry `k + 1`. */
  lemma StoppedAtCons(evaluate: string -> Result<Record, BatchError>, e: (nat, string),
                      later: seq<(nat, string)>, rest: LoopRun, k: nat)
    requires evaluate(e.1).Success?
    requires StoppedAt(evaluate, later, rest.events, rest.failure, k)
    ensures StoppedAt(evaluate, [e] + later, [Progress(e.0 + 1)] + rest.events, rest.failure, k + 1)
  {
    var entries := [e] + later;
    assert entries[..k + 2] == [e] + later[..k + 1];
    EntriesCons(evaluate, e, later[..k + 1]);
    assert entries[k + 1] == later[k];
    forall j | 0 <= j < k + 1
      ensures evaluate(entries[j].1).Success?
    {
      if j > 0 {
        assert entries[j] == later[j - 1];
      }
    }
  }

  /** A failed loop stopped at the first failing entry, with that entry's
      error, having announced exactly the entries up to it. */
  lemma {:induction false} EvaluateEntriesStops(evaluate: string -> Result<Record, BatchError>, entries: seq<(nat, string)>)
    requires EvaluateEntries(evaluate, entries).failure.Some?
    ensures var run := EvaluateEntries(evaluate, entries);
      exists k: nat :: StoppedAt(evaluate, entries, run.events, run.failure, k)
  {
    var run := EvaluateEntries(evaluate, entries);
    var e := entries[0];
    var later := entries[1..];
    assert entries == [e] + later;
    if evaluate(e.1).Failure? {
      assert entries[..1] == [e];
      assert StoppedAt(evaluate, entries, run.events, run.failure, 0);
    } else {
      var rest := EvaluateEntries(evaluate, later);
      EvaluateEntriesStops(evaluate, later);
      var k: nat :| StoppedAt(evaluate, later, rest.events, rest.failure, k);
      StoppedAtCons(evaluate, e, later, rest, k);
    }
  }

  /** `evaluate_videos_quality` with `evaluate` as the per-video step,
      given the listing of the download directory (`None` when
      `os.listdir` raises). There is no per-video error handling: the first
      failing video ends the batch, and the records are written exactly
      once, as the last event, only when every ".mp4" entry was
      evaluated. */
  function RunBatch(evaluate: string -> Result<Record, BatchError>, listing: Option<seq<string>>): (run: BatchRun)
    ensures listing.None? ==> run == BatchRun([], Some(ListingFailed))
    ensures listing.Some? ==>
      (run.failure.None? <==> AllSucceed(evaluate, VideoEntries(listing.value, 0)))
    ensures listing.Some? && run.failure.None? ==>
      var entries := VideoEntries(listing.value, 0);
      AllSucceed(evaluate, entries) && run.events == Announce(entries) + [Write(RecordsOf(evaluate, entries))]
    ensures forall k :: 0 <= k < |run.events| && run.events[k].Write? ==>
      run.failure.None? && k == |run.events| - 1
    ensures run.failure.None? ==> |run.events| > 0 && run.events[|run.events| - 1].Write?
    ensures listing.Some? && run.failure.Some? ==>
      exists k: nat :: StoppedAt(evaluate, VideoEntries(listing.value, 0), run.events, run.failure, k)
  {
    match listing
    case None => BatchRun([], Some(ListingFailed))
    case Some(names) =>
      var entries := VideoEntries(names, 0);
      var loop := EvaluateEntries(evaluate, entries);
      EvaluateEntriesCompletes(evaluate, entries);
      if loop.failure.None? then
        var events := loop.events + [Write(loop.records)];
        assert forall k :: 0 <= k < |loop.events| ==> events[k] == loop.events[k];
        BatchRun(events, None)
      else
        EvaluateEntriesStops(evaluate, entries);
        BatchRun(loop.events, loop.failure)
  }

  /** Every kept entry evaluates exactly when every ".mp4" name of the
      listing does. */
  lemma AllSucceedIffEveryVideo(evaluate: string -> Result<Record, BatchError>, listing: seq<string>)
    ensures AllSucceed(evaluate, VideoEntries(listing, 0)) <==>
      forall i :: 0 <= i < |listing| && IsVideoFile(listing[i]) ==> evaluate(listing[i]).Success?
  {
    var entries := VideoEntries(listing, 0);
    VideoEntriesComplete(listing, 0);
    if AllSucceed(evaluate, entries) {
      forall i | 0 <= i < |listing| && IsVideoFile(listing[i])
        ensures evaluate(listing[i]).Success?
      {
        var k :| 0 <= k < |entries| && entries[k] == (i, listing[i]);
      }
    }
  }

  /** Whatever every successful evaluation guarantees of its record holds
      of every record the batch writes. */
  lemma WrittenRecordsSatisfy(evaluate: string -> Result<Record, BatchError>, listing: Option<seq<string>>, ok: Record -> bool)
    requires forall name :: evaluate(name).Success? ==> ok(evaluate(name).value)
    ensures var run := RunBatch(evaluate, listing);
      forall k, j :: 0 <= k < |run.events| && run.events[k].Write? && 0 <= j < |run.events[k].records| ==>
        ok(run.events[k].records[j])
  {
    var run := RunBatch(evaluate, listing);
    if run.failure.None? {
      var entries := VideoEntries(listing.value, 0);
      assert run.events[|run.events| - 1] == Write(RecordsOf(evaluate, entries));
    }
  }

  /** `evaluate_videos_quality` itself: the batch over the analysers. It
      fails on the listing alone when the directory cannot be listed;
      otherwise it completes exactly when every ".mp4" entry evaluates, and
      every record it writes is well shaped. */
  function EvaluateVideosQuality(env: Analysers, listing: Option<seq<string>>): (run: BatchRun)
    ensures listing.None? ==> run == BatchRun([], Some(ListingFailed))
    ensures listing.Some? ==> (run.failure.None? <==>
      forall i :: 0 <= i < |listing.value| && IsVideoFile(listing.value[i]) ==>
        EvaluateVideo(env, listing.value[i]).Success?)
    ensures forall k, j :: 0 <= k < |run.events| && run.events[k].Write? && 0 <= j < |run.events[k].records| ==>
      WellShaped(run.events[k].records[j])
  {
    var evaluate := Evaluator(env);
    assert forall name :: evaluate(name).Success? ==> WellShaped(evaluate(name).value);
    WrittenRecordsSatisfy(evaluate, listing, WellShaped);
    if listing.None? then RunBatch(evaluate, listing)
    else
      AllSucceedIffEveryVideo(evaluate, listing.value);
      RunBatch(evaluate, listing)
  }

  /** The names of the ".mp4" entries are those the filter
      `video.endswith(".mp4")` keeps, in listing order. */
  lemma {:induction false} VideoEntriesAreVideoFiles(listing: seq<string>, from: nat)
    requires from <= |listing|
    ensures Names(VideoEntries(listing, from)) == Filter(listing[from..], IsVideoFile)
    decreases |listing| - from
  {
    if from < |listing| {
      VideoEntriesAreVideoFiles(listing, from + 1);
      var rest := VideoEntries(listing, from + 1);
      assert listing[from..][0] == listing[from];
      assert listing[from..][1..] == listing[from + 1..];
      if IsVideoFile(listing[from]) {
        assert ([(from, listing[from])] + rest)[1..] == rest;
      }
    }
  }

  /** A completed batch writes one record per ".mp4" entry, named after
      it, in listing order. */
  lemma BatchWritesOneRecordPerVideoFile(env: Analysers, listing: seq<string>)
    requires EvaluateVideosQuality(env, Some(listing)).failure.None?
    ensures var events := EvaluateVideosQuality(env, Some(listing)).events;
      var written := events[|events| - 1].records;
      var videos := Filter(listing, IsVideoFile);
      |written| == |videos| && forall k :: 0 <= k < |written| ==> written[k].video == videos[k]
  {
    RecordsNamedAfterVideos(Evaluator(env), listing);
  }

  /** With a per-video step that names each record after its video, a
      completed batch writes one record per ".mp4" entry, in listing
      order. */
  lemma RecordsNamedAfterVideos(evaluate: string -> Result<Record, BatchError>, listing: seq<string>)
    requires forall name :: evaluate(name).Success? ==> evaluate(name).value.video == name
    requires RunBatch(evaluate, Some(listing)).failure.None?
    ensures var events := RunBatch(evaluate, Some(listing)).events;
      var written := events[|events| - 1].records;
      var videos := Filter(listing, IsVideoFile);
      |written| == |videos| && forall k :: 0 <= k < |written| ==> written[k].video == videos[k]
  {
    VideoEntriesAreVideoFiles(listing, 0);
    assert listing[0..] == listing;
  }
}
