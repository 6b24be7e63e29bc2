/**
 * The shared download-progress record (`DownloadStats` in src/main.rs).
 *
 * `Stats` is one point-in-time snapshot of the record, the value the
 * dashboard draws from; `AfterUpdate` and `AfterFail` say what a success
 * or failure report does to it. The class `DownloadStats` at the end is
 * the mutable record itself: its methods change the fields in place and
 * are proved to move its snapshot exactly as those functions say.
 *
 * Time is an integer count of milliseconds (`now`) instead of an `Instant`;
 * the source's `f64` rates are exact `real`s here.
 */
module Progress {
  import opened Wrappers
  import BoundedFifo
  import opened Counting
  import opened Arithmetic

  const ACTIVITY_CAPACITY: nat := 6
  const SPEED_HISTORY_CAPACITY: nat := 50
  const MAX_CHUNKS: nat := 100
  /** A speed sample is taken only once this many milliseconds have passed. */
  const SPEED_WINDOW_MS: nat := 250
  const MIB: real := 1048576.0

  datatype ActivityStatus = Success | Failed | Downloading
  datatype ActivityItem = ActivityItem(name: seq<byte>, status: ActivityStatus)
  datatype ChunkState = Pending | Downloading | Completed | Failed

  datatype Stats = Stats(
    totalSegments: nat,
    downloadedSegments: nat,
    failedSegments: nat,
    downloadedBytes: nat,
    startTime: int,
    currentSpeed: real,
    speedHistory: seq<real>,
    chunkStates: seq<ChunkState>,
    activityLog: seq<ActivityItem>,
    lastUpdate: int,
    bytesSinceUpdate: nat)

  /** The record's shape invariant: the bucket array keeps its length, both queues stay bounded. */
  predicate ValidStats(s: Stats) {
    && |s.chunkStates| == Min(s.totalSegments, MAX_CHUNKS)
    && |s.activityLog| <= ACTIVITY_CAPACITY
    && |s.speedHistory| <= SPEED_HISTORY_CAPACITY
  }

  /** `DownloadStats::new(total)`, with the clock read as `now`. */
  function New(total: nat, now: int): (s: Stats)
    ensures ValidStats(s)
    ensures s.totalSegments == total
    ensures s.downloadedSegments == 0 && s.failedSegments == 0 && s.downloadedBytes == 0
    ensures s.activityLog == [] && s.speedHistory == [] && s.bytesSinceUpdate == 0
    ensures s.startTime == now && s.lastUpdate == now && s.currentSpeed == 0.0
    ensures forall k :: 0 <= k < |s.chunkStates| ==> s.chunkStates[k] == ChunkState.Pending
  {
    Stats(total, 0, 0, 0, now, 0.0, [], seq(Min(total, MAX_CHUNKS), _ => ChunkState.Pending), [], now, 0)
  }

  /** `now.duration_since(since)` in milliseconds; it saturates at zero. */
  function ElapsedMs(now: int, since: int): (ms: nat)
    ensures since <= now ==> since + ms == now
    ensures now < since ==> ms == 0
  {
    if since <= now then now - since else 0
  }

  /** An instantaneous speed sample in MiB/s: `bytes` seen over `ms` milliseconds. */
  function SpeedSample(bytes: nat, ms: nat): (mibPerSec: real)
    requires 0 < ms
    ensures 0.0 <= mibPerSec
    ensures mibPerSec * (ms as real) * MIB == (bytes as real) * 1000.0
  {
    (bytes as real) / ((ms as real) / 1000.0) / MIB
  }

  /** The bucket a segment's outcome lands in: `segment_id * len / total`. */
  function BucketIndex(segmentId: nat, buckets: nat, total: nat): (b: nat)
    requires 0 < total
    ensures b * total <= segmentId * buckets < (b + 1) * total
  {
    segmentId * buckets / total
  }

  /** Every segment of the playlist lands in a bucket that exists. */
  lemma BucketInRange(segmentId: nat, buckets: nat, total: nat)
    requires segmentId < total && 0 < buckets
    ensures BucketIndex(segmentId, buckets, total) < buckets
  {
    var b := BucketIndex(segmentId, buckets, total);
    MulMonoLt(segmentId, total, buckets);
    assert b * total < buckets * total;
    MulCancelLt(b, buckets, total);
  }

  /** A segment past the end never maps to a bucket. */
  lemma BucketPastEnd(segmentId: nat, buckets: nat, total: nat)
    requires total <= segmentId && 0 < total
    ensures buckets <= BucketIndex(segmentId, buckets, total)
  {
    var b := BucketIndex(segmentId, buckets, total);
    MulMonoLe(total, segmentId, buckets);
    assert buckets * total < (b + 1) * total;
    MulCancelLt(buckets, b + 1, total);
  }

  /** Buckets cover consecutive runs of segments: a later segment never maps to an earlier bucket. */
  lemma BucketMonotone(i: nat, j: nat, buckets: nat, total: nat)
    requires i <= j && 0 < total
    ensures BucketIndex(i, buckets, total) <= BucketIndex(j, buckets, total)
  {
    var bi, bj := BucketIndex(i, buckets, total), BucketIndex(j, buckets, total);
    MulMonoLe(i, j, buckets);
    assert bi * total < (bj + 1) * total;
    MulCancelLt(bi, bj + 1, total);
  }

  /** With at most one bucket per segment, every bucket is the bucket of some segment. */
  lemma EveryBucketReached(b: nat, buckets: nat, total: nat) returns (segmentId: nat)
    requires b < buckets <= total
    ensures segmentId < total && BucketIndex(segmentId, buckets, total) == b
  {
    var n := b * total + buckets - 1;
    segmentId := n / buckets;
    DivBounds(n, buckets);
    assert b * total <= segmentId * buckets < (b + 1) * total;
    MulMonoLe(b + 1, buckets, total);
    assert segmentId * buckets < total * buckets;
    MulCancelLt(segmentId, total, buckets);
    var r := BucketIndex(segmentId, buckets, total);
    MulCancelLt(r, b + 1, total);
    MulCancelLt(b, r + 1, total);
  }

  /** The worked example: 250 segments, 100 buckets, segment 130 lands in bucket 52. */
  lemma BucketExample()
    ensures BucketIndex(130, Min(250, MAX_CHUNKS), 250) == 52
  {
  }

  /**
   * The write into `chunk_states` shared by `update` and `fail`: the bucket of
   * `segmentId` takes `state` if that bucket exists, and nothing else changes.
   */
  function MarkBucket(chunks: seq<ChunkState>, segmentId: nat, total: nat, state: ChunkState): (r: seq<ChunkState>)
    requires 0 < total
    ensures |r| == |chunks|
    ensures var b := BucketIndex(segmentId, |chunks|, total);
      && (b < |chunks| ==> r[b] == state)
      && forall k :: 0 <= k < |r| && k != b ==> r[k] == chunks[k]
  {
    var b := BucketIndex(segmentId, |chunks|, total);
    if b < |chunks| then chunks[b := state] else chunks
  }

  /** A report for a segment of the playlist always lands: its bucket takes the new state. */
  lemma MarkBucketLands(chunks: seq<ChunkState>, segmentId: nat, total: nat, state: ChunkState)
    requires segmentId < total && 0 < |chunks|
    ensures BucketIndex(segmentId, |chunks|, total) < |chunks|
    ensures MarkBucket(chunks, segmentId, total, state)[BucketIndex(segmentId, |chunks|, total)] == state
  {
    BucketInRange(segmentId, |chunks|, total);
  }

  /** A report for a segment past the end is silently ignored. */
  lemma MarkBucketIgnoresPastEnd(chunks: seq<ChunkState>, segmentId: nat, total: nat, state: ChunkState)
    requires 0 < total <= segmentId
    ensures MarkBucket(chunks, segmentId, total, state) == chunks
  {
    BucketPastEnd(segmentId, |chunks|, total);
  }

  /** `update(segment_id, bytes, segment_name)` at time `now`. */
  function AfterUpdate(s: Stats, segmentId: nat, bytes: nat, name: seq<byte>, now: int): (r: Stats)
    requires 0 < s.totalSegments
    // the counters
    ensures r.downloadedSegments == s.downloadedSegments + 1
    ensures r.downloadedBytes == s.downloadedBytes + bytes
    ensures r.failedSegments == s.failedSegments && r.totalSegments == s.totalSegments
    ensures r.startTime == s.startTime
    // the activity log
    ensures r.activityLog == BoundedFifo.PushEvict(s.activityLog, ActivityItem(name, ActivityStatus.Success), ACTIVITY_CAPACITY)
    // the speed window
    ensures SPEED_WINDOW_MS <= ElapsedMs(now, s.lastUpdate) ==>
      && r.currentSpeed == SpeedSample(s.bytesSinceUpdate + bytes, ElapsedMs(now, s.lastUpdate))
      && r.speedHistory == BoundedFifo.PushEvict(s.speedHistory, r.currentSpeed, SPEED_HISTORY_CAPACITY)
      && r.lastUpdate == now && r.bytesSinceUpdate == 0
    ensures ElapsedMs(now, s.lastUpdate) < SPEED_WINDOW_MS ==>
      && r.currentSpeed == s.currentSpeed && r.speedHistory == s.speedHistory
      && r.lastUpdate == s.lastUpdate && r.bytesSinceUpdate == s.bytesSinceUpdate + bytes
    // the bucket map
    ensures r.chunkStates == MarkBucket(s.chunkStates, segmentId, s.totalSegments, ChunkState.Completed)
    ensures ValidStats(s) ==> ValidStats(r)
  {
    var log := BoundedFifo.PushEvict(s.activityLog, ActivityItem(name, ActivityStatus.Success), ACTIVITY_CAPACITY);
    var chunks := MarkBucket(s.chunkStates, segmentId, s.totalSegments, ChunkState.Completed);
    var pending := s.bytesSinceUpdate + bytes;
    var elapsed := ElapsedMs(now, s.lastUpdate);
    var counted := s.(downloadedSegments := s.downloadedSegments + 1,
                      downloadedBytes := s.downloadedBytes + bytes,
                      activityLog := log, chunkStates := chunks);
    if SPEED_WINDOW_MS <= elapsed then
      var speed := SpeedSample(pending, elapsed);
      counted.(currentSpeed := speed,
               speedHistory := BoundedFifo.PushEvict(s.speedHistory, speed, SPEED_HISTORY_CAPACITY),
               lastUpdate := now, bytesSinceUpdate := 0)
    else
      counted.(bytesSinceUpdate := pending)
  }

  /** `fail(segment_id, segment_name)`. */
  function AfterFail(s: Stats, segmentId: nat, name: seq<byte>): (r: Stats)
    requires 0 < s.totalSegments
    ensures r.failedSegments == s.failedSegments + 1
    ensures r.downloadedSegments == s.downloadedSegments && r.downloadedBytes == s.downloadedBytes
    ensures r.totalSegments == s.totalSegments && r.startTime == s.startTime
    ensures r.activityLog == BoundedFifo.PushEvict(s.activityLog, ActivityItem(name, ActivityStatus.Failed), ACTIVITY_CAPACITY)
    ensures r.chunkStates == MarkBucket(s.chunkStates, segmentId, s.totalSegments, ChunkState.Failed)
    ensures r.currentSpeed == s.currentSpeed && r.speedHistory == s.speedHistory
    ensures r.lastUpdate == s.lastUpdate && r.bytesSinceUpdate == s.bytesSinceUpdate
    ensures ValidStats(s) ==> ValidStats(r)
  {
    s.(failedSegments := s.failedSegments + 1,
       activityLog := BoundedFifo.PushEvict(s.activityLog, ActivityItem(name, ActivityStatus.Failed), ACTIVITY_CAPACITY),
       chunkStates := MarkBucket(s.chunkStates, segmentId, s.totalSegments, ChunkState.Failed))
  }

  /** The dashboard loop's stop test: every segment has reported, one way or the other. */
  predicate Finished(s: Stats) {
    s.totalSegments <= s.downloadedSegments + s.failedSegments
  }

  /** `progress_percent()`: downloaded over total, as a percentage; 0 for an empty playlist. */
  function ProgressPercent(s: Stats): (p: real)
    ensures s.totalSegments == 0 ==> p == 0.0
    ensures 0 < s.totalSegments ==> p * (s.totalSegments as real) == (s.downloadedSegments as real) * 100.0
    ensures s.downloadedSegments <= s.totalSegments ==> 0.0 <= p <= 100.0
    ensures 0 < s.totalSegments && s.downloadedSegments <= s.totalSegments ==>
      (p == 100.0 <==> s.downloadedSegments == s.totalSegments)
  {
    if 0 < s.totalSegments then
      (s.downloadedSegments as real) / (s.totalSegments as real) * 100.0
    else
      0.0
  }

  /** Seconds since the record was created (`start_time.elapsed()`), as a real. */
  function ElapsedSeconds(s: Stats, now: int): (secs: real)
    ensures secs * 1000.0 == ElapsedMs(now, s.startTime) as real
    ensures 0.0 <= secs
    ensures 0.0 < secs <==> s.startTime < now
  {
    (ElapsedMs(now, s.startTime) as real) / 1000.0
  }

  /** `average_speed()` in MiB/s: all bytes over all elapsed time; 0 before any time has passed. */
  function AverageSpeed(s: Stats, now: int): (mibPerSec: real)
    ensures 0.0 <= mibPerSec
    ensures 0.0 < mibPerSec <==> s.startTime < now && 0 < s.downloadedBytes
  {
    var secs := ElapsedSeconds(s, now);
    if 0.0 < secs then (s.downloadedBytes as real) / secs / MIB else 0.0
  }

  /**
   * `eta()` in seconds: remaining segments times the mean segment size over the
   * average speed. Undefined (None) until a byte has arrived, time has passed and
   * a segment has completed. The subtraction `total - downloaded` is unsigned, so
   * callers keep `downloaded <= total`.
   */
  function Eta(s: Stats, now: int): (eta: Option<real>)
    requires s.downloadedSegments <= s.totalSegments
    ensures eta.Some? <==> 0 < s.downloadedSegments && 0 < s.downloadedBytes && s.startTime < now
    ensures s.downloadedSegments == 0 ==> eta == None
    ensures eta.Some? ==> 0.0 <= eta.value
  {
    if 0.0 < AverageSpeed(s, now) && 0 < s.downloadedSegments then
      var remaining := s.totalSegments - s.downloadedSegments;
      var avgSize := (s.downloadedBytes as real) / (s.downloadedSegments as real);
      Some((remaining as real) * avgSize / (AverageSpeed(s, now) * MIB))
    else
      None
  }

  /**
   * The ETA is a linear extrapolation: the time spent so far per completed
   * segment, times the segments still to come. It is zero exactly when all are done.
   */
  lemma EtaExtrapolates(s: Stats, now: int)
    requires s.downloadedSegments <= s.totalSegments
    requires Eta(s, now).Some?
    ensures Eta(s, now).value * (s.downloadedSegments as real)
         == ((s.totalSegments - s.downloadedSegments) as real) * ElapsedSeconds(s, now)
    ensures Eta(s, now).value == 0.0 <==> s.downloadedSegments == s.totalSegments
  {
    var secs := ElapsedSeconds(s, now);
    var d := s.downloadedSegments as real;
    var bytes := s.downloadedBytes as real;
    var rem := (s.totalSegments - s.downloadedSegments) as real;
    var avg := AverageSpeed(s, now);
    assert avg * MIB == bytes / secs;
    var eta := Eta(s, now).value;
    assert eta == rem * (bytes / d) / (bytes / secs);
    assert rem * (bytes / d) / (bytes / secs) == rem * secs / d;
  }

  /** One report from a fetch task, as delivered to the record under its lock. */
  datatype Report =
    | Downloaded(segmentId: nat, bytes: nat, name: seq<byte>, at: int)
    | Lost(segmentId: nat, name: seq<byte>)

  /** One report, applied under the lock: exactly one of `update` and `fail`. */
  function Apply(s: Stats, r: Report): (t: Stats)
    requires 0 < s.totalSegments
    ensures t.totalSegments == s.totalSegments
    ensures t.downloadedSegments + t.failedSegments == s.downloadedSegments + s.failedSegments + 1
    ensures t.downloadedSegments == s.downloadedSegments + (if r.Downloaded? then 1 else 0)
    ensures t.downloadedBytes == s.downloadedBytes + (if r.Downloaded? then r.bytes else 0)
    ensures 0 < |t.activityLog| && t.activityLog[|t.activityLog| - 1] == ActivityItem(r.name, if r.Downloaded? then ActivityStatus.Success else ActivityStatus.Failed)
    ensures ValidStats(s) ==> ValidStats(t)
  {
    match r
    case Downloaded(id, bytes, name, at) => AfterUpdate(s, id, bytes, name, at)
    case Lost(id, name) => AfterFail(s, id, name)
  }

  /** Once the stop test holds, no further report can undo it. */
  lemma FinishedIsStable(s: Stats, r: Report)
    requires 0 < s.totalSegments && Finished(s)
    ensures Finished(Apply(s, r))
  {
  }

  /** A new record is finished at once exactly when the playlist is empty. */
  lemma NewFinishedIffEmpty(total: nat, now: int)
    ensures Finished(New(total, now)) <==> total == 0
  {
  }

  function Successes(reports: seq<Report>): nat {
    if reports == [] then 0 else (if reports[0].Downloaded? then 1 else 0) + Successes(reports[1..])
  }

  function BytesOf(reports: seq<Report>): nat {
    if reports == [] then 0 else (if reports[0].Downloaded? then reports[0].bytes else 0) + BytesOf(reports[1..])
  }

  /**
   * The record after a sequence of reports, in arrival order. Each report is
   * counted exactly once (no lost updates), bytes only grow, and the shape
   * invariant holds throughout.
   */
  function ApplyAll(s: Stats, reports: seq<Report>): (t: Stats)
    requires 0 < s.totalSegments
    decreases |reports|
    ensures t.totalSegments == s.totalSegments
    ensures t.downloadedSegments + t.failedSegments == s.downloadedSegments + s.failedSegments + |reports|
    ensures t.downloadedSegments == s.downloadedSegments + Successes(reports)
    ensures t.downloadedBytes == s.downloadedBytes + BytesOf(reports)
    ensures ValidStats(s) ==> ValidStats(t)
  {
    if reports == [] then s else ApplyAll(Apply(s, reports[0]), reports[1..])
  }

  function SegmentIds(reports: seq<Report>): (ids: seq<nat>)
    ensures |ids| == |reports|
    ensures forall k :: 0 <= k < |reports| ==> ids[k] == reports[k].segmentId
  {
    seq(|reports|, k requires 0 <= k < |reports| => reports[k].segmentId)
  }

  /**
   * The fetch orchestrator reports every segment exactly once. Starting from
   * `new(total)`, any arrival order of reports for distinct segments of the
   * playlist never counts past `total`, and the dashboard's stop condition
   * holds exactly when every segment has reported.
   */
  lemma {:induction false} DistinctReportsStayWithinTotal(total: nat, now: int, reports: seq<Report>)
    requires 0 < total
    requires Distinct(SegmentIds(reports))
    requires forall k :: 0 <= k < |reports| ==> reports[k].segmentId < total
    ensures var t := ApplyAll(New(total, now), reports);
      && t.downloadedSegments + t.failedSegments == |reports| <= total
      && t.downloadedSegments <= t.totalSegments
      && (Finished(t) <==> |reports| == total)
  {
    DistinctBelowBound(SegmentIds(reports), total);
  }

  /**
   * The mutable record. The fields are those of the source; the activity log
   * and speed history are the `VecDeque`s, reassigned as sequences, and the
   * bucket map is a fixed-length array written one cell at a time.
   */
  class DownloadStats {
    var totalSegments: nat
    var downloadedSegments: nat
    var failedSegments: nat
    var downloadedBytes: nat
    var startTime: int
    var currentSpeed: real
    var speedHistory: seq<real>
    var chunkStates: array<ChunkState>
    var activityLog: seq<ActivityItem>
    var lastUpdate: int
    var bytesSinceUpdate: nat

    /** The snapshot a dashboard tick reads under the lock. */
    ghost function Model(): Stats
      reads this, chunkStates
    {
      Stats(totalSegments, downloadedSegments, failedSegments, downloadedBytes, startTime,
            currentSpeed, speedHistory, chunkStates[..], activityLog, lastUpdate, bytesSinceUpdate)
    }

    ghost predicate Valid()
      reads this
    {
      && chunkStates.Length == Min(totalSegments, MAX_CHUNKS)
      && |activityLog| <= ACTIVITY_CAPACITY
      && |speedHistory| <= SPEED_HISTORY_CAPACITY
    }

    /** `DownloadStats::new(total)` at time `now`: every bucket Pending, counters zero, logs empty. */
    constructor (total: nat, now: int)
      ensures Valid() && fresh(chunkStates)
      ensures Model() == New(total, now)
    {
      totalSegments := total;
      downloadedSegments, failedSegments, downloadedBytes := 0, 0, 0;
      startTime := now;
      currentSpeed := 0.0;
      speedHistory := [];
      chunkStates := new ChunkState[Min(total, MAX_CHUNKS)](_ => ChunkState.Pending);
      activityLog := [];
      lastUpdate := now;
      bytesSinceUpdate := 0;
    }

    /** `update`: a segment of `bytes` bytes arrived at time `now`. */
    method Update(segmentId: nat, bytes: nat, segmentName: seq<byte>, now: int)
      requires Valid() && 0 < totalSegments
      modifies this, chunkStates
      ensures Valid() && chunkStates == old(chunkStates)
      ensures Model() == AfterUpdate(old(Model()), segmentId, bytes, segmentName, now)
    {
      ghost var target := AfterUpdate(Model(), segmentId, bytes, segmentName, now);
      downloadedSegments := downloadedSegments + 1;
      downloadedBytes := downloadedBytes + bytes;
      bytesSinceUpdate := bytesSinceUpdate + bytes;
      PushActivity(ActivityItem(segmentName, ActivityStatus.Success));
      SampleSpeed(now);
      MarkChunk(segmentId, ChunkState.Completed);
      assert chunkStates[..] == target.chunkStates;
      assert speedHistory == target.speedHistory && currentSpeed == target.currentSpeed;
    }

    /** `fail`: the segment could not be fetched or written. */
    method Fail(segmentId: nat, segmentName: seq<byte>)
      requires Valid() && 0 < totalSegments
      modifies this, chunkStates
      ensures Valid() && chunkStates == old(chunkStates)
      ensures Model() == AfterFail(old(Model()), segmentId, segmentName)
    {
      failedSegments := failedSegments + 1;
      PushActivity(ActivityItem(segmentName, ActivityStatus.Failed));
      MarkChunk(segmentId, ChunkState.Failed);
    }

    /** `activity_log.push_back(item)`, then `pop_front()` past capacity. */
    method PushActivity(item: ActivityItem)
      modifies this`activityLog
      ensures activityLog == BoundedFifo.PushEvict(old(activityLog), item, ACTIVITY_CAPACITY)
    {
      activityLog := activityLog + [item];
      if |activityLog| > ACTIVITY_CAPACITY {
        activityLog := activityLog[1..];
      }
    }

    /** The rate window: sample the speed once at least 250 ms have passed since the last sample. */
    method SampleSpeed(now: int)
      modifies this`currentSpeed, this`speedHistory, this`lastUpdate, this`bytesSinceUpdate
      ensures var elapsed := ElapsedMs(now, old(lastUpdate));
        if SPEED_WINDOW_MS <= elapsed then
          && currentSpeed == SpeedSample(old(bytesSinceUpdate), elapsed)
          && speedHistory == BoundedFifo.PushEvict(old(speedHistory), currentSpeed, SPEED_HISTORY_CAPACITY)
          && lastUpdate == now && bytesSinceUpdate == 0
        else
          && currentSpeed == old(currentSpeed) && speedHistory == old(speedHistory)
          && lastUpdate == old(lastUpdate) && bytesSinceUpdate == old(bytesSinceUpdate)
    {
      var elapsed := ElapsedMs(now, lastUpdate);
      if elapsed >= SPEED_WINDOW_MS {
        currentSpeed := SpeedSample(bytesSinceUpdate, elapsed);
        speedHistory := speedHistory + [currentSpeed];
        if |speedHistory| > SPEED_HISTORY_CAPACITY {
          speedHistory := speedHistory[1..];
        }
        lastUpdate := now;
        bytesSinceUpdate := 0;
      }
    }

    /** `chunk_states[segment_id * len / total] := state`, skipped when that index is out of range. */
    method MarkChunk(segmentId: nat, state: ChunkState)
      requires 0 < totalSegments
      modifies chunkStates
      ensures chunkStates[..] == MarkBucket(old(chunkStates[..]), segmentId, totalSegments, state)
    {
      var chunkId := segmentId * chunkStates.Length / totalSegments;
      if chunkId < chunkStates.Length {
        chunkStates[chunkId] := state;
      }
    }
  }
}
