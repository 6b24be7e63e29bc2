/**
 * The display data the dashboard panels compute from one snapshot of the
 * progress record, with colours, styles and widget layout stripped away.
 * Text is bytes: the source measures and slices `String`s by byte.
 */
module Dashboard {
  import opened Wrappers
  import BoundedFifo
  import Progress
  import opened Arithmetic

  /** The bytes of "...". */
  const ELLIPSIS: seq<byte> := [0x2E, 0x2E, 0x2E]

  /** `str::is_char_boundary`: not inside a multi-byte UTF-8 sequence. */
  predicate IsCharBoundary(s: seq<byte>, i: nat) {
    i == 0 || i == |s| || (i < |s| && (s[i] < 0x80 || 0xC0 <= s[i]))
  }

  predicate IsAscii(s: seq<byte>) {
    forall k :: 0 <= k < |s| ==> s[k] < 0x80
  }

  /**
   * `if s.len() > limit { format!("{}...", &s[..keep]) } else { s }`.
   * Slicing a `String` off a character boundary panics: that is `None`.
   */
  function Truncate(s: seq<byte>, limit: nat, keep: nat): (r: Option<seq<byte>>)
    requires keep <= limit
    ensures r.None? <==> limit < |s| && !IsCharBoundary(s, keep)
    ensures |s| <= limit ==> r == Some(s)
    ensures IsAscii(s) ==> r.Some?
    ensures r.Some? && limit < |s| ==>
      && |r.value| == keep + 3
      && r.value[..keep] == s[..keep]
      && r.value[keep..] == ELLIPSIS
  {
    if |s| > limit then
      if IsCharBoundary(s, keep) then Some(s[..keep] + ELLIPSIS) else None
    else
      Some(s)
  }

  /** The URL line of the Info panel: at most 25 bytes. */
  function TruncateUrl(url: seq<byte>): (r: Option<seq<byte>>)
    ensures r.Some? ==> |r.value| <= 25
    ensures |url| <= 25 ==> r == Some(url)
    ensures IsAscii(url) ==> r.Some?
  {
    Truncate(url, 25, 22)
  }

  /** A name in the Activity panel: at most 20 bytes. */
  function TruncateName(name: seq<byte>): (r: Option<seq<byte>>)
    ensures r.Some? ==> |r.value| <= 20
    ensures |name| <= 20 ==> r == Some(name)
    ensures IsAscii(name) ==> r.Some?
  {
    Truncate(name, 20, 17)
  }

  const PROGRESS_BAR_WIDTH: nat := 20

  /** `█` and `░`. */
  datatype BarCell = Full | Empty

  /**
   * `(progress_percent() / 5.0) as usize`, computed exactly: the number of
   * twentieths of the playlist that have downloaded.
   */
  function FilledCells(s: Progress.Stats): (filled: nat)
    ensures filled == (Progress.ProgressPercent(s) / 5.0).Floor
    ensures 0 < s.totalSegments ==>
      filled * s.totalSegments <= s.downloadedSegments * 20 < (filled + 1) * s.totalSegments
    ensures s.downloadedSegments <= s.totalSegments ==> filled <= PROGRESS_BAR_WIDTH
  {
    if 0 < s.totalSegments then
      var d, t := s.downloadedSegments, s.totalSegments;
      var q := d * 20 / t;
      DivBounds(d * 20, t);
      RealQuotientBounds(q, d * 20, t);
      PercentOverFive(d, t);
      FloorBetween(Progress.ProgressPercent(s) / 5.0, q);
      q
    else
      0
  }

  /** percent / 5 is the number of twentieths: d / t * 100 / 5 == 20d / t. */
  lemma PercentOverFive(d: nat, t: nat)
    requires 0 < t
    ensures (d as real) / (t as real) * 100.0 / 5.0 == ((d * 20) as real) / (t as real)
  {
  }

  function Repeat<T>(x: T, n: nat): (r: seq<T>)
    ensures |r| == n && forall k :: 0 <= k < n ==> r[k] == x
  {
    seq(n, _ => x)
  }

  /** The 20-cell progress bar: `min(filled, 20)` full cells, then empty ones. */
  function ProgressBar(filled: nat): (bar: seq<BarCell>)
    ensures |bar| == PROGRESS_BAR_WIDTH
    ensures forall k :: 0 <= k < |bar| ==> (bar[k] == Full <==> k < Min(filled, PROGRESS_BAR_WIDTH))
  {
    var empty := if filled <= PROGRESS_BAR_WIDTH then PROGRESS_BAR_WIDTH - filled else 0;
    Repeat(Full, Min(filled, PROGRESS_BAR_WIDTH)) + Repeat(Empty, empty)
  }

  /** The bar is empty before the first segment and full once every segment has downloaded. */
  lemma ProgressBarEnds(s: Progress.Stats)
    requires 0 < s.totalSegments
    ensures s.downloadedSegments == 0 ==> ProgressBar(FilledCells(s)) == Repeat(Empty, PROGRESS_BAR_WIDTH)
    ensures s.downloadedSegments == s.totalSegments ==> ProgressBar(FilledCells(s)) == Repeat(Full, PROGRESS_BAR_WIDTH)
  {
    var bar := ProgressBar(FilledCells(s));
    if s.downloadedSegments == s.totalSegments {
      assert FilledCells(s) == 20;
    }
  }

  /** `(area.width - 4).max(20)`, with the subtraction saturating. */
  function GraphWidth(areaWidth: nat): (w: nat)
    ensures 20 <= w
    ensures 24 <= areaWidth ==> w == areaWidth - 4
    ensures areaWidth < 24 ==> w == 20
  {
    Max(if 4 <= areaWidth then areaWidth - 4 else 0, 20)
  }

  /** The graph shows only the newest `width` speed samples, oldest first. */
  function TrimPoints(points: seq<real>, width: nat): (shown: seq<real>)
    ensures shown == BoundedFifo.KeepLast(points, width)
    ensures |shown| == Min(|points|, width)
    ensures forall k :: 0 <= k < |shown| ==> shown[k] == points[|points| - |shown| + k]
  {
    if |points| > width then points[|points| - width..] else points[..]
  }

  /** The graph is at least 20 columns wide; from 54 columns the whole 50-sample history fits. */
  lemma WideGraphShowsWholeHistory(s: Progress.Stats, areaWidth: nat)
    requires Progress.ValidStats(s) && 54 <= areaWidth
    ensures TrimPoints(s.speedHistory, GraphWidth(areaWidth)) == s.speedHistory
  {
  }

  /** A line of the Activity panel: the placeholder, or an outcome icon and a name. */
  datatype ActivityLine = Waiting | Entry(status: Progress.ActivityStatus, name: seq<byte>)

  /** The entries, oldest first; `None` when truncating a name would panic. */
  function EntryLines(log: seq<Progress.ActivityItem>): (r: Option<seq<ActivityLine>>)
    ensures r.Some? <==> forall k :: 0 <= k < |log| ==> TruncateName(log[k].name).Some?
    ensures r.Some? ==> |r.value| == |log|
    ensures r.Some? ==> forall k :: 0 <= k < |log| ==>
      r.value[k] == Entry(log[k].status, TruncateName(log[k].name).value)
  {
    if log == [] then Some([])
    else
      match TruncateName(log[0].name)
      case None => None
      case Some(name) =>
        match EntryLines(log[1..])
        case None => None
        case Some(rest) => Some([Entry(log[0].status, name)] + rest)
  }

  /** The Activity panel: "Waiting..." for an empty log, else one line per entry in log order. */
  function ActivityPanel(log: seq<Progress.ActivityItem>): (r: Option<seq<ActivityLine>>)
    ensures r.Some? <==> forall k :: 0 <= k < |log| ==> TruncateName(log[k].name).Some?
    ensures r.Some? ==> |r.value| == Max(1, |log|)
    ensures r.Some? && log == [] ==> r.value == [Waiting]
    ensures r.Some? ==> forall k :: 0 <= k < |log| ==>
      r.value[k] == Entry(log[k].status, TruncateName(log[k].name).value)
  {
    if log == [] then Some([Waiting]) else EntryLines(log)
  }

  /** Panel lines never panic on ASCII names, and there are never more than six of them. */
  lemma ActivityPanelOfValidStats(s: Progress.Stats)
    requires Progress.ValidStats(s)
    requires forall k :: 0 <= k < |s.activityLog| ==> IsAscii(s.activityLog[k].name)
    ensures ActivityPanel(s.activityLog).Some?
    ensures 1 <= |ActivityPanel(s.activityLog).value| <= Progress.ACTIVITY_CAPACITY
  {
  }

  /** `format!("{}m{}s", secs / 60, secs % 60)`. */
  function MinutesSeconds(secs: nat): (ms: (nat, nat))
    ensures ms.0 * 60 + ms.1 == secs && ms.1 < 60
  {
    (secs / 60, secs % 60)
  }

  /** What the Stats panel shows. */
  datatype StatsLines = StatsLines(speed: real, downMib: nat, time: (nat, nat), eta: Option<(nat, nat)>)

  /**
   * The Stats panel at time `now`: current speed, whole MiB downloaded,
   * elapsed time and the ETA (a blank line when it is undefined), both in
   * whole seconds split as minutes and seconds.
   */
  function StatsPanel(s: Progress.Stats, now: int): (r: StatsLines)
    requires s.downloadedSegments <= s.totalSegments
    ensures r.speed == s.currentSpeed
    ensures r.downMib * 1048576 <= s.downloadedBytes < (r.downMib + 1) * 1048576
    ensures r.time.0 * 60 + r.time.1 == Progress.ElapsedMs(now, s.startTime) / 1000 && r.time.1 < 60
    ensures r.eta.Some? <==> Progress.Eta(s, now).Some?
    ensures r.eta.Some? ==>
      && r.eta.value.0 * 60 + r.eta.value.1 == Progress.Eta(s, now).value.Floor
      && r.eta.value.1 < 60
  {
    var eta := Progress.Eta(s, now);
    StatsLines(
      s.currentSpeed,
      s.downloadedBytes / 1048576,
      MinutesSeconds(Progress.ElapsedMs(now, s.startTime) / 1000),
      if eta.Some? then Some(MinutesSeconds(eta.value.Floor)) else None)
  }

  /** `(area.width - 2) / 2` glyphs per row (each glyph is two columns), saturating. */
  function ChunksPerRow(areaWidth: nat): (n: nat)
    ensures 2 * n + 2 <= areaWidth || n == 0
    ensures 2 <= areaWidth ==> areaWidth < 2 * n + 4
    ensures 0 < n <==> 4 <= areaWidth
  {
    if 2 <= areaWidth then (areaWidth - 2) / 2 else 0
  }

  /** The rows joined back together. */
  function Concat<T>(rows: seq<seq<T>>): seq<T> {
    if rows == [] then [] else Concat(rows[..|rows| - 1]) + rows[|rows| - 1]
  }

  /**
   * The Chunks panel: one glyph per bucket, a new row every `perRow` glyphs.
   * `i % perRow` is evaluated only from the second bucket on, so a zero
   * width panics only with two or more buckets.
   */
  method WrapRows(states: seq<Progress.ChunkState>, perRow: nat) returns (rows: seq<seq<Progress.ChunkState>>)
    requires 0 < perRow || |states| <= 1
    ensures Concat(rows) == states
    ensures forall r :: 0 <= r < |rows| ==> 0 < |rows[r]|
    ensures forall r :: 0 <= r < |rows| - 1 ==> |rows[r]| == perRow
    ensures 0 < perRow ==> forall r :: 0 <= r < |rows| ==> |rows[r]| <= perRow
    ensures rows == [] <==> states == []
  {
    rows := [];
    var line: seq<Progress.ChunkState> := [];
    var i := 0;
    while i < |states|
      invariant 0 <= i <= |states|
      invariant Concat(rows) + line == states[..i]
      invariant forall r :: 0 <= r < |rows| ==> |rows[r]| == perRow && 0 < perRow
      invariant i == 0 <==> line == []
      invariant 0 < perRow ==> |line| <= perRow && |rows| * perRow + |line| == i
    {
      if 0 < i && 0 < perRow {
        LineFullAt(|rows|, perRow, |line|, i);
      }
      if i > 0 && i % perRow == 0 {
        ConcatSnoc(rows, line);
        MulSucc(|rows|, perRow);
        rows := rows + [line];
        line := [];
      }
      assert states[..i + 1] == states[..i] + [states[i]];
      line := line + [states[i]];
      i := i + 1;
    }
    if line != [] {
      ConcatSnoc(rows, line);
      rows := rows + [line];
    }
    assert states[..i] == states;
  }

  lemma ConcatSnoc<T>(rows: seq<seq<T>>, line: seq<T>)
    ensures Concat(rows + [line]) == Concat(rows) + line
  {
    assert (rows + [line])[..|rows|] == rows;
  }

  /**
   * With `full` whole rows already pushed and a non-empty line of `len`
   * glyphs, the index is a multiple of the row width exactly when the line
   * is full.
   */
  lemma LineFullAt(full: nat, perRow: nat, len: nat, i: nat)
    requires 0 < perRow && 0 < len <= perRow && full * perRow + len == i
    ensures i % perRow == 0 <==> len == perRow
  {
    MulSucc(full, perRow);
    if len == perRow {
      ModOfMultiple(full + 1, perRow);
    }
    if i % perRow == 0 {
      var q := i / perRow;
      DivModSplit(i, perRow);
      MulCancelLt(full, q, perRow);
      MulSucc(full + 1, perRow);
      MulCancelLt(q, full + 2, perRow);
    }
  }
}
