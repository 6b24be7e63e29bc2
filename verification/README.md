# M3U8 downloader: the download-progress record and its dashboard, in Dafny

The downloader fetches every segment of an HLS playlist concurrently. Each fetch task reports to one
shared record, `DownloadStats`, under a lock. A success is reported through `update` and a failure
through `fail`. A 250 ms dashboard loop draws the record as several panels:

- an Info panel with a truncated URL and a 20-cell progress bar;
- a speed graph;
- an Activity panel with the last six outcomes;
- a Stats panel with speed, MiB, elapsed time and ETA;
- a Chunks map that shows at most 100 buckets of segments.

Once every segment has reported, the segment files `segment_{:05}.ts` are listed and sorted by name.
The entries with a `ts` extension are handed to the concatenation in that order.

This project models that core:

- `wrappers.dfy`: `Option`, a `byte` type, and `Min`/`Max`.
- `bounded_fifo.dfy`: the push-then-pop-front discipline of the two `VecDeque`s, with a reference
  definition ("keep the newest n").
- `counting.dfy`: the pigeonhole principle over distinct naturals. It is used to bound the counters.
- `arithmetic.dfy`: one-step facts about multiplication, division and the integer part of a real.
- `progress.dfy`:
  - `Stats`, a snapshot of the record;
  - `New`, `AfterUpdate` and `AfterFail`, which say what each operation does to a snapshot;
  - the bucket arithmetic;
  - `progress_percent`, `average_speed` and `eta`;
  - a model of a whole run as a sequence of reports;
  - the mutable class `DownloadStats`. Its methods update the fields in place (the bucket map is an
    `array`) and are proved to move the snapshot exactly as `AfterUpdate`/`AfterFail` say.
- `dashboard.dfy`: the pure display helpers, and the row wrapping of the Chunks panel. The wrapping
  is a loop over a mutable line, as in the source.
- `segments.dfy`:
  - the segment file name;
  - byte-wise name order;
  - `Path::extension` and the `ts` filter loop;
  - the proof that, below 100000 segments, sorting the names reproduces the playlist order.

Time is an integer number of milliseconds, passed in as `now`. The `f64` rates are exact `real`s.
Text is bytes, because the source measures and slices `String`s by byte. Slicing a `String` off a
UTF-8 character boundary panics; that panic is `None` in the model.

Some preconditions come from the source's own panics and unsigned arithmetic:

- `update`/`fail` divide by `total_segments`, so they require a non-empty playlist.
- `eta` subtracts `total - downloaded` as `usize`, so it requires `downloaded <= total`.
  `DistinctReportsStayWithinTotal` proves that the orchestrator's reports, one per distinct segment,
  keep this true.
- The Chunks panel evaluates `i % chunks_per_row` from the second bucket on, so a zero row width is
  allowed only with at most one bucket.

The 5-digit pad has a limit. Segment 100000 gets six digits and sorts before segment 99999
(`SegmentNameOrderBreaksAt100000`), so the playlist-order guarantee is stated for fewer than 100000
segments.

## Model

| member | source | states |
|---|---|---|
| BoundedFifo.PushEvict | src/main.rs:119-125 | after a push the new item is last; a queue within capacity stays within it; below capacity the item is appended; at capacity the oldest entry is dropped and the others keep their order |
| BoundedFifo.PushEvictKeepsNewest | src/main.rs:133-136 | push-then-pop-front keeps exactly the newest `cap` entries of the queue plus the new item |
| Progress.New | src/main.rs:96-111 | a new record has `min(total, 100)` buckets, all Pending; zero counters and speed; empty logs; start time and last sample time are both `now`; it satisfies the shape invariant |
| Progress.ElapsedMs | src/main.rs:129 | elapsed time since an instant; zero when the instant lies in the future (`duration_since` saturates) |
| Progress.SpeedSample | src/main.rs:131 | the sample is non-negative, and sample × ms × 2^20 = bytes × 1000 (bytes per window, in MiB/s) |
| Progress.BucketIndex | src/main.rs:141 | the bucket of a segment is the integer part of `segment_id * len / total` |
| Progress.BucketInRange | src/main.rs:141-144 | every segment of the playlist maps to an existing bucket, so the range check never drops it |
| Progress.BucketPastEnd | src/main.rs:141-144 | a segment id at or past `total` maps past the last bucket |
| Progress.BucketMonotone | src/main.rs:141 | a later segment never maps to an earlier bucket |
| Progress.EveryBucketReached | src/main.rs:141 | every bucket is the bucket of some segment of the playlist |
| Progress.BucketExample | src/main.rs:141 | with 250 segments (100 buckets), segment 130 lands in bucket 52 |
| Progress.MarkBucket | src/main.rs:141-144 | the array keeps its length; the computed bucket, if it exists, takes the new state; every other cell is unchanged |
| Progress.MarkBucketLands | src/main.rs:141-144 | for a segment of the playlist the write always lands, and that bucket holds the new state |
| Progress.MarkBucketIgnoresPastEnd | src/main.rs:158-161 | a report for a segment past the end leaves the bucket map unchanged |
| Progress.AfterUpdate | src/main.rs:113-145 | update adds 1 segment and `bytes` bytes, leaves failures, total and start time alone, and pushes a Success entry into the log. Past the 250 ms window it samples the speed, pushes it into the history and resets the window; otherwise it only accumulates bytes. It marks the bucket Completed and preserves the shape invariant |
| Progress.AfterFail | src/main.rs:147-162 | fail adds 1 failure, pushes a Failed entry and marks the bucket Failed; downloads, bytes, total, speed state and window are unchanged; the shape invariant is preserved |
| Progress.ProgressPercent | src/main.rs:164-170 | 0 for an empty playlist, else percent × total = downloaded × 100; within [0, 100] and equal to 100 exactly when all have downloaded |
| Progress.ElapsedSeconds | src/main.rs:173 | elapsed seconds × 1000 = elapsed milliseconds since the start; non-negative, and positive exactly when time has passed |
| Progress.AverageSpeed | src/main.rs:172-179 | the average is non-negative and positive exactly when time has passed and some bytes have arrived |
| Progress.Eta | src/main.rs:185-194 | the ETA is defined exactly when a segment has completed, a byte has arrived and time has passed (never with zero downloads), and it is non-negative |
| Progress.EtaExtrapolates | src/main.rs:185-194 | ETA × downloaded = remaining × elapsed seconds, and the ETA is zero exactly when all segments have downloaded |
| Progress.Apply | src/main.rs:593-601 | one report under the lock counts exactly once: a success adds one download and its bytes, a failure adds one failure; its entry is the newest in the log; the total and the shape invariant are kept |
| Progress.Finished | src/main.rs:696 | the dashboard loop stops once downloads plus failures reach the total |
| Progress.FinishedIsStable | src/main.rs:696 | once the stop test holds, no further report undoes it |
| Progress.NewFinishedIffEmpty | src/main.rs:696 | a new record meets the stop test at once exactly when the playlist is empty |
| Progress.ApplyAll | src/main.rs:582-605 | a run of reports keeps the total, counts each report exactly once, adds exactly the successes and their bytes, and preserves the shape invariant |
| Progress.DistinctReportsStayWithinTotal | src/main.rs:582-605 | start from a new record and apply reports for distinct segments of the playlist, in any order. The counts then equal the number of reports, never exceed the total, and the dashboard's stop condition holds exactly when every segment has reported |
| Progress.DownloadStats.constructor | src/main.rs:96-111 | the new object is valid, its snapshot is `New(total, now)` and its bucket array is freshly allocated |
| Progress.DownloadStats.Update | src/main.rs:113-145 | in place: the object stays valid, keeps the same bucket array, and its snapshot moves exactly as `AfterUpdate` says |
| Progress.DownloadStats.Fail | src/main.rs:147-162 | in place: the object stays valid, keeps the same bucket array, and its snapshot moves exactly as `AfterFail` says |
| Progress.DownloadStats.PushActivity | src/main.rs:119-125 | the activity log becomes the bounded-FIFO push of the item |
| Progress.DownloadStats.SampleSpeed | src/main.rs:127-138 | past the 250 ms window: speed sampled from the pending bytes, pushed into the bounded history, window reset to now with zero pending bytes; otherwise nothing changes |
| Progress.DownloadStats.MarkChunk | src/main.rs:140-144 | the array cell of the computed bucket takes the state when the index is in range; all other cells are unchanged |
| Dashboard.IsCharBoundary | src/main.rs:269 | a byte slice end is valid at 0, at the end, or before a byte that does not continue a UTF-8 sequence; the slices `&url[..22]` and `&item.name[..17]` panic elsewhere |
| Dashboard.Truncate | src/main.rs:268-272 | text within the limit is unchanged. Longer text keeps its first `keep` bytes followed by "...", or panics exactly when `keep` splits a UTF-8 character. ASCII text never panics |
| Dashboard.TruncateUrl | src/main.rs:268-272 | the shown URL is at most 25 bytes; a URL of at most 25 bytes is shown unchanged; an ASCII URL never panics |
| Dashboard.TruncateName | src/main.rs:398-402 | a shown name is at most 20 bytes; a name of at most 20 bytes is shown unchanged; an ASCII name never panics |
| Dashboard.FilledCells | src/main.rs:275 | the filled count is floor(percent / 5), i.e. filled × total ≤ downloaded × 20 < (filled + 1) × total, and at most 20 while downloaded ≤ total |
| Dashboard.ProgressBar | src/main.rs:274-279 | the bar has exactly 20 cells, the first `min(filled, 20)` full and the rest empty |
| Dashboard.ProgressBarEnds | src/main.rs:274-279 | the bar is all empty before the first download and all full once every segment has downloaded |
| Dashboard.GraphWidth | src/main.rs:339 | the graph is `width - 4` columns on a panel of 24 columns or more, and exactly 20 on a narrower one |
| Dashboard.TrimPoints | src/main.rs:347-352 | the plotted points are the newest `min(len, width)` samples in their original order (the bounded-queue reference `KeepLast`) |
| Dashboard.WideGraphShowsWholeHistory | src/main.rs:339-352 | on a panel of 54 columns or more the whole 50-sample history is plotted |
| Dashboard.EntryLines | src/main.rs:390-409 | one line per log entry, in log order, with that entry's status and its truncated name; defined exactly when no truncation panics |
| Dashboard.ActivityPanel | src/main.rs:387-409 | the panel is defined exactly when no name truncation panics; it then has max(1, log length) lines: "Waiting..." alone for an empty log, otherwise line k shows entry k's status and truncated name |
| Dashboard.ActivityPanelOfValidStats | src/main.rs:387-409 | with ASCII names the panel never panics and shows between 1 and 6 lines |
| Dashboard.MinutesSeconds | src/main.rs:440 | the split is minutes × 60 + seconds = total seconds, with seconds below 60 |
| Dashboard.StatsPanel | src/main.rs:421-455 | shows the current speed; whole MiB = floor(bytes / 2^20); elapsed minutes and seconds (seconds below 60) spelling the whole elapsed seconds; an ETA line exactly when `eta` is defined, with its whole seconds split the same way |
| Dashboard.ChunksPerRow | src/main.rs:468 | `chunks_per_row` is the largest number of two-column glyphs that fit in the panel minus its two border columns; it is positive exactly from 4 columns on |
| Dashboard.WrapRows | src/main.rs:467-490 | the rows joined give back every bucket in order; no row is empty; every row but the last holds exactly `chunks_per_row` glyphs and none holds more; no buckets give no rows |
| Dashboard.LineFullAt | src/main.rs:473-476 | after whole rows and a non-empty line, `i % chunks_per_row == 0` holds exactly when the line is full, so a row is pushed exactly when it is complete |
| SegmentFiles.Digits | src/main.rs:591 | the decimal form of an index is non-empty, all digits, and has no leading zero (0 is "0") |
| SegmentFiles.ZeroPad | src/main.rs:591 | `{:05}` pads to at least 5 bytes, exactly `max(5, digits)` long, and all digits |
| SegmentFiles.SegmentName | src/main.rs:590-591 | a segment name starts with "segment_" and ends with ".ts", and between them are at least five decimal digits that spell the index |
| SegmentFiles.ZeroPadValue | src/main.rs:591 | the padded digits read back as the index |
| SegmentFiles.ParseSegmentNameRoundTrip | src/main.rs:590-591 | every segment name parses back to its own index, so distinct segments get distinct files |
| SegmentFiles.SegmentNameLength | src/main.rs:591 | below 100000 every name is 16 bytes |
| SegmentFiles.FixedDigitsOrder | src/main.rs:630 | fixed-width digit strings compare byte-wise as the numbers they spell |
| SegmentFiles.SegmentNameOrder | src/main.rs:630 | below 100000, name i sorts before name j exactly when i < j |
| SegmentFiles.SegmentNameOrderBreaksAt100000 | src/main.rs:630 | segment 100000's name sorts before segment 99999's |
| SegmentFiles.LexLess | src/main.rs:630 | the byte-wise order `sort_by_key(file_name)` uses: the first differing byte decides, and a proper prefix sorts first |
| SegmentFiles.LexLessIrreflexive | src/main.rs:630 | no name sorts before itself |
| SegmentFiles.LexLessAsymmetric | src/main.rs:630 | two names never sort before each other |
| SegmentFiles.LexLessTransitive | src/main.rs:630 | the order is transitive |
| SegmentFiles.LexLessTotal | src/main.rs:630 | of two different names one sorts first, so the sorted listing is unique |
| SegmentFiles.LexLessCommonPrefix | src/main.rs:630 | a shared prefix does not change the byte-wise order |
| SegmentFiles.LexLessEqualLength | src/main.rs:630 | two different names of equal length are ordered by themselves, whatever follows them |
| SegmentFiles.Extension | src/main.rs:634 | there is no extension exactly when the name is "..", has no '.', or its only '.' is the first byte. Otherwise the name is a non-empty stem, a '.', and the extension, which holds no '.' |
| SegmentFiles.TsFileIff | src/main.rs:634 | a name passes the `ts` filter exactly when it is at least 4 bytes and ends in ".ts" |
| SegmentFiles.SegmentNameIsTsFile | src/main.rs:634 | every segment file passes the filter |
| SegmentFiles.TsFilesMembers | src/main.rs:633-638 | the filtered listing holds exactly the listed names with the `ts` extension |
| SegmentFiles.TsFilesSorted | src/main.rs:630-638 | filtering a sorted listing keeps it sorted |
| SegmentFiles.ConcatList | src/main.rs:633-638 | the loop over the sorted listing yields exactly the filtered listing, in listing order |
| SegmentFiles.ConcatListFollowsIndexOrder | src/main.rs:630-638 | in any sorted listing, whatever else it holds (stale names, other `.ts` files, gaps left by failed segments), two segment files below 100000 reach the concatenation in index order |
| SegmentFiles.ConcatListIncreasing | src/main.rs:630-638 | when the concatenation list holds only segment files below 100000, their indices strictly increase along it; segments that failed are simply missing |
| SegmentFiles.ConcatListIsPlaylistOrder | src/main.rs:630-638 | the complete-run case: when the list holds the names of all segments 0..n-1, with n ≤ 100000, it is exactly segment 0, 1, …, n-1 |
| SegmentFiles.SegmentNameShownWhole | src/main.rs:398-402 | below 100000, a segment name is shown whole in the Activity panel |

## Left out

- Playlist fetching, master-playlist variant choice and URL resolution (src/main.rs:527-570): network I/O and a foreign parser. `m3u8_rs`, `reqwest` and `url` are not part of this model.
- Segment download and file writes (src/main.rs:610-619); the directory read, `canonicalize`, writing `filelist.txt` and its `file '…'` line format, the `ffmpeg` call and cleanup (src/main.rs:621-673): file-system and process I/O. The directory listing is an input to `ConcatList`.
- `sort_by_key` (src/main.rs:630) is the standard library's sort. The model takes its result as an input that is strictly ascending by bytes, as the names in one directory are.
- Concurrency: `tokio` fan-out, the semaphore, `Arc<Mutex<…>>`, the spawned dashboard task and its abort (src/main.rs:572-608, 744-759). The record is a single sequential object; a run is any sequence of whole reports, which is what the lock guarantees.
- Terminal setup and restore, the event-poll loop and the 'q' key (src/main.rs:676-728). Also all layout, colours, styles, titles and glyphs (src/main.rs:197-265): UI plumbing over libraries not shown. The loop's stop condition is `Progress.Finished`.
- The speed graph's height thresholds and block glyphs (src/main.rs:326-376), and the `{:.1}` speed format: floating-point rendering.
- CLI parsing and tilde expansion (src/main.rs:37-58, 732-735), and the final size report (src/main.rs:771).
- Floating point: speeds, percent and ETA are exact reals, so `f64` rounding, `as usize` saturation and `Duration::from_secs_f64` rounding are not modelled.
- Progress.DownloadStats.Update: the `u64`/`usize` counters are unbounded integers, so overflow of the counters and of `segment_id * len` is not modelled.
- Progress.Eta: the clock is one `now` for the whole call, while the source reads it twice (once per `average_speed()` call).
- Instants are integer milliseconds, so sub-millisecond durations (`elapsed >= 0.25` on nanoseconds) are rounded to whole milliseconds.
- The `Downloading` activity status and chunk state are never produced by the source; they are declared but nothing sets them.
