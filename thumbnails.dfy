/** `POST /thumbnails` (main.py `get_thumbnails`): choose a small mp4/webm
    format, download it, sample twenty frames at evenly spaced positions and,
    when at least one frame came out, move the file into the cache.
    yt-dlp, the download and OpenCV are outside the model: their outcomes
    arrive as parameters (`Probe`, and `frame` for one sampled frame). */
module Thumbnails {
  import opened Common
  import opened Cache

  // ---------------------------------------------------------------------
  // Choosing the format to download

  /** `f.get('ext') in ['mp4', 'webm'] and f.get('vcodec') != 'none'` */
  predicate IsVideo(f: RawFormat)
  {
    (Get(f.ext) == Some("mp4") || Get(f.ext) == Some("webm")) && Get(f.vcodec) != Some("none")
  }

  /** `f.get('height', 0) >= 360` for a height that is not None. */
  predicate IsTall(f: RawFormat)
  {
    f.height.Val? && f.height.v >= 360
  }

  /** `r` is `fs` with some elements left out: what remains keeps its order. */
  predicate Subsequence(r: seq<RawFormat>, fs: seq<RawFormat>)
    decreases |fs|
  {
    r == [] || (fs != [] && ((r[0] == fs[0] && Subsequence(r[1..], fs[1..])) || Subsequence(r, fs[1..])))
  }

  /** `video_formats`: the comprehension keeps exactly the video formats, in
      the order of the input. */
  function VideoFormats(fs: seq<RawFormat>): (r: seq<RawFormat>)
    ensures forall x :: x in r <==> x in fs && IsVideo(x)
    ensures Subsequence(r, fs)
  {
    if fs == [] then []
    else
      var rest := VideoFormats(fs[1..]);
      if IsVideo(fs[0]) then
        assert ([fs[0]] + rest)[1..] == rest;
        [fs[0]] + rest
      else rest
  }

  /** `suitable_formats` before the fallback, in the order of the input. */
  function TallFormats(fs: seq<RawFormat>): (r: seq<RawFormat>)
    ensures forall x :: x in r <==> x in fs && IsTall(x)
    ensures Subsequence(r, fs)
  {
    if fs == [] then []
    else
      var rest := TallFormats(fs[1..]);
      if IsTall(fs[0]) then
        assert ([fs[0]] + rest)[1..] == rest;
        [fs[0]] + rest
      else rest
  }

  /** Filtering a concatenation filters each part: the comprehension never
      moves a format past another. */
  lemma {:induction false} VideoFormatsAppend(a: seq<RawFormat>, b: seq<RawFormat>)
    ensures VideoFormats(a + b) == VideoFormats(a) + VideoFormats(b)
  {
    if a == [] {
      assert a + b == b;
    } else {
      VideoFormatsAppend(a[1..], b);
      assert (a + b)[0] == a[0] && (a + b)[1..] == a[1..] + b;
    }
  }

  lemma {:induction false} TallFormatsAppend(a: seq<RawFormat>, b: seq<RawFormat>)
    ensures TallFormats(a + b) == TallFormats(a) + TallFormats(b)
  {
    if a == [] {
      assert a + b == b;
    } else {
      TallFormatsAppend(a[1..], b);
      assert (a + b)[0] == a[0] && (a + b)[1..] == a[1..] + b;
    }
  }

  /** The formats `min` chooses from: the tall ones, or all video formats when none is tall. */
  function Pool(fs: seq<RawFormat>): seq<RawFormat>
  {
    var video := VideoFormats(fs);
    var tall := TallFormats(video);
    if tall == [] then video else tall
  }

  /** The key of `min`: a missing, None or zero filesize counts as infinity. */
  datatype SizeKey = Bytes(n: int) | Infinite

  function SizeKeyOf(f: RawFormat): SizeKey
  {
    if f.filesize.Val? && f.filesize.v != 0 then Bytes(f.filesize.v) else Infinite
  }

  predicate SizeLess(a: SizeKey, b: SizeKey)
  {
    match a
    case Infinite => false
    case Bytes(n) => b.Infinite? || n < b.n
  }

  /** Python's `min` with a key: a left-to-right scan in which a later format
      replaces the best one only when its key is strictly smaller. The result
      is the index of the first format of smallest key. */
  function FirstMin(pool: seq<RawFormat>): (k: nat)
    requires |pool| > 0
    ensures k < |pool|
    ensures forall j :: 0 <= j < |pool| ==> !SizeLess(SizeKeyOf(pool[j]), SizeKeyOf(pool[k]))
    ensures forall j :: 0 <= j < k ==> SizeLess(SizeKeyOf(pool[k]), SizeKeyOf(pool[j]))
  {
    if |pool| == 1 then 0
    else
      var k := FirstMin(pool[..|pool| - 1]);
      assert forall j :: 0 <= j < |pool| - 1 ==> pool[..|pool| - 1][j] == pool[j];
      if SizeLess(SizeKeyOf(pool[|pool| - 1]), SizeKeyOf(pool[k])) then |pool| - 1 else k
  }

  /** The format whose id `get_thumbnails` passes to the download. */
  function SelectSource(fs: seq<RawFormat>): (r: Result<RawFormat>)
    ensures r.Err? ==> r.error == NoSuitableFormat || r.error == HeightNotComparable
    ensures r.Ok? ==> r.value in fs && IsVideo(r.value)
  {
    var video := VideoFormats(fs);
    if video == [] then Err(NoSuitableFormat)
    else if exists x :: x in video && x.height.Null? then Err(HeightNotComparable)
    else
      var pool := Pool(fs);
      Ok(pool[FirstMin(pool)])
  }

  /** No mp4/webm format with a video codec gives 400; a None height among
      them makes the comparison with 360 raise, which gives 500. */
  lemma SelectSourceFails(fs: seq<RawFormat>)
    ensures SelectSource(fs) == Err(NoSuitableFormat) <==> forall x :: x in fs ==> !IsVideo(x)
    ensures SelectSource(fs) == Err(HeightNotComparable) <==>
      (exists x :: x in fs && IsVideo(x)) && (exists x :: x in fs && IsVideo(x) && x.height.Null?)
    ensures SelectSource(fs).Err? ==> SelectSource(fs).error in {NoSuitableFormat, HeightNotComparable}
    ensures SelectSource(fs) == Err(NoSuitableFormat) ==> Status(SelectSource(fs).error) == 400
  {
    var video := VideoFormats(fs);
    if video != [] {
      assert video[0] in fs && IsVideo(video[0]);
    }
  }

  /** The chosen format is an mp4/webm format with a video codec; when some
      such format is at least 360 high, the chosen one is too. */
  lemma SelectSourceIsVideo(fs: seq<RawFormat>)
    requires SelectSource(fs).Ok?
    ensures SelectSource(fs).value in fs && IsVideo(SelectSource(fs).value)
    ensures (exists x :: x in fs && IsVideo(x) && IsTall(x)) ==> IsTall(SelectSource(fs).value)
  {
    var video := VideoFormats(fs);
    var tall := TallFormats(video);
    var pick := SelectSource(fs).value;
    assert pick in Pool(fs);
    if exists x :: x in fs && IsVideo(x) && IsTall(x) {
      var x :| x in fs && IsVideo(x) && IsTall(x);
      assert x in tall;
    }
  }

  /** No candidate has a smaller filesize key than the chosen format, and every
      candidate before it in the list has a strictly larger one: the first
      minimum wins. */
  lemma SelectSourceIsSmallest(fs: seq<RawFormat>)
    requires SelectSource(fs).Ok?
    ensures forall x :: x in Pool(fs) ==> !SizeLess(SizeKeyOf(x), SizeKeyOf(SelectSource(fs).value))
    ensures exists k ::
      && 0 <= k < |Pool(fs)| && Pool(fs)[k] == SelectSource(fs).value
      && forall j :: 0 <= j < k ==> SizeLess(SizeKeyOf(SelectSource(fs).value), SizeKeyOf(Pool(fs)[j]))
    ensures forall x :: x in Pool(fs) <==>
      x in fs && IsVideo(x) && (IsTall(x) || !exists y :: y in fs && IsVideo(y) && IsTall(y))
    ensures exists k ::
      && 0 <= k < |fs| && fs[k] == SelectSource(fs).value
      && forall j :: 0 <= j < k && fs[j] in Pool(fs) ==> SizeLess(SizeKeyOf(SelectSource(fs).value), SizeKeyOf(fs[j]))
  {
    FirstInInputOrder(fs);
    var pool := Pool(fs);
    var k := FirstMin(pool);
    assert pool[k] == SelectSource(fs).value;
    var video := VideoFormats(fs);
    var tall := TallFormats(video);
    if exists y :: y in fs && IsVideo(y) && IsTall(y) {
      var y :| y in fs && IsVideo(y) && IsTall(y);
      assert y in tall;
    }
    if tall != [] {
      assert tall[0] in tall;
    }
  }

  /** The index of the first occurrence of `x` in `s`. */
  lemma FirstIndexOf(s: seq<RawFormat>, x: RawFormat) returns (k: int)
    requires x in s
    ensures 0 <= k < |s| && s[k] == x
    ensures forall j :: 0 <= j < k ==> s[j] != x
  {
    k := 0;
    while s[k] != x
      invariant 0 <= k < |s| && x in s[k..]
      invariant forall j :: 0 <= j < k ==> s[j] != x
      decreases |s| - k
    {
      assert s[k..] == [s[k]] + s[k + 1..];
      k := k + 1;
    }
  }

  /** The candidates split at position `k` of the input: those taken from
      before `k` come first, and they are exactly the candidates found there. */
  lemma PoolSplit(fs: seq<RawFormat>, k: int) returns (pp: seq<RawFormat>, qq: seq<RawFormat>)
    requires 0 <= k <= |fs|
    ensures Pool(fs) == pp + qq
    ensures forall x :: x in pp ==> x in fs[..k]
    ensures forall x :: x in fs[..k] && x in Pool(fs) ==> x in pp
  {
    var p, q := fs[..k], fs[k..];
    assert fs == p + q;
    VideoFormatsAppend(p, q);
    var vp, vq := VideoFormats(p), VideoFormats(q);
    TallFormatsAppend(vp, vq);
    if TallFormats(VideoFormats(fs)) != [] {
      pp, qq := TallFormats(vp), TallFormats(vq);
    } else {
      pp, qq := vp, vq;
    }
  }

  /** Counted in the order of `info['formats']`: every candidate that comes
      before the chosen format in the input has a strictly larger key. */
  lemma FirstInInputOrder(fs: seq<RawFormat>)
    requires SelectSource(fs).Ok?
    ensures exists k ::
      && 0 <= k < |fs| && fs[k] == SelectSource(fs).value
      && forall j :: 0 <= j < k && fs[j] in Pool(fs) ==> SizeLess(SizeKeyOf(SelectSource(fs).value), SizeKeyOf(fs[j]))
  {
    var pick := SelectSource(fs).value;
    var pool := Pool(fs);
    var m := FirstMin(pool);
    assert pool[m] == pick;
    SelectSourceIsVideo(fs);
    var k := FirstIndexOf(fs, pick);
    var pp, qq := PoolSplit(fs, k);
    assert pick !in pp;
    assert m >= |pp|;
    forall j | 0 <= j < k && fs[j] in pool
      ensures SizeLess(SizeKeyOf(pick), SizeKeyOf(fs[j]))
    {
      assert fs[..k][j] == fs[j];
      var a :| 0 <= a < |pp| && pp[a] == fs[j];
      assert pool[a] == fs[j];
    }
  }

  // ---------------------------------------------------------------------
  // Sampling the frames

  /** `num_thumbnails` */
  const NumThumbnails: nat := 20

  const JpegPrefix: string := "data:image/jpeg;base64,"

  /** `position = (duration * i) / num_thumbnails`, in seconds. */
  function Position(duration: real, i: nat): real
  {
    duration * (i as real) / (NumThumbnails as real)
  }

  /** The thumbnails of the first `n` positions. `frame(p)` is the base64 JPEG
      of the frame at `p`, or None when seeking, reading or encoding it failed
      (the loop then moves on to the next position). */
  function Sampled(frame: real -> Option<string>, duration: real, n: nat): (t: seq<string>)
    ensures |t| <= n
    ensures forall j :: 0 <= j < |t| ==> |t[j]| >= |JpegPrefix| && t[j][..|JpegPrefix|] == JpegPrefix
  {
    if n == 0 then []
    else
      var earlier := Sampled(frame, duration, n - 1);
      match frame(Position(duration, n - 1))
      case None => earlier
      case Some(data) =>
        assert (JpegPrefix + data)[..|JpegPrefix|] == JpegPrefix;
        earlier + [JpegPrefix + data]
  }

  /** The sampling loop of `get_thumbnails`: one attempt per position, and a
      position whose frame fails is skipped. */
  method SampleFrames(duration: real, frame: real -> Option<string>) returns (thumbnails: seq<string>)
    ensures thumbnails == Sampled(frame, duration, NumThumbnails)
  {
    thumbnails := [];
    for i := 0 to NumThumbnails
      invariant thumbnails == Sampled(frame, duration, i)
    {
      var position := (duration * i as real) / NumThumbnails as real;
      assert position == Position(duration, i);
      var data := frame(position);
      assert Sampled(frame, duration, i + 1) ==
        if data.None? then thumbnails else thumbnails + [JpegPrefix + data.value];
      if data.None? {
        continue;
      }
      thumbnails := thumbnails + [JpegPrefix + data.value];
    }
  }

  /** Earlier positions come first: sampling fewer positions yields a prefix. */
  lemma {:induction false} SampledPrefix(frame: real -> Option<string>, duration: real, m: nat, n: nat)
    requires m <= n
    ensures Sampled(frame, duration, m) <= Sampled(frame, duration, n)
    decreases n - m
  {
    if m < n {
      SampledPrefix(frame, duration, m, n - 1);
    }
  }

  /** When every frame comes out, there is one thumbnail per position, in order. */
  lemma {:induction false} SampledAllFrames(frame: real -> Option<string>, duration: real, n: nat)
    requires forall i :: 0 <= i < n ==> frame(Position(duration, i)).Some?
    ensures |Sampled(frame, duration, n)| == n
    ensures forall i :: 0 <= i < n ==> Sampled(frame, duration, n)[i] == JpegPrefix + frame(Position(duration, i)).value
  {
    if n > 0 {
      SampledAllFrames(frame, duration, n - 1);
    }
  }

  /** No thumbnail at all exactly when no frame came out. */
  lemma {:induction false} SampledEmpty(frame: real -> Option<string>, duration: real, n: nat)
    ensures Sampled(frame, duration, n) == [] <==> forall i :: 0 <= i < n ==> frame(Position(duration, i)).None?
  {
    if n > 0 {
      SampledEmpty(frame, duration, n - 1);
    }
  }

  /** The positions start at 0, increase, and stay before the end of the video. */
  lemma PositionsSpread(duration: real, i: nat, j: nat)
    requires duration > 0.0 && i < j < NumThumbnails
    ensures Position(duration, 0) == 0.0
    ensures Position(duration, i) < Position(duration, j) < duration
  {
    var step := duration / 20.0;
    assert step > 0.0;
    assert forall k: nat :: Position(duration, k) == step * (k as real);
    var gap := (j - i) as real;
    var rest := (20 - j) as real;
    assert gap >= 1.0 && rest >= 1.0;
    assert step * gap >= step by {
      assert step * gap - step == step * (gap - 1.0);
      NonNegativeProduct(step, gap - 1.0);
    }
    assert step * rest >= step by {
      assert step * rest - step == step * (rest - 1.0);
      NonNegativeProduct(step, rest - 1.0);
    }
    assert Position(duration, j) - Position(duration, i) == step * gap;
    assert duration - Position(duration, j) == step * rest;
  }

  lemma NonNegativeProduct(a: real, b: real)
    requires a >= 0.0 && b >= 0.0
    ensures a * b >= 0.0
  {
  }

  // ---------------------------------------------------------------------
  // The whole request

  /** What the environment reports: the size of the downloaded file (None when
      there is none), whether OpenCV opens it, and, if not, whether it opens a
      byte copy; then the frame count and frame rate it reads. */
  datatype Probe = Probe(downloadedBytes: Option<nat>, opens: bool, copyOpens: bool, frameCount: int, fps: real)

  datatype ThumbnailReply = ThumbnailReply(thumbnails: seq<string>, duration: real)

  function TempPath(dir: string): string { dir + "/video.mp4" }
  function BackupPath(dir: string): string { TempPath(dir) + ".bak" }
  function CachePath(dir: string): string { dir + "/cached_video.mp4" }

  /** Frame count and rate give a positive duration. */
  lemma PositiveDuration(frameCount: int, fps: real)
    requires frameCount > 0 && fps > 0.0
    ensures frameCount as real / fps > 0.0
  {
  }

  /** The answer once a format was selected: the checks on the downloaded
      file, then the sampling. */
  function FromDownload(probe: Probe, frame: real -> Option<string>): (r: Result<ThumbnailReply>)
    ensures r.Err? ==> Status(r.error) == 500
    ensures r.Ok? ==> 1 <= |r.value.thumbnails| <= NumThumbnails && r.value.duration > 0.0
  {
    if probe.downloadedBytes.None? then Err(DownloadMissing)
    else if probe.downloadedBytes.value == 0 then Err(DownloadEmpty)
    else if !probe.opens && !probe.copyOpens then Err(InvalidVideoFile)
    else if probe.frameCount <= 0 || probe.fps <= 0.0 then Err(InvalidProperties(probe.frameCount, probe.fps))
    else
      var duration := probe.frameCount as real / probe.fps;
      if duration <= 0.0 then Err(InvalidDuration(duration))
      else
        var thumbnails := Sampled(frame, duration, NumThumbnails);
        if thumbnails == [] then Err(NoThumbnails) else Ok(ThumbnailReply(thumbnails, duration))
  }

  /** The answer of `/thumbnails`, in the order the handler checks things. */
  function ThumbnailOutcome(formats: seq<RawFormat>, probe: Probe, frame: real -> Option<string>): (r: Result<ThumbnailReply>)
    ensures r.Err? ==> Status(r.error) == (if r.error == NoSuitableFormat then 400 else 500)
  {
    match SelectSource(formats)
    case Err(e) => Err(e)
    case Ok(selected) =>
      if selected.formatId.Absent? then Err(KeyMissing("format_id"))
      else FromDownload(probe, frame)
  }

  /** After the selection, a success carries between 1 and 20 JPEG data URLs
      and the positive duration `frames / fps`, and some frame came out. */
  lemma FromDownloadOk(probe: Probe, frame: real -> Option<string>)
    requires FromDownload(probe, frame).Ok?
    ensures var reply := FromDownload(probe, frame).value;
      && 1 <= |reply.thumbnails| <= NumThumbnails
      && reply.duration > 0.0
      && reply.duration == probe.frameCount as real / probe.fps
      && (forall j :: 0 <= j < |reply.thumbnails| ==> reply.thumbnails[j][..|JpegPrefix|] == JpegPrefix)
      && exists i :: 0 <= i < NumThumbnails && frame(Position(reply.duration, i)).Some?
  {
    var duration := probe.frameCount as real / probe.fps;
    assert FromDownload(probe, frame).value == ThumbnailReply(Sampled(frame, duration, NumThumbnails), duration);
    SampledEmpty(frame, duration, NumThumbnails);
  }

  /** A successful answer carries between 1 and 20 JPEG data URLs and a
      positive duration, and comes from a selected format that has an id. */
  lemma ThumbnailOutcomeOk(formats: seq<RawFormat>, probe: Probe, frame: real -> Option<string>)
    requires ThumbnailOutcome(formats, probe, frame).Ok?
    ensures var reply := ThumbnailOutcome(formats, probe, frame).value;
      && 1 <= |reply.thumbnails| <= NumThumbnails
      && reply.duration > 0.0
      && reply.duration == probe.frameCount as real / probe.fps
      && (forall j :: 0 <= j < |reply.thumbnails| ==> reply.thumbnails[j][..|JpegPrefix|] == JpegPrefix)
      && SelectSource(formats).Ok? && !SelectSource(formats).value.formatId.Absent?
      && exists i :: 0 <= i < NumThumbnails && frame(Position(reply.duration, i)).Some?
  {
    assert ThumbnailOutcome(formats, probe, frame) == FromDownload(probe, frame);
    FromDownloadOk(probe, frame);
  }

  /** Failing to produce any frame is the 500 "Failed to generate any thumbnails". */
  lemma NoFrameNoThumbnails(formats: seq<RawFormat>, probe: Probe, frame: real -> Option<string>)
    requires SelectSource(formats).Ok? && !SelectSource(formats).value.formatId.Absent?
    requires probe.downloadedBytes.Some? && probe.downloadedBytes.value > 0 && (probe.opens || probe.copyOpens)
    requires probe.frameCount > 0 && probe.fps > 0.0
    requires forall p :: frame(p).None?
    ensures ThumbnailOutcome(formats, probe, frame) == Err(NoThumbnails)
    ensures Status(NoThumbnails) == 500
  {
    var duration := probe.frameCount as real / probe.fps;
    PositiveDuration(probe.frameCount, probe.fps);
    SampledEmpty(frame, duration, NumThumbnails);
    assert Sampled(frame, duration, NumThumbnails) == [];
    assert FromDownload(probe, frame) == Err(NoThumbnails);
  }

  /** The files removed when the request fails: the download and its copy. */
  function FailureCleanup(dir: string): set<string>
  {
    {TempPath(dir), BackupPath(dir)}
  }

  /** The `finally` clause as written removes `temp_path` and `temp_path + '.bak'`,
      but `temp_path` was re-pointed to the copy once the copy opened. */
  function FailureCleanupAsWritten(videoPath: string): (r: set<string>)
    ensures videoPath in r
  {
    {videoPath, videoPath + ".bak"}
  }

  /** After a failure that follows the fallback to the copy, `temp_path` is
      the copy: as written, the clean-up removes the copy but leaves the
      original download behind. The corrected clean-up removes both. */
  lemma FailureCleanupAsWrittenMissesDownload(files: set<string>, dir: string)
    requires TempPath(dir) !in files && BackupPath(dir) !in files && BackupPath(dir) + ".bak" !in files
    ensures (files + {TempPath(dir), BackupPath(dir)}) - FailureCleanupAsWritten(BackupPath(dir)) == files + {TempPath(dir)}
    ensures (files + {TempPath(dir), BackupPath(dir)}) - FailureCleanup(dir) == files
  {
    assert |TempPath(dir)| < |BackupPath(dir)| < |BackupPath(dir) + ".bak"|;
  }

  /** `get_thumbnails` after yt-dlp's `extract_info`. `tempDir` is the fresh
      directory of `tempfile.mkdtemp`. On failure the cache is untouched and
      the files the request created are gone again; on success the URL maps
      to the moved file, stamped `now`. */
  method GetThumbnails(cache: VideoCache, fs: FileSystem, url: string, tempDir: string,
                       formats: seq<RawFormat>, probe: Probe, frame: real -> Option<string>, now: real)
    returns (r: Result<ThumbnailReply>)
    requires TempPath(tempDir) !in fs.files && BackupPath(tempDir) !in fs.files && CachePath(tempDir) !in fs.files
    modifies cache, fs
    ensures r == ThumbnailOutcome(formats, probe, frame)
    ensures r.Err? ==> cache.entries == old(cache.entries) && fs.files == old(fs.files)
    ensures r.Ok? ==> cache.entries == old(cache.entries)[url := Entry(CachePath(tempDir), now)]
    ensures r.Ok? ==> fs.files == old(fs.files) + {CachePath(tempDir)} + (if probe.opens then {} else {TempPath(tempDir)})
  {
    var selection := SelectSource(formats);
    if selection.Err? {
      r := Err(selection.error);
      return;
    }
    var selected := selection.value;
    if selected.formatId.Absent? {
      r := Err(KeyMissing("format_id"));
      return;
    }
    r := ProcessDownload(cache, fs, url, tempDir, probe, frame, now);
  }

  /** The rest of `get_thumbnails` once a format is chosen: the checks on the
      downloaded file, the sampling and the store, with the corrected clean-up
      on every failure. */
  method ProcessDownload(cache: VideoCache, fs: FileSystem, url: string, tempDir: string,
                         probe: Probe, frame: real -> Option<string>, now: real)
    returns (r: Result<ThumbnailReply>)
    requires TempPath(tempDir) !in fs.files && BackupPath(tempDir) !in fs.files && CachePath(tempDir) !in fs.files
    modifies cache, fs
    ensures r == FromDownload(probe, frame)
    ensures r.Err? ==> cache.entries == old(cache.entries) && fs.files == old(fs.files)
    ensures r.Ok? ==> cache.entries == old(cache.entries)[url := Entry(CachePath(tempDir), now)]
    ensures r.Ok? ==> fs.files == old(fs.files) + {CachePath(tempDir)} + (if probe.opens then {} else {TempPath(tempDir)})
  {
    var tempPath := TempPath(tempDir);
    if probe.downloadedBytes.Some? {
      fs.files := fs.files + {tempPath};
    }
    if tempPath !in fs.files {
      r := Err(DownloadMissing);
      return;
    }
    if probe.downloadedBytes.value == 0 {
      r := Err(DownloadEmpty);
      DiscardTemporaries(fs, tempDir);
      return;
    }
    if !probe.opens {
      var backupPath := tempPath + ".bak";
      fs.files := fs.files + {backupPath};
      if !probe.copyOpens {
        r := Err(InvalidVideoFile);
        DiscardTemporaries(fs, tempDir);
        return;
      }
      tempPath := backupPath;
    }
    if probe.frameCount <= 0 || probe.fps <= 0.0 {
      r := Err(InvalidProperties(probe.frameCount, probe.fps));
      DiscardTemporaries(fs, tempDir);
      return;
    }
    var duration := probe.frameCount as real / probe.fps;
    if duration <= 0.0 {
      r := Err(InvalidDuration(duration));
      DiscardTemporaries(fs, tempDir);
      return;
    }
    var thumbnails := SampleFrames(duration, frame);
    if thumbnails == [] {
      r := Err(NoThumbnails);
      DiscardTemporaries(fs, tempDir);
      return;
    }
    cache.Store(fs, url, tempPath, CachePath(tempDir), now);
    r := Ok(ThumbnailReply(thumbnails, duration));
  }

  /** The `finally` clause on a failure, corrected to remove both the
      download and its copy. */
  method DiscardTemporaries(fs: FileSystem, dir: string)
    modifies fs
    ensures fs.files == old(fs.files) - FailureCleanup(dir)
  {
    fs.files := fs.files - FailureCleanup(dir);
  }

  /** A non-empty download that OpenCV opens only through its byte copy. */
  predicate OpenedOnlyCopy(probe: Probe)
  {
    probe.downloadedBytes.Some? && probe.downloadedBytes.value > 0 && !probe.opens && probe.copyOpens
  }

  /** The `finally` clause on a failure, as written: it removes `temp_path`
      and `temp_path + '.bak'` for the current value of `temp_path`. */
  method DiscardAsWritten(fs: FileSystem, tempPath: string)
    modifies fs
    ensures fs.files == old(fs.files) - FailureCleanupAsWritten(tempPath)
  {
    fs.files := fs.files - FailureCleanupAsWritten(tempPath);
  }

  /** The checks on the downloaded file, the sampling and the store, with the
      clean-up as written: once only the copy opens, `temp_path` names the
      copy, and a later failure leaves the original download behind. */
  method ProcessDownloadAsWritten(cache: VideoCache, fs: FileSystem, url: string, tempDir: string,
                                  probe: Probe, frame: real -> Option<string>, now: real)
    returns (r: Result<ThumbnailReply>)
    requires TempPath(tempDir) !in fs.files && BackupPath(tempDir) !in fs.files
    requires BackupPath(tempDir) + ".bak" !in fs.files && CachePath(tempDir) !in fs.files
    modifies cache, fs
    ensures r == FromDownload(probe, frame)
    ensures r.Err? ==> cache.entries == old(cache.entries)
    ensures r.Err? ==> fs.files == old(fs.files) + (if OpenedOnlyCopy(probe) then {TempPath(tempDir)} else {})
    ensures r.Ok? ==> cache.entries == old(cache.entries)[url := Entry(CachePath(tempDir), now)]
    ensures r.Ok? ==> fs.files == old(fs.files) + {CachePath(tempDir)} + (if probe.opens then {} else {TempPath(tempDir)})
  {
    ghost var files0 := fs.files;
    var tempPath := TempPath(tempDir);
    if probe.downloadedBytes.Some? {
      fs.files := fs.files + {tempPath};
    }
    if tempPath !in fs.files {
      r := Err(DownloadMissing);
      return;
    }
    if probe.downloadedBytes.value == 0 {
      r := Err(DownloadEmpty);
      DiscardAsWritten(fs, tempPath);
      return;
    }
    if !probe.opens {
      var backupPath := tempPath + ".bak";
      fs.files := fs.files + {backupPath};
      if !probe.copyOpens {
        r := Err(InvalidVideoFile);
        DiscardAsWritten(fs, tempPath);
        return;
      }
      tempPath := backupPath;
    }
    assert fs.files == files0 + {TempPath(tempDir)} + (if probe.opens then {} else {BackupPath(tempDir)});
    if !probe.opens {
      FailureCleanupAsWrittenMissesDownload(files0, tempDir);
    }
    if probe.frameCount <= 0 || probe.fps <= 0.0 {
      r := Err(InvalidProperties(probe.frameCount, probe.fps));
      DiscardAsWritten(fs, tempPath);
      return;
    }
    var duration := probe.frameCount as real / probe.fps;
    if duration <= 0.0 {
      r := Err(InvalidDuration(duration));
      DiscardAsWritten(fs, tempPath);
      return;
    }
    var thumbnails := SampleFrames(duration, frame);
    if thumbnails == [] {
      r := Err(NoThumbnails);
      DiscardAsWritten(fs, tempPath);
      return;
    }
    cache.Store(fs, url, tempPath, CachePath(tempDir), now);
    r := Ok(ThumbnailReply(thumbnails, duration));
  }
}
