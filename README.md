# ytdl-gui backend rules, modelled in Dafny

This project models the self-contained rules inside the FastAPI backend
`main.py` of a browser-based video clip tool. The backend wraps yt-dlp,
ffmpeg and OpenCV. The model covers:

- **`POST /formats`**: the loop over yt-dlp's raw format records
  (`Formats.NormaliseFormats`). It drops formats without video, storyboards
  and formats with a zero width or height. It keeps the first format of each
  `"WxH"` resolution and labels it from the quality ladder (4K … 360p,
  otherwise `"{h}p"`). The stable sort then orders the list by the height
  read back from the resolution text, highest first.
- **The server-side cache `video_cache`** (`Cache.VideoCache`): the sweep
  `cleanup_old_cache` drops entries strictly older than 3600 s together with
  their files. `/preview` sweeps and then looks the URL up.
  `/thumbnails` stores the downloaded file after a successful run.
- **`VideoDownloadRequest.validate_duration`** (`Clip.ValidateDuration`): a
  clip is accepted iff `0 < end - start <= 15`. Inside the validator a missing
  start reads as 0; the request model itself requires `start_time`.
  The download file name (`Clip.DownloadFilename`) is also modelled.
- **`POST /thumbnails`** (`Thumbnails`): the choice of the source format
  (mp4/webm with a video codec, preferably at least 360 high, first smallest
  filesize), the loop that samples 20 frames at `duration * i / 20`, and the
  whole request. The request stores into the cache only on success.

Python's `dict.get` is modelled by `Common.Field`. A record key is `Absent`,
`Null` (present and None) or `Val(v)`. This distinction matters:
`fmt.get('height', 0)` yields 0 only for a missing key. A None height passes
the `== 0` filter of `/formats` and renders as `"None"`. In `/thumbnails`
the same None makes `>= 360` raise a TypeError.

Times are reals and `time.time()` is the parameter `now`. The file system is
a `FileSystem` object holding the set of existing paths. yt-dlp's download
and OpenCV's probing arrive as parameters: `Thumbnails.Probe` and
`frame: real -> Option<string>`, which gives the encoded frame at a position
or None when seeking, reading or encoding it fails.

Errors are the kinds of `Common.ApiError`, and `Common.Status` gives each
one's HTTP status. Validation errors answer 422, "no suitable format" and
"load video information first" carry 400, and the rest carry 500. As
written, `/preview` catches its own 400 and answers 500 instead (see
Findings); `Cache.PreviewAsWritten` models that answer.

## Model

| member | source | states |
|---|---|---|
| `Formats.Eligible` | main.py:96-111 | The three `continue` guards. Stated by `Formats.FormatsFromSkipsIneligible`. |
| `Formats.FormatsFromSkipsIneligible` | main.py:96-111 | Removing a format with vcodec 'none', a 'storyboard' note, or a zero or missing width or height from the input leaves the answer of `/formats` unchanged. |
| `Formats.ScanSkipsIneligible` | main.py:96-111 | The same for the loop started with any set of taken resolutions, wherever the skipped format stands. |
| `Formats.QualityName` | main.py:120-135 | A height of 360 or more gets one of the six ladder names. A smaller non-zero height gets `"{h}p"`. A zero or None height keeps the format note, which defaults to 'unknown' and renders a None note as `"None"`. |
| `Formats.Convert` | main.py:104-148 | The appended entry carries the raw format's `format_id`, filesize and `"WxH"` resolution, and `has_audio` holds iff its acodec is not 'none'. Its `quality` is the ladder name, then " - ", then the resolution. `ext` defaults to 'unknown' and `url` to ''. |
| `Formats.FormatsFromLabels` | main.py:120-148 | Every listed entry comes from an eligible raw format. Its label is the first rung of the ladder (2160 "4K" … 360 "360p") that the height reaches, `"{h}p"` below 360, or the format note for a None height, followed by " - " and the resolution. |
| `Formats.Scan` | main.py:94-149 | The loop as a reference definition over the rest of the input and the taken resolutions. It can only fail with the KeyError on `format_id`. |
| `Formats.ScanLength` | main.py:94-149 | The loop appends at most one entry per raw format. |
| `Formats.SortKey` | main.py:152-154 | The key is never negative. `Formats.ResolutionSortKey` states its value. |
| `Formats.SortByHeight` | main.py:156 | The sort keeps the length. `Formats.SortByHeightFacts` states order, permutation and stability. |
| `Formats.FormatsFrom` | main.py:94-156 | The answer of `/formats` holds at most one entry per raw format. Its only failure is the KeyError on `format_id`, which answers 500. |
| `Formats.NormaliseFormats` | main.py:91-156 | The loop with its `formats` list and `seen_resolutions` set, followed by the sort, computes exactly `FormatsFrom(raw)`. The loop invariant ties the entries built so far to the reference scan of the remaining input. |
| `Formats.FormatsFromKeptInputs` | main.py:94-149 | Every listed entry is the conversion of a raw format that is the first eligible one with its resolution and has a `format_id` key. |
| `Formats.FormatsFromFiltered` | main.py:96-148 | For every listed entry there is a raw format with vcodec not 'none' and format_note not 'storyboard'. Its width and height are not 0. The entry's resolution is its `"WxH"`, its label is the quality name followed by " - " and that resolution, `has_audio` holds iff its acodec is not 'none', and `ext` and `url` are read with the defaults 'unknown' and ''. |
| `Formats.FormatsFromKeepsFirst` | main.py:113-149 | The first eligible format of every resolution is listed. Every eligible input's resolution appears in the output. |
| `Formats.FormatsFromDistinct` | main.py:113-149 | No two listed entries share a resolution string. |
| `Formats.FormatsFromSorted` | main.py:151-156 | The output is ordered by height, non-increasing. It is a permutation of the de-duplicated list. For every height, the entries of that height keep their input order (the sort is stable). |
| `Formats.FormatsFromFails` | main.py:140-166 | The request fails iff a kept format lacks the `format_id` key (a KeyError), and then answers 500. |
| `Formats.QualityNameFollowsRungs` | main.py:120-138 | The if-chain gives the name of the first rung of the table (2160 "4K", 1440 "2K", 1080, 720, 480, 360) that the height reaches. Below 360 it gives `"{h}p"`. |
| `Formats.ResolutionSortKey` | main.py:145-154 | `"WxH".split('x')` has exactly two parts. `sort_key` reads back the height when it is a non-negative number; a negative or None height sorts as 0. |
| `Formats.SortByHeightFacts` | main.py:156 | The stable descending sort gives a sorted permutation that keeps the input order among equal heights. |
| `Formats.ScanSound` | main.py:94-149 | For the loop started with a set of taken resolutions, every appended entry is the conversion of the first eligible format with a resolution not yet taken, and that format has a `format_id` key. |
| `Formats.ScanComplete` | main.py:94-149 | For the loop started with a set of taken resolutions, every first eligible format with a new resolution gets an entry. |
| `Formats.ScanDistinct` | main.py:113-149 | The appended entries have pairwise distinct resolutions, none of them already taken. |
| `Formats.ScanFailsIff` | main.py:140-141 | The loop raises exactly when a format it would append has no `format_id` key. |
| `Text.Split` | main.py:153 | `str.split` with a one-character separator gives at least one part, and no part holds the separator. |
| `Text.SplitJoinRoundTrip` | main.py:153 | Joining the parts of a split with the separator gives the text back. |
| `Text.DigitsValueOfNatToString` | main.py:153 | `int()` of the decimal text of a natural number gives the number back. |
| `Text.Replace` | main.py:200 | `str.replace` with one-character arguments keeps the length and replaces exactly the matching characters. |
| `Clip.ValidateDuration` | main.py:63-71 | A clip is accepted iff `0 < end - start <= 15`, and it keeps its end time. Above 15 it fails with "Maximum clip duration", and at 0 or below with "End time must be greater"; both answer 422. |
| `Clip.MissingStartIsZero` | main.py:65 | Inside the validator, a missing start time (`values.get('start_time', 0)`) behaves as start 0. |
| `Clip.ValidationIgnoresShift` | main.py:66-70 | Only the clip length matters: shifting both ends never changes the verdict. |
| `Clip.ShorterClipAccepted` | main.py:66-70 | Moving the end of an accepted clip earlier, but still after the start, keeps it accepted. |
| `Clip.SafeStem` | main.py:200 | Every '/' and '\\' of the title becomes '_', and the length and all other characters are unchanged. |
| `Clip.DownloadFilename` | main.py:200 | The name holds no '/' or '\\' and ends with `_clip.mp4`. It is `video_clip.mp4` without a title, and a None title fails. The title part keeps its length and position-wise characters. |
| `Clip.SafeStemIdempotent` | main.py:200 | Sanitising an already sanitised title changes nothing. |
| `Clip.SafeStemKeepsPlainTitles` | main.py:200 | A title without separators is kept as it is. |
| `Common.Status` | main.py:395-400 | Every error answers 400, 422 or 500. 422 is exactly the two validator errors, and 400 exactly "no suitable format" and "load video information first". In `/download` and `/thumbnails` the HTTPExceptions pass through `except HTTPException`, and every other exception becomes a 500. |
| `Cache.Survivors` | main.py:44-50 | The sweep adds no URL and changes no surviving entry. Every entry at most an hour old survives. An expired entry whose file is gone is dropped. |
| `Cache.VideoCache.CleanupOldCache` | main.py:42-52 | The cache becomes exactly the old entries minus the expired ones whose file is gone or could be unlinked. The files removed are exactly those unlinked. |
| `Cache.VideoCache.Preview` | main.py:407-416 | Sweeps the cache, then answers the lookup on the swept cache. |
| `Cache.VideoCache.Store` | main.py:373-378 | Renames the downloaded file to the cache path, then maps the URL to that path and `now`, replacing any earlier entry. |
| `Cache.Lookup` | main.py:411-416 | A hit iff the URL is cached and its file exists, and the hit returns that path. |
| `Cache.SweepKeepsStuckEntries` | main.py:46-52 | An expired entry survives the sweep iff its file exists and its unlink fails: the exception is logged and the `del` never runs. |
| `Cache.SweepExact` | main.py:40-50 | When every unlink succeeds, the survivors are exactly the entries with `now - timestamp <= 3600`. An entry aged exactly 3600 s survives. |
| `Cache.SweepIdempotent` | main.py:42-52 | A second sweep at the same time removes nothing and unlinks nothing. |
| `Cache.SweepMonotoneInTime` | main.py:44-45 | A later sweep keeps no entry that an earlier one would drop. |
| `Cache.StoredVideoIsServed` | main.py:375-413 | A stored video, whose file no other entry shares, is served by `/preview` for the 3600 s after it was stored. |
| `Cache.LookupMissIsBadRequest` | main.py:411-416 | The lookup fails iff the URL is unknown or its file vanished, and the failure carries status 400. |
| `Cache.PreviewAsWritten` | main.py:404-434 | As written, `/preview` answers a hit like the lookup, but every miss reaches the client with status 500. |
| `Cache.PreviewAsWrittenMissIs500` | main.py:414-434 | For an unknown URL, the written handler answers 500 where the lookup's error is the 400. |
| `Thumbnails.VideoFormats` | main.py:278 | The comprehension keeps exactly the mp4/webm formats whose vcodec is not 'none', in input order (a subsequence of the input). |
| `Thumbnails.TallFormats` | main.py:283 | The comprehension keeps exactly the formats with a height of at least 360, in input order (a subsequence of the input). |
| `Thumbnails.VideoFormatsAppend` | main.py:278 | Filtering a concatenation filters each part in turn, so no kept format moves past another. |
| `Thumbnails.TallFormatsAppend` | main.py:283 | The same for the height filter. |
| `Thumbnails.SelectSource` | main.py:278-291 | The format whose `format_id` is passed to the download. It is an input mp4/webm format with a video codec, and a failure is either "no suitable format" or the TypeError of a None height. |
| `Thumbnails.FirstMin` | main.py:287 | `min` with a key returns a format whose key is not larger than any other. Every earlier format has a strictly larger key, so the first minimum wins. |
| `Thumbnails.SelectSourceFails` | main.py:278-287 | Selection fails with 400 iff no mp4/webm format with a video codec exists. It fails with the 500 TypeError iff such formats exist and one of them has a None height. |
| `Thumbnails.SelectSourceIsVideo` | main.py:278-287 | The selected format is an input mp4/webm format with a video codec. If any such format is at least 360 high, the selection is too. |
| `Thumbnails.SelectSourceIsSmallest` | main.py:282-287 | The candidates are the tall video formats, or all video formats when none is tall. The selected one has a minimal filesize key (missing, None or 0 counts as infinity). The first minimum wins, both in candidate order and in the order of `info['formats']`: every candidate that comes earlier in the input has a strictly larger key. |
| `Thumbnails.FirstInInputOrder` | main.py:278-287 | The selected format occurs in the input, and every candidate before its first occurrence has a strictly larger filesize key. |
| `Thumbnails.Sampled` | main.py:334-363 | At most one thumbnail per position, each a `data:image/jpeg;base64,` URL. |
| `Thumbnails.SampleFrames` | main.py:334-363 | The sampling loop yields exactly the thumbnails of the frames that came out, in position order. |
| `Thumbnails.SampledPrefix` | main.py:337-359 | Sampling fewer positions gives a prefix: thumbnails appear in index order. |
| `Thumbnails.SampledAllFrames` | main.py:337-359 | When every frame comes out, there are exactly 20 thumbnails, and the i-th is the frame at position i. |
| `Thumbnails.SampledEmpty` | main.py:337-368 | No thumbnail at all iff no frame came out. |
| `Thumbnails.PositionsSpread` | main.py:338 | The positions start at 0 and strictly increase. All of them lie before the end of the video. |
| `Thumbnails.FromDownload` | main.py:296-381 | Once a format is selected, every failure of the file checks, the probe or the sampling answers 500. A success carries 1 to 20 thumbnails and a positive duration. |
| `Thumbnails.ThumbnailOutcome` | main.py:252-400 | The answer of `/thumbnails`: a failure answers 400 only for "no suitable format", and 500 otherwise. |
| `Thumbnails.ThumbnailOutcomeOk` | main.py:278-381 | A success carries 1 to 20 JPEG data URLs and the duration `frames / fps > 0`. It comes from a selected format with an id, and at least one frame came out. |
| `Thumbnails.NoFrameNoThumbnails` | main.py:365-368 | If every step succeeds but no frame comes out, the answer is the 500 "Failed to generate any thumbnails". |
| `Thumbnails.FailureCleanupAsWritten` | main.py:383-393 | The `finally` clause removes `temp_path` and `temp_path + '.bak'` for the current value of `temp_path`. |
| `Thumbnails.FailureCleanupAsWrittenMissesDownload` | main.py:308-393 | Starting from a directory that holds the download and its copy, the written clean-up leaves the files as before plus `video.mp4`. The corrected clean-up leaves the files exactly as before. |
| `Thumbnails.GetThumbnails` | main.py:252-400 | The answer is `ThumbnailOutcome`. On failure the cache and the file system are as before. On success the URL maps to the moved file stamped `now`, and `video.mp4` stays behind when only the copy opened. |
| `Thumbnails.ProcessDownload` | main.py:296-393 | After the selection, the answer is `FromDownload`, with the same state changes as `GetThumbnails`: nothing changes on failure, and on success the URL is cached. |
| `Thumbnails.FromDownloadOk` | main.py:296-381 | Once the file checks pass, a success carries 1 to 20 JPEG data URLs and the duration `frames / fps > 0`, and at least one frame came out. |
| `Thumbnails.DiscardTemporaries` | main.py:383-393 | The failure clean-up, corrected: it removes both the download and its copy. |
| `Thumbnails.DiscardAsWritten` | main.py:383-393 | The failure clean-up as written: it removes `temp_path` and `temp_path + '.bak'` for the current `temp_path`. |
| `Thumbnails.ProcessDownloadAsWritten` | main.py:296-393 | The handler after the selection, with `temp_path` rebound to the copy as written. The answer is `FromDownload`, and the cache is unchanged on failure. A failure after only the copy opened leaves `video.mp4` behind; any other failure leaves the files as before. A success changes the state as `ProcessDownload` does. |

## Findings

| source | as written | input that shows it | evidently intended | confidence | as-written member | corrected member |
|---|---|---|---|---|---|---|
| main.py:404-434 | The "Please load video information first" HTTPException (400) is raised inside a `try` whose only handler is `except Exception`. The handler re-raises it as a 500 whose detail is the string form of the 400. | `POST /preview` for a URL that is not in `video_cache` | status 400 with the "load first" detail | medium, not executed (the detail text depends on the framework version; the status is 500 in all of them) | `Cache.PreviewAsWrittenMissIs500` | `Cache.LookupMissIsBadRequest` |
| main.py:308-393 | Once OpenCV opens only the `.bak` copy, `temp_path` points at the copy. A later failure then unlinks the copy and checks for `video.mp4.bak.bak`, which never exists, but leaves `video.mp4`. `os.rmdir` then fails on the non-empty directory, and both are left behind. | The download opens only as a copy, and then every frame read fails (or the frame count is 0) | the failure path removes every file the request created | high, not executed | `Thumbnails.ProcessDownloadAsWritten` | `Thumbnails.ProcessDownload` |

`Cache.VideoCache.Preview` and `Thumbnails.GetThumbnails` use the corrected
behaviour. `Cache.PreviewAsWritten`, `Thumbnails.ProcessDownloadAsWritten`
and `Thumbnails.FailureCleanupAsWrittenMissesDownload` keep the behaviour as
written.

## Left out

- FastAPI routing, CORS, pydantic field parsing and the streamed responses are framework glue. Only the validator's decision and the HTTP status of each error are modelled.
- yt-dlp is a foreign library. `extract_info` is modelled by its output, a sequence of `RawFormat` records. The download is modelled by `Probe.downloadedBytes`, and a download that raises is folded into "file not found" (both answer 500). The format yt-dlp finally downloads is its own decision; the model records only the selection.
- The `title` and `duration` fields of the `/formats` reply are plain pass-throughs of `info.get` and are not modelled.
- The ffmpeg trimming of `/download` is an external process. Only its file name is modelled.
- OpenCV decoding, seeking, resizing, JPEG encoding and base64 are media code. The frame oracle `frame` stands for them, and the encoded image is an opaque string.
- Floating point is not modelled: times, `CACHE_DURATION`, `frame_count / fps` and the sample positions are reals. With reals the "Invalid video duration" branch cannot be taken.
- Exact error texts are not modelled: the errors are kinds with their HTTP status.
- Logging is left out, and `time.time()` is the parameter `now`.
- `Cache.VideoCache.CleanupOldCache`: it removes the expired URLs in an arbitrary order, not in dict order. The result does not depend on the order.
- `Formats.SortKey`: the IndexError for a resolution without an 'x' is not modelled. Every resolution is built with one (`Formats.ResolutionSortKey`).
- `Cache.StoredVideoIsServed`: it assumes that no other entry shares the cached file. Each request stores into its own fresh temporary directory.
- `Thumbnails.GetThumbnails`: on failure it models the corrected clean-up (see Findings). The temporary directory itself is not tracked.
- `Thumbnails.ProcessDownload`: it models the corrected clean-up. As written, a failure after the fallback to the `.bak` copy leaves `video.mp4` behind; `Thumbnails.ProcessDownloadAsWritten` models that.
- `Cache.VideoCache.Preview`: a miss carries the intended 400. As written, the handler's `except Exception` turns it into a 500; `Cache.PreviewAsWritten` models that.
