/** The request rules of `POST /download`: the clip-length validator of
    `VideoDownloadRequest` and the file name the clip is saved under. */
module Clip {
  import opened Common
  import opened Text

  /** The longest clip the server cuts, in seconds. */
  const MaxClipSeconds: real := 15.0

  /** `values.get('start_time', 0)`: the start time when it passed its own
      validation, else 0. */
  function StartOrZero(start: Option<real>): real
  {
    if start.Some? then start.value else 0.0
  }

  /** `validate_duration`: the length limit is checked first, then positivity.
      An accepted request keeps its end time. */
  function ValidateDuration(start: Option<real>, end: real): (r: Result<real>)
    ensures r.Ok? <==> 0.0 < end - StartOrZero(start) <= MaxClipSeconds
    ensures r.Ok? ==> r.value == end
    ensures r == Err(ClipTooLong) <==> end - StartOrZero(start) > MaxClipSeconds
    ensures r == Err(ClipNotPositive) <==> end - StartOrZero(start) <= 0.0
    ensures r.Err? ==> Status(r.error) == 422
  {
    var duration := end - StartOrZero(start);
    if duration > 15.0 then Err(ClipTooLong)
    else if duration <= 0.0 then Err(ClipNotPositive)
    else Ok(end)
  }

  /** A missing start time behaves as a start at 0. */
  lemma MissingStartIsZero(end: real)
    ensures ValidateDuration(None, end) == ValidateDuration(Some(0.0), end)
  {
  }

  /** Only the length of the clip matters: shifting both ends by the same
      amount never changes the verdict. */
  lemma ValidationIgnoresShift(start: real, end: real, shift: real)
    ensures ValidateDuration(Some(start + shift), end + shift).Ok? == ValidateDuration(Some(start), end).Ok?
  {
  }

  /** Shortening an accepted clip from its end keeps it accepted. */
  lemma ShorterClipAccepted(start: real, end: real, end': real)
    requires ValidateDuration(Some(start), end).Ok?
    requires start < end' <= end
    ensures ValidateDuration(Some(start), end') == Ok(end')
  {
  }

  /** The separator replacement of the file name: '/' and '\' become '_'. */
  function SafeStem(title: string): (r: string)
    ensures |r| == |title|
    ensures forall i :: 0 <= i < |title| ==>
      r[i] == (if title[i] == '/' || title[i] == '\\' then '_' else title[i])
    ensures '/' !in r && '\\' !in r
  {
    Replace(Replace(title, '/', '_'), '\\', '_')
  }

  const ClipSuffix: string := "_clip.mp4"

  /** A separator-free stem followed by the suffix is a separator-free name
      ending with the suffix. */
  lemma SuffixedName(stem: string)
    requires '/' !in stem && '\\' !in stem
    ensures '/' !in stem + ClipSuffix && '\\' !in stem + ClipSuffix
    ensures (stem + ClipSuffix)[|stem|..] == ClipSuffix
    ensures (stem + ClipSuffix)[..|stem|] == stem
  {
    var name := stem + ClipSuffix;
    assert forall c :: c in name ==> c in stem || c in ClipSuffix;
  }

  /** The name the trimmed clip is offered under:
      `info.get('title', 'video')` with the separators replaced, then the
      suffix. A title that is None has no `replace` and the request fails. */
  function DownloadFilename(title: Field<string>): (r: Result<string>)
    ensures title.Null? <==> r.Err?
    ensures r.Err? ==> r.error == TitleIsNone && Status(r.error) == 500
    ensures r.Ok? ==> '/' !in r.value && '\\' !in r.value
    ensures r.Ok? ==> |r.value| >= |ClipSuffix| && r.value[|r.value| - |ClipSuffix|..] == ClipSuffix
    ensures title.Absent? ==> r == Ok("video" + ClipSuffix)
    ensures title.Val? ==> |r.value| == |title.v| + |ClipSuffix|
    ensures title.Val? ==> forall i :: 0 <= i < |title.v| ==>
      r.value[i] == (if title.v[i] == '/' || title.v[i] == '\\' then '_' else title.v[i])
  {
    match title
    case Null => Err(TitleIsNone)
    case Absent =>
      // the default title goes through the same replacement
      SafeStemKeepsPlainTitles("video");
      SuffixedName("video");
      Ok(SafeStem("video") + ClipSuffix)
    case Val(t) =>
      var stem := SafeStem(t);
      SuffixedName(stem);
      Ok(stem + ClipSuffix)
  }

  /** Sanitising twice changes nothing more than sanitising once. */
  lemma {:induction false} SafeStemIdempotent(title: string)
    ensures SafeStem(SafeStem(title)) == SafeStem(title)
  {
    var once := SafeStem(title);
    var twice := SafeStem(once);
    assert |twice| == |once|;
    forall i | 0 <= i < |once| ensures twice[i] == once[i] {
      assert once[i] != '/' && once[i] != '\\';
    }
  }

  /** A title without separators is kept as it is. */
  lemma {:induction false} SafeStemKeepsPlainTitles(title: string)
    requires '/' !in title && '\\' !in title
    ensures SafeStem(title) == title
  {
    var s := SafeStem(title);
    forall i | 0 <= i < |title| ensures s[i] == title[i] {
      assert title[i] != '/' && title[i] != '\\';
    }
  }
}
