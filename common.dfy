/** Values shared by every endpoint of the backend: optional values, the way
    Python's `dict.get` reads a record reported by yt-dlp, the raw format
    record itself, and the errors the endpoints turn into HTTP responses. */
module Common {

  datatype Option<T> = None | Some(value: T)

  /** One key of a Python dict: missing, present and None, or present with a value.
      `d.get(k)` cannot tell the first two apart, `d.get(k, default)` can. */
  datatype Field<T> = Absent | Null | Val(v: T)

  /** `d.get(k)`: a missing key and a None value both read as None. */
  function Get<T>(f: Field<T>): Option<T>
  {
    if f.Val? then Some(f.v) else None
  }

  /** `d.get(k, default)`: only a missing key yields the default. */
  function GetOr<T>(f: Field<T>, default: T): Option<T>
  {
    match f
    case Absent => Some(default)
    case Null => None
    case Val(v) => Some(v)
  }

  /** One entry of `info['formats']` as yt-dlp's `extract_info` reports it,
      restricted to the keys the backend reads. */
  datatype RawFormat = RawFormat(
    formatId: Field<string>,
    formatNote: Field<string>,
    ext: Field<string>,
    vcodec: Field<string>,
    acodec: Field<string>,
    width: Field<int>,
    height: Field<int>,
    filesize: Field<int>,
    url: Field<string>)

  /** The failures the endpoints report. */
  datatype ApiError =
    | ClipTooLong              // validator: "Maximum clip duration is 15 seconds"
    | ClipNotPositive          // validator: "End time must be greater than start time"
    | KeyMissing(key: string)  // a KeyError on `fmt[key]`
    | TitleIsNone              // `None.replace(...)` on a null title
    | NoSuitableFormat         // "No suitable video format found"
    | HeightNotComparable      // `None >= 360` raises a TypeError
    | DownloadMissing          // "Video download failed - file not found"
    | DownloadEmpty            // "Video download failed - empty file"
    | InvalidVideoFile         // "Failed to open video file - invalid format"
    | InvalidProperties(frames: int, fps: real)
    | InvalidDuration(duration: real)
    | NoThumbnails             // "Failed to generate any thumbnails"
    | NotLoaded                // "Please load video information first"
    | Rewrapped(inner: ApiError)  // an HTTPException caught by a bare `except Exception`

  /** The HTTP status a client receives for an error. Validation errors raised
      inside a request model are answered with 422 by the framework. */
  function Status(e: ApiError): (r: int)
    ensures r == 400 || r == 422 || r == 500
    ensures r == 422 <==> e == ClipTooLong || e == ClipNotPositive
    ensures r == 400 <==> e == NoSuitableFormat || e == NotLoaded
  {
    match e
    case ClipTooLong => 422
    case ClipNotPositive => 422
    case NoSuitableFormat => 400
    case NotLoaded => 400
    case _ => 500
  }

  datatype Result<T> = Ok(value: T) | Err(error: ApiError)
}
