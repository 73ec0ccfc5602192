/** The format list of `POST /formats` (main.py `get_formats`): the raw formats
    reported by yt-dlp are filtered, de-duplicated by their "WxH" resolution,
    labelled from a height ladder and sorted by height, highest first. */
module Formats {
  import opened Common
  import opened Text

  /** One entry of the `formats` list sent to the client. `filesize` is passed
      through as read; a missing key is sent as the string "unknown". */
  datatype Format = Format(
    formatId: Option<string>,
    quality: string,
    ext: Option<string>,
    filesize: Field<int>,
    resolution: string,
    hasAudio: bool,
    url: Option<string>)

  /** `fmt.get('height', 0)` and `fmt.get('width', 0)`: None only for a null value. */
  function Height(f: RawFormat): Option<int> { GetOr(f.height, 0) }
  function Width(f: RawFormat): Option<int> { GetOr(f.width, 0) }

  /** The three `continue` guards of the loop: no video codec, a storyboard,
      or a zero (or missing) width or height. */
  predicate Eligible(f: RawFormat)
  {
    && Get(f.vcodec) != Some("none")
    && Get(f.formatNote) != Some("storyboard")
    && Height(f) != Some(0)
    && Width(f) != Some(0)
  }

  /** f"{width}x{height}": both the de-duplication key and the `resolution` field. */
  function ResolutionKey(f: RawFormat): string
  {
    OptIntToString(Width(f)) + "x" + OptIntToString(Height(f))
  }

  /** The quality ladder. Without a usable height the format note is kept. */
  function QualityName(note: Option<string>, height: Option<int>): (r: string)
    ensures height.Some? && height.value >= 360 ==> r in {"4K", "2K", "1080p", "720p", "480p", "360p"}
    ensures height.Some? && height.value != 0 && height.value < 360 ==> r == IntToString(height.value) + "p"
    ensures height.None? || height == Some(0) ==> r == OptToString(note)
  {
    if height.None? || height.value == 0 then OptToString(note)
    else
      var h := height.value;
      if h >= 2160 then "4K"
      else if h >= 1440 then "2K"
      else if h >= 1080 then "1080p"
      else if h >= 720 then "720p"
      else if h >= 480 then "480p"
      else if h >= 360 then "360p"
      else IntToString(h) + "p"
  }

  /** The ladder written as a table of (lowest height, name), tallest rung first. */
  const QualityRungs: seq<(int, string)> :=
    [(2160, "4K"), (1440, "2K"), (1080, "1080p"), (720, "720p"), (480, "480p"), (360, "360p")]

  /** The name of the first rung a height reaches, if any. */
  function RungName(rungs: seq<(int, string)>, h: int): Option<string>
  {
    if rungs == [] then None
    else if h >= rungs[0].0 then Some(rungs[0].1)
    else RungName(rungs[1..], h)
  }

  /** The if-chain names the first rung of the table the height reaches, and
      below the last rung it names the height itself. */
  lemma QualityNameFollowsRungs(note: Option<string>, h: int)
    requires h != 0
    ensures RungName(QualityRungs, h).Some? ==> QualityName(note, Some(h)) == RungName(QualityRungs, h).value
    ensures RungName(QualityRungs, h).None? <==> h < 360
    ensures h < 360 ==> QualityName(note, Some(h)) == IntToString(h) + "p"
  {
    var r := QualityRungs;
    var r1 := [(1440, "2K"), (1080, "1080p"), (720, "720p"), (480, "480p"), (360, "360p")];
    var r2 := [(1080, "1080p"), (720, "720p"), (480, "480p"), (360, "360p")];
    var r3 := [(720, "720p"), (480, "480p"), (360, "360p")];
    var r4 := [(480, "480p"), (360, "360p")];
    var r5 := [(360, "360p")];
    assert r[1..] == r1 && r1[1..] == r2 && r2[1..] == r3 && r3[1..] == r4 && r4[1..] == r5 && r5[1..] == [];
    assert RungName(r5, h) == if h >= 360 then Some("360p") else None;
    assert RungName(r4, h) == if h >= 480 then Some("480p") else RungName(r5, h);
    assert RungName(r3, h) == if h >= 720 then Some("720p") else RungName(r4, h);
    assert RungName(r2, h) == if h >= 1080 then Some("1080p") else RungName(r3, h);
    assert RungName(r1, h) == if h >= 1440 then Some("2K") else RungName(r2, h);
    assert RungName(r, h) == if h >= 2160 then Some("4K") else RungName(r1, h);
  }

  /** The entry the loop appends for a kept format. `fmt['format_id']` is only
      read when the key exists; a missing one raises a KeyError. */
  function Convert(f: RawFormat): (r: Format)
    requires !f.formatId.Absent?
    ensures r.formatId == Get(f.formatId) && r.resolution == ResolutionKey(f)
    ensures r.hasAudio <==> Get(f.acodec) != Some("none")
    ensures r.filesize == f.filesize
    ensures r.quality == QualityName(GetOr(f.formatNote, "unknown"), Height(f)) + " - " + ResolutionKey(f)
    ensures r.ext == GetOr(f.ext, "unknown") && r.url == GetOr(f.url, "")
  {
    Format(
      Get(f.formatId),
      QualityName(GetOr(f.formatNote, "unknown"), Height(f)) + " - " + ResolutionKey(f),
      GetOr(f.ext, "unknown"),
      f.filesize,
      ResolutionKey(f),
      Get(f.acodec) != Some("none"),
      GetOr(f.url, ""))
  }

  /** The loop as a reference definition: the entries appended for `raw` when
      the resolutions in `seen` were already taken. */
  function Scan(raw: seq<RawFormat>, seen: set<string>): (r: Result<seq<Format>>)
    ensures r.Err? ==> r.error == KeyMissing("format_id")
    decreases |raw|
  {
    if raw == [] then Ok([])
    else
      var f := raw[0];
      if !Eligible(f) || ResolutionKey(f) in seen then Scan(raw[1..], seen)
      else if f.formatId.Absent? then Err(KeyMissing("format_id"))
      else
        match Scan(raw[1..], seen + {ResolutionKey(f)})
        case Ok(rest) => Ok([Convert(f)] + rest)
        case Err(e) => Err(e)
  }

  function Prepend(done: seq<Format>, r: Result<seq<Format>>): Result<seq<Format>>
  {
    match r
    case Ok(rest) => Ok(done + rest)
    case Err(e) => Err(e)
  }

  lemma PrependTwice(a: seq<Format>, b: seq<Format>, r: Result<seq<Format>>)
    ensures Prepend(a, Prepend(b, r)) == Prepend(a + b, r)
  {
    if r.Ok? {
      assert a + (b + r.value) == (a + b) + r.value;
    }
  }

  /** `sort_key`: the text after the 'x' of the resolution, as an int when it is
      a digit string, else 0. A resolution without an 'x' would raise an
      IndexError; none is ever built (ResolutionSortKey). */
  function SortKey(resolution: string): (k: int)
    ensures k >= 0
  {
    var parts := Split(resolution, 'x');
    if |parts| >= 2 && IsDigits(parts[1]) then DigitsValue(parts[1]) else 0
  }

  function HeightKey(f: Format): int { SortKey(f.resolution) }

  /** Insert `x` before the first entry that is not higher: `x` stays ahead of
      entries of equal height that came after it in the input. */
  function Insert(x: Format, s: seq<Format>): (r: seq<Format>)
    ensures |r| == |s| + 1
  {
    if s == [] then [x]
    else if HeightKey(s[0]) > HeightKey(x) then [s[0]] + Insert(x, s[1..])
    else [x] + s
  }

  /** `formats.sort(key=sort_key, reverse=True)`: a stable sort, highest first. */
  function SortByHeight(s: seq<Format>): (r: seq<Format>)
    ensures |r| == |s|
  {
    if s == [] then [] else Insert(s[0], SortByHeight(s[1..]))
  }

  /** What `/formats` answers for a list of raw formats. */
  function FormatsFrom(raw: seq<RawFormat>): (r: Result<seq<Format>>)
    ensures r.Ok? ==> |r.value| <= |raw|
    ensures r.Err? ==> r.error == KeyMissing("format_id") && Status(r.error) == 500
  {
    match Scan(raw, {})
    case Ok(t) => ScanLength(raw, {}); Ok(SortByHeight(t))
    case Err(e) => Err(e)
  }

  /** The scan keeps at most one format per input entry. */
  lemma {:induction false} ScanLength(raw: seq<RawFormat>, seen: set<string>)
    ensures Scan(raw, seen).Ok? ==> |Scan(raw, seen).value| <= |raw|
  {
    if raw != [] {
      var f := raw[0];
      if Eligible(f) && ResolutionKey(f) !in seen {
        ScanLength(raw[1..], seen + {ResolutionKey(f)});
      } else {
        ScanLength(raw[1..], seen);
      }
    }
  }

  /** A format the guards skip has no effect on the scan, wherever it stands. */
  lemma {:induction false} ScanSkipsIneligible(a: seq<RawFormat>, f: RawFormat, b: seq<RawFormat>, seen: set<string>)
    requires !Eligible(f)
    ensures Scan(a + [f] + b, seen) == Scan(a + b, seen)
  {
    if a == [] {
      assert a + [f] + b == [f] + b && ([f] + b)[1..] == b && a + b == b;
    } else {
      assert (a + [f] + b)[0] == a[0] && (a + [f] + b)[1..] == a[1..] + [f] + b;
      assert (a + b)[0] == a[0] && (a + b)[1..] == a[1..] + b;
      if Eligible(a[0]) && ResolutionKey(a[0]) !in seen {
        ScanSkipsIneligible(a[1..], f, b, seen + {ResolutionKey(a[0])});
      } else {
        ScanSkipsIneligible(a[1..], f, b, seen);
      }
    }
  }

  /** Dropping a format with no video codec, a storyboard or a zero width or
      height from the input leaves the answer of `/formats` as it was. */
  lemma FormatsFromSkipsIneligible(raw: seq<RawFormat>, i: int)
    requires 0 <= i < |raw| && !Eligible(raw[i])
    ensures FormatsFrom(raw[..i] + raw[i + 1..]) == FormatsFrom(raw)
  {
    assert raw == raw[..i] + [raw[i]] + raw[i + 1..];
    ScanSkipsIneligible(raw[..i], raw[i], raw[i + 1..], {});
  }

  /** One step of the reference scan at position `i` of the input. */
  lemma ScanAt(raw: seq<RawFormat>, i: int, seen: set<string>)
    requires 0 <= i < |raw|
    ensures !Eligible(raw[i]) || ResolutionKey(raw[i]) in seen ==> Scan(raw[i..], seen) == Scan(raw[i + 1..], seen)
    ensures Eligible(raw[i]) && ResolutionKey(raw[i]) !in seen && raw[i].formatId.Absent? ==>
      Scan(raw[i..], seen) == Err(KeyMissing("format_id"))
    ensures Eligible(raw[i]) && ResolutionKey(raw[i]) !in seen && !raw[i].formatId.Absent? ==>
      Scan(raw[i..], seen) == Prepend([Convert(raw[i])], Scan(raw[i + 1..], seen + {ResolutionKey(raw[i])}))
  {
    assert raw[i..][0] == raw[i] && raw[i..][1..] == raw[i + 1..];
  }

  /** The loop of `get_formats` over `info['formats']`, then the sort. */
  method NormaliseFormats(raw: seq<RawFormat>) returns (r: Result<seq<Format>>)
    ensures r == FormatsFrom(raw)
  {
    var formats: seq<Format> := [];
    var seenResolutions: set<string> := {};
    var i := 0;
    assert raw[0..] == raw;
    assert Scan(raw, {}).Ok? ==> [] + Scan(raw, {}).value == Scan(raw, {}).value;
    while i < |raw|
      invariant 0 <= i <= |raw|
      invariant Prepend(formats, Scan(raw[i..], seenResolutions)) == Scan(raw, {})
    {
      var fmt := raw[i];
      ScanAt(raw, i, seenResolutions);
      i := i + 1;
      if Get(fmt.vcodec) == Some("none") {
        continue;
      }
      if Get(fmt.formatNote) == Some("storyboard") {
        continue;
      }
      var height := GetOr(fmt.height, 0);
      var width := GetOr(fmt.width, 0);
      var ext := GetOr(fmt.ext, "unknown");
      var url := GetOr(fmt.url, "");
      if height == Some(0) || width == Some(0) {
        continue;
      }
      var resolutionKey := OptIntToString(width) + "x" + OptIntToString(height);
      if resolutionKey in seenResolutions {
        continue;
      }
      var quality := QualityName(GetOr(fmt.formatNote, "unknown"), height);
      // f"{quality} - {width}x{height}": the same text as the resolution key
      var qualityLabel := quality + " - " + resolutionKey;
      assert Eligible(fmt) && resolutionKey == ResolutionKey(fmt);
      if fmt.formatId.Absent? {
        return Err(KeyMissing("format_id"));
      }
      var entry := Format(Get(fmt.formatId), qualityLabel, ext, fmt.filesize,
                          resolutionKey, Get(fmt.acodec) != Some("none"), url);
      assert entry == Convert(fmt);
      PrependTwice(formats, [entry], Scan(raw[i..], seenResolutions + {resolutionKey}));
      formats := formats + [entry];
      seenResolutions := seenResolutions + {resolutionKey};
    }
    assert raw[i..] == [];
    assert formats + [] == formats;
    r := Ok(SortByHeight(formats));
  }

  // ---------------------------------------------------------------------
  // What the de-duplication keeps

  /** Format `i` is the first eligible one with its resolution, and that
      resolution was not taken already. */
  predicate FirstNew(raw: seq<RawFormat>, seen: set<string>, i: int)
  {
    && 0 <= i < |raw|
    && Eligible(raw[i])
    && ResolutionKey(raw[i]) !in seen
    && forall m :: 0 <= m < i && Eligible(raw[m]) ==> ResolutionKey(raw[m]) != ResolutionKey(raw[i])
  }

  /** The resolutions taken after looking at one format. */
  function Taken(f: RawFormat, seen: set<string>): set<string>
  {
    if Eligible(f) then seen + {ResolutionKey(f)} else seen
  }

  lemma ScanStep(raw: seq<RawFormat>, seen: set<string>)
    requires raw != []
    ensures Eligible(raw[0]) && ResolutionKey(raw[0]) in seen ==> Taken(raw[0], seen) == seen
    ensures !Eligible(raw[0]) || ResolutionKey(raw[0]) in seen ==> Scan(raw, seen) == Scan(raw[1..], Taken(raw[0], seen))
  {
  }

  /** Dropping the head format shifts first occurrences by one. */
  lemma FirstNewShift(raw: seq<RawFormat>, seen: set<string>, i: int)
    requires raw != [] && 1 <= i
    ensures FirstNew(raw, seen, i) <==> FirstNew(raw[1..], Taken(raw[0], seen), i - 1)
  {
    if FirstNew(raw, seen, i) {
      forall m | 0 <= m < i - 1 && Eligible(raw[1..][m])
        ensures ResolutionKey(raw[1..][m]) != ResolutionKey(raw[1..][i - 1])
      {
        assert raw[1..][m] == raw[m + 1];
      }
    }
    if FirstNew(raw[1..], Taken(raw[0], seen), i - 1) {
      forall m | 0 <= m < i && Eligible(raw[m])
        ensures ResolutionKey(raw[m]) != ResolutionKey(raw[i])
      {
        if m > 0 {
          assert raw[1..][m - 1] == raw[m];
        }
      }
    }
  }

  /** Entry `x` is the conversion of a format that is the first eligible one
      with a resolution not taken in `seen`, and has a `format_id` key. */
  ghost predicate FromFirstNew(raw: seq<RawFormat>, seen: set<string>, x: Format)
  {
    exists i :: FirstNew(raw, seen, i) && !raw[i].formatId.Absent? && x == Convert(raw[i])
  }

  /** An entry justified by the rest of the input is justified by the whole. */
  lemma ScanSoundLift(raw: seq<RawFormat>, seen: set<string>, x: Format)
    requires raw != [] && FromFirstNew(raw[1..], Taken(raw[0], seen), x)
    ensures FromFirstNew(raw, seen, x)
  {
    var i' :| FirstNew(raw[1..], Taken(raw[0], seen), i') && !raw[1..][i'].formatId.Absent? && x == Convert(raw[1..][i']);
    FirstNewShift(raw, seen, i' + 1);
    assert raw[1..][i'] == raw[i' + 1];
  }

  /** Every entry comes from the first eligible format with its resolution. */
  lemma {:induction false} ScanSound(raw: seq<RawFormat>, seen: set<string>)
    requires Scan(raw, seen).Ok?
    ensures forall x :: x in Scan(raw, seen).value ==> FromFirstNew(raw, seen, x)
  {
    if raw != [] {
      var t := Scan(raw, seen).value;
      var seen' := Taken(raw[0], seen);
      ScanStep(raw, seen);
      ScanSound(raw[1..], seen');
      var rest := Scan(raw[1..], seen').value;
      forall x | x in rest ensures FromFirstNew(raw, seen, x) {
        ScanSoundLift(raw, seen, x);
      }
      if Eligible(raw[0]) && ResolutionKey(raw[0]) !in seen {
        assert t == [Convert(raw[0])] + rest;
        assert FirstNew(raw, seen, 0);
        assert FromFirstNew(raw, seen, Convert(raw[0]));
      } else {
        assert t == rest;
      }
    }
  }

  /** The first eligible format of every resolution has an entry. */
  lemma {:induction false} ScanComplete(raw: seq<RawFormat>, seen: set<string>)
    requires Scan(raw, seen).Ok?
    ensures forall i :: FirstNew(raw, seen, i) ==>
      !raw[i].formatId.Absent? && Convert(raw[i]) in Scan(raw, seen).value
  {
    if raw != [] {
      var t := Scan(raw, seen).value;
      var seen' := Taken(raw[0], seen);
      ScanStep(raw, seen);
      ScanComplete(raw[1..], seen');
      var rest := Scan(raw[1..], seen').value;
      assert forall x :: x in rest ==> x in t;
      forall i | FirstNew(raw, seen, i)
        ensures !raw[i].formatId.Absent? && Convert(raw[i]) in t
      {
        if i > 0 {
          FirstNewShift(raw, seen, i);
          assert raw[1..][i - 1] == raw[i];
        }
      }
    }
  }

  predicate DistinctResolutions(s: seq<Format>)
  {
    forall a, b :: 0 <= a < b < |s| ==> s[a].resolution != s[b].resolution
  }

  /** No two entries share a resolution, and none reuses a taken one. */
  lemma {:induction false} ScanDistinct(raw: seq<RawFormat>, seen: set<string>)
    requires Scan(raw, seen).Ok?
    ensures DistinctResolutions(Scan(raw, seen).value)
    ensures forall j :: 0 <= j < |Scan(raw, seen).value| ==> Scan(raw, seen).value[j].resolution !in seen
  {
    if raw != [] {
      var seen' := Taken(raw[0], seen);
      ScanStep(raw, seen);
      ScanDistinct(raw[1..], seen');
    }
  }

  /** The loop raises exactly when a format it keeps has no `format_id` key. */
  lemma {:induction false} ScanFailsIff(raw: seq<RawFormat>, seen: set<string>)
    ensures Scan(raw, seen).Err? <==> exists i :: FirstNew(raw, seen, i) && raw[i].formatId.Absent?
    ensures Scan(raw, seen).Err? ==> Scan(raw, seen).error == KeyMissing("format_id")
  {
    if raw != [] {
      var seen' := Taken(raw[0], seen);
      ScanStep(raw, seen);
      ScanFailsIff(raw[1..], seen');
      if exists i :: FirstNew(raw, seen, i) && raw[i].formatId.Absent? {
        var i :| FirstNew(raw, seen, i) && raw[i].formatId.Absent?;
        if i > 0 {
          FirstNewShift(raw, seen, i);
          assert raw[1..][i - 1] == raw[i];
        }
      }
      if exists i' :: FirstNew(raw[1..], seen', i') && raw[1..][i'].formatId.Absent? {
        var i' :| FirstNew(raw[1..], seen', i') && raw[1..][i'].formatId.Absent?;
        FirstNewShift(raw, seen, i' + 1);
        assert raw[1..][i'] == raw[i' + 1];
      }
    }
  }

  // ---------------------------------------------------------------------
  // The sort

  predicate SortedByHeight(s: seq<Format>)
  {
    forall a, b :: 0 <= a < b < |s| ==> HeightKey(s[a]) >= HeightKey(s[b])
  }

  /** The entries of height `k`, in order. */
  function WithHeight(s: seq<Format>, k: int): seq<Format>
  {
    if s == [] then [] else (if HeightKey(s[0]) == k then [s[0]] else []) + WithHeight(s[1..], k)
  }

  lemma {:induction false} InsertPermutes(x: Format, s: seq<Format>)
    ensures multiset(Insert(x, s)) == multiset(s) + multiset{x}
  {
    if s != [] {
      InsertPermutes(x, s[1..]);
      assert s == [s[0]] + s[1..];
    }
  }

  /** Inserting adds `x` and keeps every other entry. */
  lemma {:induction false} InsertMembers(x: Format, s: seq<Format>)
    ensures forall y :: y in Insert(x, s) <==> y == x || y in s
  {
    if s != [] && HeightKey(s[0]) > HeightKey(x) {
      InsertMembers(x, s[1..]);
      assert s == [s[0]] + s[1..];
    }
  }

  lemma {:induction false} InsertSorted(x: Format, s: seq<Format>)
    requires SortedByHeight(s)
    ensures SortedByHeight(Insert(x, s))
  {
    if s != [] && HeightKey(s[0]) > HeightKey(x) {
      var tail := Insert(x, s[1..]);
      InsertSorted(x, s[1..]);
      InsertMembers(x, s[1..]);
      forall b | 0 <= b < |tail| ensures HeightKey(s[0]) >= HeightKey(tail[b]) {
        assert tail[b] in tail;
        if tail[b] != x {
          var m :| 0 <= m < |s[1..]| && s[1..][m] == tail[b];
          assert s[m + 1] == tail[b];
        }
      }
      var r := [s[0]] + tail;
      assert Insert(x, s) == r;
      forall a, b | 0 <= a < b < |r| ensures HeightKey(r[a]) >= HeightKey(r[b]) {
        assert r[b] == tail[b - 1];
        if a > 0 {
          assert r[a] == tail[a - 1];
        }
      }
    } else if s != [] {
      var r := [x] + s;
      assert Insert(x, s) == r;
      forall a, b | 0 <= a < b < |r| ensures HeightKey(r[a]) >= HeightKey(r[b]) {
        assert r[b] == s[b - 1];
        if a > 0 {
          assert r[a] == s[a - 1];
        }
      }
    }
  }

  /** The entries of height `k` in a list with a given head. */
  lemma WithHeightCons(y: Format, s: seq<Format>, k: int)
    ensures WithHeight([y] + s, k) == (if HeightKey(y) == k then [y] else []) + WithHeight(s, k)
  {
    assert ([y] + s)[0] == y && ([y] + s)[1..] == s;
  }

  lemma {:induction false} InsertStable(x: Format, s: seq<Format>, k: int)
    ensures WithHeight(Insert(x, s), k) == (if HeightKey(x) == k then [x] else []) + WithHeight(s, k)
  {
    if s == [] {
      WithHeightCons(x, [], k);
      assert [x] + [] == [x];
    } else if HeightKey(s[0]) > HeightKey(x) {
      var tail := Insert(x, s[1..]);
      InsertStable(x, s[1..], k);
      assert Insert(x, s) == [s[0]] + tail;
      WithHeightCons(s[0], tail, k);
      WithHeightCons(s[0], s[1..], k);
      assert [s[0]] + s[1..] == s;
      if HeightKey(x) == k {
        assert HeightKey(s[0]) != k;
      }
    } else {
      WithHeightCons(x, s, k);
    }
  }

  /** The sort orders by height, highest first, moves entries only (it is a
      permutation), and keeps entries of equal height in input order. */
  lemma {:induction false} SortByHeightFacts(s: seq<Format>)
    ensures SortedByHeight(SortByHeight(s))
    ensures multiset(SortByHeight(s)) == multiset(s)
    ensures forall k :: WithHeight(SortByHeight(s), k) == WithHeight(s, k)
  {
    if s != [] {
      SortByHeightFacts(s[1..]);
      InsertSorted(s[0], SortByHeight(s[1..]));
      InsertPermutes(s[0], SortByHeight(s[1..]));
      forall k ensures WithHeight(SortByHeight(s), k) == WithHeight(s, k) {
        InsertStable(s[0], SortByHeight(s[1..]), k);
      }
      assert s == [s[0]] + s[1..];
    }
  }

  /** Inserting an entry with a new resolution keeps resolutions distinct. */
  lemma {:induction false} InsertDistinct(x: Format, s: seq<Format>)
    requires DistinctResolutions(s)
    requires forall j :: 0 <= j < |s| ==> s[j].resolution != x.resolution
    ensures DistinctResolutions(Insert(x, s))
  {
    if s != [] && HeightKey(s[0]) > HeightKey(x) {
      var tail := Insert(x, s[1..]);
      InsertDistinct(x, s[1..]);
      InsertMembers(x, s[1..]);
      forall b | 0 <= b < |tail| ensures s[0].resolution != tail[b].resolution {
        assert tail[b] in tail;
        if tail[b] != x {
          var m :| 0 <= m < |s[1..]| && s[1..][m] == tail[b];
          assert s[m + 1] == tail[b];
        }
      }
      var r := [s[0]] + tail;
      assert Insert(x, s) == r;
      forall a, b | 0 <= a < b < |r| ensures r[a].resolution != r[b].resolution {
        assert r[b] == tail[b - 1];
        if a > 0 {
          assert r[a] == tail[a - 1];
        }
      }
    } else if s != [] {
      var r := [x] + s;
      assert Insert(x, s) == r;
      forall a, b | 0 <= a < b < |r| ensures r[a].resolution != r[b].resolution {
        assert r[b] == s[b - 1];
        if a > 0 {
          assert r[a] == s[a - 1];
        }
      }
    }
  }

  lemma {:induction false} SortDistinct(s: seq<Format>)
    requires DistinctResolutions(s)
    ensures DistinctResolutions(SortByHeight(s))
  {
    if s != [] {
      SortDistinct(s[1..]);
      SortByHeightFacts(s[1..]);
      var t := SortByHeight(s[1..]);
      forall j | 0 <= j < |t| ensures t[j].resolution != s[0].resolution {
        assert t[j] in multiset(s[1..]);
        var m :| 0 <= m < |s[1..]| && s[1..][m] == t[j];
        assert s[m + 1] == t[j];
      }
      InsertDistinct(s[0], t);
    }
  }

  /** Sorting reads the height back out of the "WxH" text: a height that is
      not a non-negative number (negative, or None) sorts as 0. */
  lemma ResolutionSortKey(f: RawFormat)
    ensures |Split(ResolutionKey(f), 'x')| == 2
    ensures SortKey(ResolutionKey(f)) == (if Height(f).Some? && Height(f).value >= 0 then Height(f).value else 0)
  {
    var w := OptIntToString(Width(f));
    var h := OptIntToString(Height(f));
    assert 'x' !in w by {
      if Width(f).Some? { IntToStringHasNoX(Width(f).value); }
    }
    assert 'x' !in h by {
      if Height(f).Some? { IntToStringHasNoX(Height(f).value); }
    }
    assert ResolutionKey(f) == w + ['x'] + h;
    SplitAtFirst(w, h, 'x');
    SplitWithoutSeparator(h, 'x');
    if Height(f).Some? {
      IntToStringIsDigits(Height(f).value);
    } else {
      assert h[0] == 'N';
    }
  }

  // ---------------------------------------------------------------------
  // What `/formats` answers

  /** Every listed format is the conversion of the first eligible raw format
      with its resolution. */
  lemma FormatsFromKeptInputs(raw: seq<RawFormat>)
    requires FormatsFrom(raw).Ok?
    ensures forall j :: 0 <= j < |FormatsFrom(raw).value| ==>
      exists i :: FirstNew(raw, {}, i) && !raw[i].formatId.Absent? && FormatsFrom(raw).value[j] == Convert(raw[i])
  {
    var t := Scan(raw, {}).value;
    var out := FormatsFrom(raw).value;
    ScanSound(raw, {});
    SortByHeightFacts(t);
    forall j | 0 <= j < |out|
      ensures exists i :: FirstNew(raw, {}, i) && !raw[i].formatId.Absent? && out[j] == Convert(raw[i])
    {
      assert out[j] in multiset(t);
      assert FromFirstNew(raw, {}, out[j]);
    }
  }

  /** Spelled out: a listed format has a video codec, is not a storyboard, has
      a non-zero width and height, carries that "WxH" as its resolution, and
      `has_audio` holds iff its acodec is not 'none'. */
  lemma FormatsFromFiltered(raw: seq<RawFormat>, j: int)
    requires FormatsFrom(raw).Ok? && 0 <= j < |FormatsFrom(raw).value|
    ensures exists i ::
      && 0 <= i < |raw|
      && Get(raw[i].vcodec) != Some("none") && Get(raw[i].formatNote) != Some("storyboard")
      && Height(raw[i]) != Some(0) && Width(raw[i]) != Some(0)
      && FormatsFrom(raw).value[j].resolution == ResolutionKey(raw[i])
      && (FormatsFrom(raw).value[j].hasAudio <==> Get(raw[i].acodec) != Some("none"))
      && FormatsFrom(raw).value[j].quality == QualityName(GetOr(raw[i].formatNote, "unknown"), Height(raw[i])) + " - " + ResolutionKey(raw[i])
      && FormatsFrom(raw).value[j].ext == GetOr(raw[i].ext, "unknown") && FormatsFrom(raw).value[j].url == GetOr(raw[i].url, "")
  {
    FormatsFromKeptInputs(raw);
    assert exists i :: FirstNew(raw, {}, i) && !raw[i].formatId.Absent? && FormatsFrom(raw).value[j] == Convert(raw[i]);
    var i :| FirstNew(raw, {}, i) && !raw[i].formatId.Absent? && FormatsFrom(raw).value[j] == Convert(raw[i]);
    assert Eligible(raw[i]);
  }

  /** The label of an entry listed for `f`: the first rung of the ladder the
      height reaches, or `"{h}p"` below the last rung, or the format note when
      the height is None; then " - " and the resolution. */
  predicate LabelFollowsRungs(e: Format, f: RawFormat)
  {
    match Height(f)
    case None => e.quality == OptToString(GetOr(f.formatNote, "unknown")) + " - " + e.resolution
    case Some(h) =>
      e.quality == (match RungName(QualityRungs, h) case Some(n) => n case None => IntToString(h) + "p") + " - " + e.resolution
  }

  /** Every listed entry is labelled from the ladder by the height of the raw
      format it comes from. */
  lemma FormatsFromLabels(raw: seq<RawFormat>, j: int)
    requires FormatsFrom(raw).Ok? && 0 <= j < |FormatsFrom(raw).value|
    ensures exists i :: 0 <= i < |raw| && Eligible(raw[i]) && LabelFollowsRungs(FormatsFrom(raw).value[j], raw[i])
  {
    FormatsFromKeptInputs(raw);
    assert exists i :: FirstNew(raw, {}, i) && !raw[i].formatId.Absent? && FormatsFrom(raw).value[j] == Convert(raw[i]);
    var i :| FirstNew(raw, {}, i) && !raw[i].formatId.Absent? && FormatsFrom(raw).value[j] == Convert(raw[i]);
    if Height(raw[i]).Some? {
      QualityNameFollowsRungs(GetOr(raw[i].formatNote, "unknown"), Height(raw[i]).value);
    }
    assert Eligible(raw[i]) && LabelFollowsRungs(FormatsFrom(raw).value[j], raw[i]);
  }

  /** For every distinct resolution among the kept inputs, the entry listed is
      the first raw format with it. */
  lemma FormatsFromKeepsFirst(raw: seq<RawFormat>)
    requires FormatsFrom(raw).Ok?
    ensures forall i :: FirstNew(raw, {}, i) ==> !raw[i].formatId.Absent? && Convert(raw[i]) in FormatsFrom(raw).value
    ensures forall i :: 0 <= i < |raw| && Eligible(raw[i]) ==>
      exists j :: 0 <= j < |FormatsFrom(raw).value| && FormatsFrom(raw).value[j].resolution == ResolutionKey(raw[i])
  {
    var t := Scan(raw, {}).value;
    var out := FormatsFrom(raw).value;
    ScanComplete(raw, {});
    SortByHeightFacts(t);
    forall i | FirstNew(raw, {}, i) ensures Convert(raw[i]) in out {
      assert Convert(raw[i]) in multiset(t);
    }
    forall i | 0 <= i < |raw| && Eligible(raw[i])
      ensures exists j :: 0 <= j < |out| && out[j].resolution == ResolutionKey(raw[i])
    {
      var first := FirstWithResolution(raw, i);
      var x := Convert(raw[first]);
      var j :| 0 <= j < |out| && out[j] == x;
    }
  }

  /** The earliest eligible format sharing the resolution of eligible format `i`. */
  lemma FirstWithResolution(raw: seq<RawFormat>, i: int) returns (first: int)
    requires 0 <= i < |raw| && Eligible(raw[i])
    ensures FirstNew(raw, {}, first) && ResolutionKey(raw[first]) == ResolutionKey(raw[i])
    decreases i
  {
    if forall m :: 0 <= m < i && Eligible(raw[m]) ==> ResolutionKey(raw[m]) != ResolutionKey(raw[i]) {
      first := i;
    } else {
      var m :| 0 <= m < i && Eligible(raw[m]) && ResolutionKey(raw[m]) == ResolutionKey(raw[i]);
      first := FirstWithResolution(raw, m);
    }
  }

  /** No two listed formats share a resolution. */
  lemma FormatsFromDistinct(raw: seq<RawFormat>)
    requires FormatsFrom(raw).Ok?
    ensures DistinctResolutions(FormatsFrom(raw).value)
  {
    var t := Scan(raw, {}).value;
    ScanDistinct(raw, {});
    SortDistinct(t);
  }

  /** The list is ordered by height, highest first; it is a permutation of the
      de-duplicated list, and formats of equal height keep their input order. */
  lemma FormatsFromSorted(raw: seq<RawFormat>)
    requires FormatsFrom(raw).Ok?
    ensures SortedByHeight(FormatsFrom(raw).value)
    ensures multiset(FormatsFrom(raw).value) == multiset(Scan(raw, {}).value)
    ensures forall k :: WithHeight(FormatsFrom(raw).value, k) == WithHeight(Scan(raw, {}).value, k)
  {
    SortByHeightFacts(Scan(raw, {}).value);
  }

  /** `/formats` fails exactly when a kept format lacks the `format_id` key. */
  lemma FormatsFromFails(raw: seq<RawFormat>)
    ensures FormatsFrom(raw).Err? <==> exists i :: FirstNew(raw, {}, i) && raw[i].formatId.Absent?
    ensures FormatsFrom(raw).Err? ==> FormatsFrom(raw).error == KeyMissing("format_id") && Status(FormatsFrom(raw).error) == 500
  {
    ScanFailsIff(raw, {});
  }
}
