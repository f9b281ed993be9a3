/**
 * The timelapse monitor's "latest image" rule: which session directory
 * is looked at, which of its files count, which one is the latest, and the
 * JSON view that reads the result.
 */
module LapseWeb {
  import opened Wrappers
  import opened Listing
  import LapseMovie

  const STORAGE := "/mnt/usb/camera"
  const DEFAULT_LAPSE_STORAGE := STORAGE + "/lapses"

  /** An entry of the storage directory, as `iterdir` yields it. */
  datatype Node = Node(name: string, isDir: bool)

  function SubdirNames(nodes: seq<Node>): (r: seq<string>)
    ensures forall n :: n in r <==> exists x | x in nodes :: x.isDir && x.name == n
    decreases |nodes|
  {
    if nodes == [] then []
    else
      assert nodes == [nodes[0]] + nodes[1..];
      (if nodes[0].isDir then [nodes[0].name] else []) + SubdirNames(nodes[1..])
  }

  /** The message of the FileNotFoundError that `iterdir` raises on a missing default storage. */
  const NO_STORAGE := "[Errno 2] No such file or directory: '" + DEFAULT_LAPSE_STORAGE + "'"

  /**
   * The directory the monitor reads: IMAGE_DIR when set, otherwise the
   * greatest subdirectory of the default storage. `storage` is the listing
   * of the default storage, or `None` when that directory does not exist,
   * where `iterdir` raises FileNotFoundError; `max` of no subdirectories
   * raises ValueError.
   */
  function LapseDir(imageDir: Option<string>, storage: Option<seq<Node>>): (r: Result<string, string>)
    ensures imageDir.Some? ==> r == Ok(imageDir.value)
    ensures imageDir.None? && storage.None? ==> r == Err(NO_STORAGE)
    ensures imageDir.None? && storage.Some? ==>
      && (r.Err? <==> SubdirNames(storage.value) == [])
      && (r.Err? ==> r.error == "max() arg is an empty sequence")
      && (r.Ok? ==> exists d | d in SubdirNames(storage.value) ::
            && r.value == DEFAULT_LAPSE_STORAGE + "/" + d
            && forall n | n in SubdirNames(storage.value) :: NameLe(n, d))
  {
    if imageDir.Some? then Ok(imageDir.value)
    else if storage.None? then Err(NO_STORAGE)
    else
      var dirs := SubdirNames(storage.value);
      if dirs == [] then Err("max() arg is an empty sequence")
      else
        var d := dirs[MaxIndex(dirs)];
        assert forall n | n in dirs :: NameLe(n, d);
        Ok(DEFAULT_LAPSE_STORAGE + "/" + d)
  }

  /** The last dot of a name, where pathlib takes the suffix from. */
  function LastDot(s: string): (r: Option<nat>)
    ensures r.Some? ==> r.value < |s| && s[r.value] == '.' && forall j | r.value < j < |s| :: s[j] != '.'
    ensures r.None? ==> forall j | 0 <= j < |s| :: s[j] != '.'
    decreases |s|
  {
    if s == [] then None
    else if s[|s| - 1] == '.' then Some(|s| - 1)
    else LastDot(s[..|s| - 1])
  }

  /**
   * `Path(name).with_suffix("").name`: the suffix starts at the last dot,
   * but not when that dot opens the name or ends it.
   */
  function WithoutSuffix(name: string): (r: string)
    ensures |r| <= |name| && r == name[..|r|]
  {
    match LastDot(name)
    case Some(i) => if 0 < i < |name| - 1 then name[..i] else name
    case None => name
  }

  /** Both tools read the same timestamp text from `<stem>.jpg` with a non-empty stem. */
  lemma {:induction false} SuffixAgreesWithStem(name: string)
    requires IsJpg(name) && |name| > 4
    ensures WithoutSuffix(name) == LapseMovie.Stem(name)
  {
    assert name[|name| - 4] == ".jpg"[0];
    assert LastDot(name) == Some(|name| - 4) by {
      var s := name;
      assert s[|s| - 1] != '.' && s[|s| - 2] != '.' && s[|s| - 3] != '.' by {
        assert s[|s| - 4..][1] == 'j' && s[|s| - 4..][2] == 'p' && s[|s| - 4..][3] == 'g';
      }
      assert s[..|s| - 1][..|s| - 2] == s[..|s| - 2];
      assert s[..|s| - 2][..|s| - 3] == s[..|s| - 3];
    }
  }

  /** ... but not for a file named just `.jpg`: the monitor keeps the dot and the suffix. */
  lemma {:induction false} SuffixDiffersForBareName()
    ensures IsJpg(".jpg")
    ensures WithoutSuffix(".jpg") == ".jpg"
    ensures LapseMovie.Stem(".jpg") == ""
  {
  }

  /** What `get_latest` returns: the empty dict, or the four named fields. */
  datatype LatestInfo =
    | NoImages
    | Info(dir: string, image: Entry, tsSource: string, lapseN: nat)

  /** The message of the ValueError `localize` raises on a datetime that already has a time zone. */
  const NOT_NAIVE := "Not naive datetime (tzinfo is already set)"

  /** The ValueError message of `fromisoformat` on a text it rejects. */
  function IsoError(ts: string): string {
    "Invalid isoformat string: '" + ts + "'"
  }

  /**
   * The part of `get_latest()` after the directory is chosen, over that
   * directory's listing. `isIso` says which texts `datetime.fromisoformat`
   * accepts; on any other text it raises ValueError. `isAware` says which
   * accepted texts carry a UTC offset, so that the parsed datetime has a
   * time zone and `localize` raises ValueError on it. The image bytes
   * themselves are not modelled: `image` names the file they are read from.
   */
  function LatestIn(dir: string, listing: seq<Entry>, isIso: string -> bool, isAware: string -> bool)
    : (r: Result<LatestInfo, string>)
    ensures r == Ok(NoImages) <==> forall e | e in listing :: !Counted(e)
    ensures r.Ok? && r.value.Info? ==>
      && r.value.dir == dir
      && r.value.image in listing && Counted(r.value.image)
      && (forall e | e in listing && Counted(e) :: NameLe(e.name, r.value.image.name))
      && r.value.lapseN == |CountedImages(listing)|
      && r.value.tsSource == WithoutSuffix(r.value.image.name)
      && isIso(r.value.tsSource) && !isAware(r.value.tsSource)
    ensures r.Err? ==> exists e | e in listing && Counted(e) ::
      && (forall e' | e' in listing && Counted(e') :: NameLe(e'.name, e.name))
      && if isIso(WithoutSuffix(e.name))
         then isAware(WithoutSuffix(e.name)) && r.error == NOT_NAIVE
         else r.error == IsoError(WithoutSuffix(e.name))
  {
    var images := CountedImages(listing);
    if images == [] then
      assert forall e | e in listing :: !Counted(e);
      Ok(NoImages)
    else
      var latest := Greatest(images);
      assert latest in listing && Counted(latest);
      var ts := WithoutSuffix(latest.name);
      if !isIso(ts) then Err(IsoError(ts))
      else if isAware(ts) then Err(NOT_NAIVE)
      else Ok(Info(dir, latest, ts, |images|))
  }

  /**
   * `get_latest()`. `fs` maps a directory path to its listing; a path it
   * does not hold globs to nothing.
   */
  function GetLatest(imageDir: Option<string>, storage: Option<seq<Node>>, fs: map<string, seq<Entry>>,
                     isIso: string -> bool, isAware: string -> bool): (r: Result<LatestInfo, string>)
    ensures LapseDir(imageDir, storage).Err? ==> r == Err(LapseDir(imageDir, storage).error)
    ensures LapseDir(imageDir, storage).Ok? ==> var dir := LapseDir(imageDir, storage).value;
      var listing := if dir in fs then fs[dir] else [];
      && (r == Ok(NoImages) <==> forall e | e in listing :: !Counted(e))
      && (r.Ok? && r.value.Info? ==>
            && r.value.dir == dir
            && r.value.image in listing && Counted(r.value.image)
            && (forall e | e in listing && Counted(e) :: NameLe(e.name, r.value.image.name))
            && r.value.lapseN == |CountedImages(listing)|
            && r.value.tsSource == WithoutSuffix(r.value.image.name)
            && isIso(r.value.tsSource) && !isAware(r.value.tsSource))
      && (r.Err? ==> exists e | e in listing && Counted(e) ::
            && (forall e' | e' in listing && Counted(e') :: NameLe(e'.name, e.name))
            && if isIso(WithoutSuffix(e.name))
               then isAware(WithoutSuffix(e.name)) && r.error == NOT_NAIVE
               else r.error == IsoError(WithoutSuffix(e.name)))
  {
    match LapseDir(imageDir, storage)
    case Err(e) => Err(e)
    case Ok(dir) => LatestIn(dir, if dir in fs then fs[dir] else [], isIso, isAware)
  }

  /**
   * A directory whose one counted file is not named by a timestamp, such as
   * `snapshot.jpg`: `fromisoformat` raises on the stem, so `get_latest`
   * fails instead of answering.
   */
  lemma {:induction false} NonTimestampNameFails(dir: string, image: Entry, isIso: string -> bool,
                                                 isAware: string -> bool)
    requires Counted(image) && |image.name| > 4
    requires !isIso(LapseMovie.Stem(image.name))
    ensures GetLatest(Some(dir), None, map[dir := [image]], isIso, isAware)
         == Err(IsoError(LapseMovie.Stem(image.name)))
  {
    SuffixAgreesWithStem(image.name);
    var r := GetLatest(Some(dir), None, map[dir := [image]], isIso, isAware);
    assert LapseDir(Some(dir), None) == Ok(dir);
    assert r != Ok(NoImages);
  }

  /**
   * A directory whose one counted file is named by a timestamp with a UTC
   * offset, such as `2020-11-01T12:00:00+00:00.jpg`: `fromisoformat` accepts
   * the stem but gives an aware datetime, so `localize` raises and
   * `get_latest` fails instead of answering.
   */
  lemma {:induction false} AwareTimestampFails(dir: string, image: Entry, isIso: string -> bool,
                                               isAware: string -> bool)
    requires Counted(image) && |image.name| > 4
    requires isIso(LapseMovie.Stem(image.name)) && isAware(LapseMovie.Stem(image.name))
    ensures GetLatest(Some(dir), None, map[dir := [image]], isIso, isAware) == Err(NOT_NAIVE)
  {
    SuffixAgreesWithStem(image.name);
    var r := GetLatest(Some(dir), None, map[dir := [image]], isIso, isAware);
    assert LapseDir(Some(dir), None) == Ok(dir);
    assert r != Ok(NoImages);
  }

  /** The error `latest_api` raises on the empty dict. */
  datatype ApiError = KeyError(key: string)

  /** The JSON body `latest_api` returns. */
  datatype ApiBody = ApiBody(image: Entry, tsSource: string, lapseN: nat)

  /** `latest_api()`: the first lookup, `image_bytes_b64`, fails on the empty dict. */
  function LatestApi(latest: LatestInfo): Result<ApiBody, ApiError> {
    match latest
    case NoImages => Err(KeyError("image_bytes_b64"))
    case Info(_, image, ts, n) => Ok(ApiBody(image, ts, n))
  }

  /**
   * `latest_api()` after a `get_latest()` that returned: it raises
   * `KeyError("image_bytes_b64")` exactly when no entry of the chosen listing
   * counts, and otherwise reports a counted image, a timestamp text that
   * `fromisoformat` accepts without UTC offset, and the number of counted
   * entries.
   */
  lemma {:induction false} LatestApiAfterGetLatest(imageDir: Option<string>, storage: Option<seq<Node>>,
                                                   fs: map<string, seq<Entry>>, isIso: string -> bool,
                                                   isAware: string -> bool)
    ensures var r := GetLatest(imageDir, storage, fs, isIso, isAware);
      r.Ok? ==> var dir := LapseDir(imageDir, storage).value;
        var listing := if dir in fs then fs[dir] else [];
        var api := LatestApi(r.value);
        && (api == Err(KeyError("image_bytes_b64")) <==> forall e | e in listing :: !Counted(e))
        && (api.Ok? ==>
              && api.value.image in listing && Counted(api.value.image)
              && isIso(api.value.tsSource) && !isAware(api.value.tsSource)
              && api.value.lapseN == |CountedImages(listing)|)
  {
    var r := GetLatest(imageDir, storage, fs, isIso, isAware);
    if r.Ok? {
      assert LapseDir(imageDir, storage).Ok?;
    }
  }

  /**
   * The monitor's latest image has the name of the last entry of the image
   * list the video tool reads from the same directory.
   */
  lemma {:induction false} LatestIsLastImage(listing: seq<Entry>, latest: Entry)
    requires latest in listing && Counted(latest)
    requires forall e | e in listing && Counted(e) :: NameLe(e.name, latest.name)
    ensures var images := LapseMovie.Images(listing);
      images != [] && images[|images| - 1].name == latest.name
  {
    var images := LapseMovie.Images(listing);
    assert latest in images;
    SortedMaximumIsLast(images, latest);
  }

  /** The session size the monitor reports is the length of that image list. */
  lemma {:induction false} LatestCountsImages(listing: seq<Entry>)
    ensures |LapseMovie.Images(listing)| == |CountedImages(listing)|
  {
  }
}
