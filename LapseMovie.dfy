/**
 * The timelapse-to-video tool: its `.avi` path check, the list of
 * images it reads, the timestamp text taken from each file name, and the
 * loop that writes one video frame per image.
 */
module LapseMovie {
  import opened Wrappers
  import opened Listing

  /**
   * `avi_path_arg`: the text must end with `.avi`, exactly. The tool defines
   * this check but wires it to no argument: `--dst` is parsed with `Path`.
   */
  function AviPathArg(s: string): (r: Result<string, string>)
    ensures r.Ok? <==> exists p :: s == p + ".avi"
    ensures r.Ok? ==> r.value == s
    ensures r.Err? ==> r.error == "Expecting .avi output, got " + s + "."
  {
    EndsWithIffSuffix(s, ".avi");
    if EndsWith(s, ".avi") then Ok(s) else Err("Expecting .avi output, got " + s + ".")
  }

  /** The bare suffix is accepted; an upper-case suffix is not. */
  lemma {:induction false} AviPathArgExamples()
    ensures AviPathArg(".avi") == Ok(".avi")
    ensures AviPathArg("x.AVI").Err?
    ensures AviPathArg("video.avi.tmp").Err?
  {
  }

  /** `sorted([p for p in src.glob("*.jpg") if p.stat().st_size > 0])` */
  function Images(listing: seq<Entry>): (r: seq<Entry>)
    ensures forall e :: e in r <==> e in listing && Counted(e)
    ensures SortedByName(r)
    ensures multiset(r) == multiset(CountedImages(listing))
  {
    var r := SortByName(CountedImages(listing));
    SortByNameSorts(CountedImages(listing));
    assert forall e :: e in r <==> e in multiset(r);
    r
  }

  /** `name[:-4]`: the name without its last four characters, or "" if shorter. */
  function Stem(name: string): (r: string)
    ensures |r| == if |name| >= 4 then |name| - 4 else 0
    ensures r == name[..|r|]
  {
    if |name| >= 4 then name[..|name| - 4] else ""
  }

  /** For a glob-matched name the stem is exactly the name before `.jpg`. */
  lemma {:induction false} StemDropsSuffix(name: string)
    requires IsJpg(name)
    ensures Stem(name) + ".jpg" == name
    ensures |Stem(name)| == |name| - 4
  {
  }

  /**
   * One written frame: the image it shows and, with `--stamp`, the text
   * whose timestamp is drawn on it.
   */
  datatype VideoFrame = VideoFrame(image: string, stamp: Option<string>)

  datatype MovieError =
    | NoImages                      // `images[0]` raises IndexError
    | BadTimestamp(name: string)    // `fromisoformat` rejects the stem

  function FrameFor(image: Entry, stamp: bool): (f: VideoFrame)
    ensures f.image == image.name
    ensures f.stamp.Some? <==> stamp
    ensures f.stamp.Some? ==> f.stamp.value == Stem(image.name)
  {
    VideoFrame(image.name, if stamp then Some(Stem(image.name)) else None)
  }

  /** The opened video file: frames are appended until it is released. */
  class VideoWriter {
    var frames: seq<VideoFrame>
    var released: bool

    constructor ()
      ensures frames == [] && !released
    {
      frames := [];
      released := false;
    }

    method Write(f: VideoFrame)
      requires !released
      modifies this
      ensures frames == old(frames) + [f] && !released
    {
      frames := frames + [f];
    }

    method Release()
      modifies this
      ensures released && frames == old(frames)
    {
      released := true;
    }
  }

  /** The first image whose stem is not an ISO timestamp, or |images| if none. */
  function FirstBadStamp(images: seq<Entry>, isIso: string -> bool): (k: nat)
    ensures k <= |images|
    ensures forall i | 0 <= i < k :: isIso(Stem(images[i].name))
    ensures k < |images| ==> !isIso(Stem(images[k].name))
    decreases |images|
  {
    if images == [] then 0
    else if !isIso(Stem(images[0].name)) then 0
    else 1 + FirstBadStamp(images[1..], isIso)
  }

  /**
   * The main program over a directory listing. `isIso` stands for
   * `datetime.fromisoformat` accepting a text. The result is the frames
   * the released video holds, and the error that ended the run, if any:
   * no video is opened without a first image, and a stem that is not a
   * timestamp stops the loop after the frames before it were written.
   */
  method MakeMovie(listing: seq<Entry>, stamp: bool, isIso: string -> bool)
    returns (frames: seq<VideoFrame>, err: Option<MovieError>)
    ensures Images(listing) == [] ==> frames == [] && err == Some(NoImages)
    ensures Images(listing) != [] ==> Recorded(Images(listing), stamp, isIso, frames, err)
  {
    var images := Images(listing);
    if images == [] {
      return [], Some(NoImages);
    }
    frames, err := WriteFrames(images, stamp, isIso);
  }

  /** What a run over a non-empty image list leaves behind. */
  predicate Recorded(images: seq<Entry>, stamp: bool, isIso: string -> bool,
                     frames: seq<VideoFrame>, err: Option<MovieError>)
  {
    var k := FirstBadStamp(images, isIso);
    && |frames| == k
    && (forall i | 0 <= i < k :: frames[i] == FrameFor(images[i], stamp))
    && (err == if k < |images| then Some(BadTimestamp(images[k].name)) else None)
  }

  /** The `with VideoWriter(...)` block: the loop over the images, then the release. */
  method WriteFrames(images: seq<Entry>, stamp: bool, isIso: string -> bool)
    returns (frames: seq<VideoFrame>, err: Option<MovieError>)
    ensures Recorded(images, stamp, isIso, frames, err)
  {
    ghost var k := FirstBadStamp(images, isIso);
    var video := new VideoWriter();
    var i := 0;
    err := None;
    while i < |images| && err == None
      invariant 0 <= i <= k
      invariant |video.frames| == i && !video.released
      invariant forall j | 0 <= j < i :: video.frames[j] == FrameFor(images[j], stamp)
      invariant err == None || (i == k < |images| && err == Some(BadTimestamp(images[k].name)))
      decreases |images| - i, if err == None then 1 else 0
    {
      if !isIso(Stem(images[i].name)) {
        err := Some(BadTimestamp(images[i].name));
      } else {
        video.Write(FrameFor(images[i], stamp));
        i := i + 1;
      }
    }
    video.Release();
    frames := video.frames;
  }

  /**
   * With every stem a timestamp, the run ends without error and leaves one
   * frame per image, in list order.
   */
  lemma {:induction false} OneFramePerImage(images: seq<Entry>, stamp: bool, isIso: string -> bool,
                                            frames: seq<VideoFrame>, err: Option<MovieError>)
    requires forall i | 0 <= i < |images| :: isIso(Stem(images[i].name))
    requires Recorded(images, stamp, isIso, frames, err)
    ensures |frames| == |images| && err == None
    ensures forall i | 0 <= i < |images| :: frames[i] == FrameFor(images[i], stamp)
  {
  }
}
