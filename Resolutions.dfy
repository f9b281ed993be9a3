/**
 * The resolution table `RESOLUTION_MAPPING` of config.py and its copy
 * `RESOLUTIONS` in server.py: the `--res` choices and the `WxH` string
 * each one is handed to the camera as.
 */
module Resolutions {
  import opened Wrappers

  const RESOLUTION_MAPPING: map<string, string> := map[
    "640x480" := "640x480",
    "480p" := "640x480",
    "1920x1080" := "1920x1080",
    "1080p" := "1920x1080",
    "1280x720" := "1280x720",
    "720p" := "1280x720"
  ]

  /** server.py's own copy of the table. */
  const RESOLUTIONS: map<string, string> := map[
    "640x480" := "640x480",
    "480p" := "640x480",
    "1920x1080" := "1920x1080",
    "1080p" := "1920x1080",
    "1280x720" := "1280x720",
    "720p" := "1280x720"
  ]

  /** The `--res` default. */
  const DEFAULT_RESOLUTION: string := "480p"

  /** A `WxH` size whose height, after the `x`, is the text `h`. */
  predicate HasHeight(size: string, h: string) {
    |h| < |size| && size[|size| - |h| - 1] == 'x' && size[|size| - |h|..] == h
  }

  /**
   * `--res` is restricted to the table's keys (`choices=`); an accepted key is
   * looked up and its value used as the camera resolution; any other string
   * is refused by the argument parser. A `WxH` key is its own size, and a
   * `<h>p` alias gives the size of height `h`.
   */
  function CameraResolution(choice: string): (r: Option<string>)
    ensures r.Some? <==> choice in {"640x480", "480p", "1920x1080", "1080p", "1280x720", "720p"}
    ensures r.Some? ==> r.value in {"640x480", "1280x720", "1920x1080"}
    ensures r.Some? ==> r.value in RESOLUTION_MAPPING && RESOLUTION_MAPPING[r.value] == r.value
    ensures r.Some? ==> r.value == choice || (choice[|choice| - 1] == 'p' && HasHeight(r.value, choice[..|choice| - 1]))
  {
    if choice in RESOLUTION_MAPPING then Some(RESOLUTION_MAPPING[choice]) else None
  }

  /** The six keys map onto exactly three sizes. */
  lemma {:induction false} ThreeSizes()
    ensures RESOLUTION_MAPPING.Keys == {"640x480", "480p", "1920x1080", "1080p", "1280x720", "720p"}
    ensures RESOLUTION_MAPPING.Values == {"640x480", "1280x720", "1920x1080"}
    ensures |RESOLUTION_MAPPING.Values| == 3
  {
  }

  /** Canonical `WxH` keys map to themselves; the `p` aliases to their size. */
  lemma {:induction false} CanonicalAndAliases()
    ensures forall k | k in {"640x480", "1280x720", "1920x1080"} :: CameraResolution(k) == Some(k)
    ensures CameraResolution("480p") == Some("640x480")
    ensures CameraResolution("720p") == Some("1280x720")
    ensures CameraResolution("1080p") == Some("1920x1080")
    ensures CameraResolution(DEFAULT_RESOLUTION) == Some("640x480")
  {
  }

  /** Every size is itself a key, so normalising twice changes nothing. */
  lemma {:induction false} NormaliseIdempotent(choice: string)
    requires choice in RESOLUTION_MAPPING
    ensures RESOLUTION_MAPPING[choice] in RESOLUTION_MAPPING
    ensures CameraResolution(RESOLUTION_MAPPING[choice]) == CameraResolution(choice)
  {
  }

  /** server.py's `RESOLUTIONS` is the same table. */
  lemma {:induction false} SameTable()
    ensures RESOLUTIONS == RESOLUTION_MAPPING
  {
  }
}
