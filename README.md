# rpi-camera core, modelled in Dafny

rpi-camera is a set of small tools for a single-board-computer camera:
an MJPEG preview server (`camera/server.py`), a realtime streaming server
(`camera/realtime.py`), a timelapse-to-video converter
(`camera/lapse2movie.py`), a timelapse monitor web app
(`camera/lapse_web.py`) and a shared configuration (`camera/config.py`).
This project models the parts of those tools that compute something, and
proves properties of the model.

- **Frame assembly** (`FrameAssembly.dfy`). `StreamingOutput` is a class
  over an `io.BytesIO` buffer, which is itself a class with its data and
  position. The camera driver passes chunks to `write`. A chunk that starts
  with the JPEG Start-Of-Image marker `FF D8` (ITU-T T.81, Table B.1) first
  truncates the buffer at the current position. It then publishes the
  buffer as `frame`, wakes the waiting clients and rewinds to offset 0.
  Every chunk is then written at the position. A ghost history of the
  chunks and a ghost notification count tie the object's state to
  functions of that history. The published frames, the frame in progress
  and the current `frame` are each proved against those functions. On a
  fresh output the first marker chunk publishes the empty byte string,
  because `getvalue()` of the empty buffer is `b""` (see
  `FirstMarkerPublishesPrefix`).
- **Wire format** (`Text.dfy`, `Http.dfy`, `Multipart.dfy`). The header
  lines that `http.server` sends (`Name: value\r\n` in latin-1, then a
  blank line) are modelled, along with `str(n)` for lengths and UTF-8 for
  the page. The model also covers the `multipart/x-mixed-replace` stream
  with boundary `FRAME` (RFC 2046, section 5.1.1), one part per frame.
  The stream handler's send loop is modelled over the frames a client
  was woken for. A parser for the part layout recovers every frame.
- **Routing** (`Routing.dfy`). Both `do_GET` handlers are modelled as maps
  from the request path to status, headers in order, and body.
- **Resolutions** (`Resolutions.dfy`). This is the `--res` table of
  `config.py` and its copy in `server.py`.
- **Timelapse tools** (`Listing.dfy`, `LapseMovie.dfy`, `LapseWeb.dfy`).
  A directory listing is a sequence of (name, size) entries. Over such a
  listing the model defines:
  - the `*.jpg`, non-empty filter;
  - Python's ordering of names, with `sorted` and `max`;
  - the `.avi` path check the video tool defines (`avi_path_arg`, which
    no argument uses: `--dst` is parsed with plain `Path`);
  - its frame-writing loop, as a method over a `VideoWriter` class;
  - the monitor's latest-image rule, including the `ValueError` that a
    non-timestamp file name raises and the `KeyError` of its JSON view when
    there is no image.

## Model

| member | source | states |
|---|---|---|
| FrameAssembly.Overwrite | camera/server.py:61 | a BytesIO write of `b` at `pos` puts `b` at offsets `pos` to `pos + len(b) - 1`, keeps the bytes before and after, zero-fills a gap, and grows the buffer only as far as the write reaches; an empty write leaves the bytes unchanged, even past the end |
| FrameAssembly.BytesIO.constructor | camera/server.py:49 | a new buffer is empty at position 0 |
| FrameAssembly.BytesIO.Write | camera/server.py:61 | the data becomes the overwrite at the position, the position advances by the chunk length, and the call returns that length |
| FrameAssembly.BytesIO.Truncate | camera/server.py:56 | `truncate()` cuts the data at the position when it is shorter than the data, leaves the position, and returns it |
| FrameAssembly.BytesIO.Seek | camera/server.py:60 | `seek(0)` moves the position only |
| FrameAssembly.BytesIO.GetValue | camera/server.py:58 | `getvalue()` returns all the data and changes nothing |
| FrameAssembly.IsMarker | camera/server.py:53 | `buf.startswith(b"\xff\xd8")`; its meaning is carried by `ShortChunkKeepsFrame` (a chunk under two bytes is never a marker) and `MarkerPublishesSegment` |
| FrameAssembly.LastMarker | camera/server.py:53 | the index of the last chunk starting with `FF D8` (0 when none): no later chunk starts with the marker |
| FrameAssembly.StreamingOutput.constructor | camera/server.py:47-50 | `frame` is `None`, the buffer is new and empty, and nothing has been written or notified |
| FrameAssembly.StreamingOutput.Write | camera/server.py:52-61 | keeps the invariant that the buffer up to the position holds the chunks since the last marker, `frame` is the last published frame and one notification was sent per publication; a marker publishes the old buffer prefix and rewrites from 0, any other chunk leaves `frame` alone and is written at the position; returns `len(chunk)`; realtime.py's `write` (camera/realtime.py:52-61) is the same code |
| FrameAssembly.PendingSinceLastMarker | camera/server.py:52-61 | the frame in progress is the concatenation of the chunks from the last marker chunk on |
| FrameAssembly.MarkerPublishesSegment | camera/server.py:53-58 | a marker chunk sets `frame` to exactly the chunks since the previous marker, that one included and the new one excluded |
| FrameAssembly.FirstMarkerPublishesPrefix | camera/server.py:47-58 | the first marker publishes everything written before it, which is `b""` on a fresh output |
| FrameAssembly.NoFrameUntilMarker | camera/server.py:48-53 | `frame` is `None` if and only if no marker chunk has been written |
| FrameAssembly.ShortChunkKeepsFrame | camera/server.py:53 | a chunk shorter than two bytes never publishes and is appended to the frame in progress |
| FrameAssembly.OneNotificationPerMarker | camera/server.py:57-59 | the number of publications (and so of `notify_all` calls) equals the number of marker chunks |
| FrameAssembly.FramesPartitionStream | camera/server.py:52-61 | the published frames followed by the frame in progress are exactly all bytes written, in order |
| FrameAssembly.LaterFramesStartWithSoi | camera/server.py:53-60 | every published frame after the first begins with `FF D8` |
| FrameAssembly.PendingStartsWithMarker | camera/server.py:53-61 | once anything is published, the frame in progress begins with a marker chunk |
| FrameAssembly.StaleTailScenario | camera/server.py:56-58 | after a 5-byte frame and a 3-byte frame, the buffer still holds two stale bytes past the position, but the next publication is the 3-byte frame only |
| Text.Latin1 | camera/server.py:91-94 | header text becomes one byte per character |
| Text.DecimalShape | camera/server.py:93 | `str(n)` of a length is a non-empty run of ASCII digits with no leading zero |
| Text.Decimal | camera/server.py:93 | `str(n)` of the length; `DecimalShape` and `DecimalValue` state that it is the digits of `n` with no leading zero, and `DecimalRoundTrip` that it reads back as `n` |
| Text.DecimalValue | camera/server.py:93 | the digits of `str(n)` have value `n` |
| Text.DecimalRoundTrip | camera/server.py:93 | reading back the `Content-Length` value gives the length that was sent |
| Text.EncodeChar | camera/server.py:71 | a character encodes to 1 to 4 bytes, one byte exactly for ASCII |
| Text.Utf8 | camera/server.py:71 | the encoded page is at least as long as the page and at most four times as long; `EncodeChar` states the one-to-four-byte bound per character and `Utf8RoundTrip` pins the bytes |
| Text.EncodeCharRoundTrip | camera/server.py:71 | decoding the UTF-8 of one character, followed by anything, gives that character and its byte count |
| Text.Utf8RoundTrip | camera/server.py:71 | strict UTF-8 decoding of `PAGE.encode("utf-8")` gives back `PAGE` |
| Http.HeaderLine | camera/server.py:92-93 | the queued bytes of one `send_header`; `HeaderLineText` states them as the latin-1 of `name: value\r\n` |
| Http.HeaderBlock | camera/server.py:92-94 | the bytes of `end_headers()` after the queued headers: their lines and a blank line; `PartLayout` states the result for a part's two headers |
| Http.HeaderLineText | camera/server.py:92-94 | a queued header is the latin-1 bytes of `name: value\r\n` |
| Multipart.PartLayout | camera/server.py:91-96 | a part is the delimiter line, the `Content-Type` line, `Content-Length: `, the decimal length, the blank line, the frame and CRLF, in this order |
| Multipart.PartWrites | camera/server.py:91-96 | the four writes of one frame, in order; `PartLayout` states the bytes they make up and `SendWrites` how far they get |
| Multipart.Part | camera/server.py:91-96 | one part; `PartLayout`, `PartEdges` and `PartRoundTrip` state its layout, its edges and that it parses back to the frame |
| Multipart.Body | camera/realtime.py:82-92 | the parts of the delivered frames back to back; `BodyRoundTrip`, `BodySplit` and `DelimiterAfterLineBreak` state what it holds |
| Multipart.PartHeadText | camera/server.py:91-94 | the part head is the text `--FRAME\r\nContent-Type: image/jpeg\r\nContent-Length: ` |
| Multipart.PartRoundTrip | camera/server.py:91-96 | parsing a part followed by anything recovers the frame verbatim and the rest, so the declared length equals the frame's size |
| Multipart.PartEdges | camera/realtime.py:87-92 | a part opens with `--FRAME\r\n` and closes with CRLF |
| Multipart.BodyRoundTrip | camera/realtime.py:82-92 | the stream body for any list of frames parses back into exactly that list |
| Multipart.BodyAppend | camera/realtime.py:83-92 | one more delivered frame appends exactly its part to the body |
| Multipart.BodySplit | camera/realtime.py:83-92 | the body is the in-order concatenation of the bodies of any split of the frames |
| Multipart.DelimiterAfterLineBreak | camera/realtime.py:82-92 | every later `--FRAME` delimiter in the body directly follows a CRLF |
| Multipart.TwoFrameScenario | camera/realtime.py:87-92 | two ten-byte frames give two parts in order, each declaring length 10 |
| Multipart.SendWrites | camera/realtime.py:87-92 | the writes of a part are sent in order until one fails; all are sent exactly when they fit; on failure exactly the writes before the first one that does not fit were sent, so what was sent is always a prefix of them |
| Multipart.StepIsPrefix | camera/realtime.py:83-92 | the body sent before a frame followed by that frame's part is a prefix of the whole body |
| Multipart.ServeStream | camera/realtime.py:82-96 | the client receives a prefix of the body of the delivered frames, the whole body if and only if it fits, and is removed exactly when it does not; a removed client has received exactly the parts before the failing one and that part's writes before the first write that does not fit; no other state is touched; server.py's loop (camera/server.py:86-100) is the same code |
| Routing.PageResponse | camera/server.py:70-76 | the page answer; `PageDeclaresItsLength` states its status, headers and body |
| Routing.StreamResponse | camera/server.py:77-85 | the stream answer; `StreamHeaders` states its status and its four headers in order |
| Routing.NotFound | camera/server.py:101-103 | `send_error(404)`, as status 404 with no headers and no body; `ServerRoutes` and `RealtimeRoutes` state when it is sent |
| Routing.ServerGet | camera/server.py:65-103 | server.py's `do_GET`; `ServerRoutes`, `ServerRedirectLeadsToPage` and `ServersAgree` state its routing |
| Routing.RealtimeGet | camera/realtime.py:65-99 | realtime.py's `do_GET`; `RealtimeRoutes` and `ServersAgree` state its routing |
| Routing.PageDeclaresItsLength | camera/server.py:70-76 | the page answer of both servers (also camera/realtime.py:66-72) is 200 `text/html`, its `Content-Length` reads back as the byte length of the body, and the body decodes to the page |
| Routing.ServerRoutes | camera/server.py:66-103 | routing is by exact match: 301 if and only if `/`, the page exactly for `/index.html`, the stream exactly for `/stream.mjpg`, 404 exactly for every other path |
| Routing.ServerRedirectLeadsToPage | camera/server.py:66-69 | `/` answers 301 with no body and `Location: /index.html`, and following it gives the page |
| Routing.RealtimeRoutes | camera/realtime.py:66-99 | the page exactly at `/`, the stream exactly at `/stream.mjpg`, 404 exactly for every other path, `/index.html` included |
| Routing.ServersAgree | camera/realtime.py:66-99 | the two servers answer alike on every path other than `/` and `/index.html`, and the preview server's `/index.html` is the realtime server's `/` |
| Routing.StreamHeaders | camera/realtime.py:73-81 | the stream answer is 200 with exactly `Age: 0`, `Cache-Control: no-cache, private`, `Pragma: no-cache` and `Content-Type: multipart/x-mixed-replace; boundary=FRAME`, in this order, and the boundary is the one every part's delimiter uses; server.py (camera/server.py:77-85) sends the same |
| Resolutions.CameraResolution | camera/server.py:35-42 | `--res` accepts exactly the six keys `640x480`, `480p`, `1920x1080`, `1080p`, `1280x720` and `720p`; the camera gets one of the three sizes, a key the table maps to itself; a `WxH` key is its own size and a `<h>p` alias gives the size of height `h` |
| Resolutions.ThreeSizes | camera/config.py:4-11 | the six keys map onto exactly three sizes, `640x480`, `1280x720` and `1920x1080` |
| Resolutions.CanonicalAndAliases | camera/config.py:5-10 | each `WxH` key maps to itself, `480p`, `720p` and `1080p` map to their sizes, and the default `480p` gives `640x480` |
| Resolutions.NormaliseIdempotent | camera/config.py:4-11 | every value is itself a key, so normalising twice gives the same result |
| Resolutions.SameTable | camera/server.py:17-24 | server.py's `RESOLUTIONS` equals `RESOLUTION_MAPPING` |
| Listing.EndsWithIffSuffix | camera/lapse2movie.py:26 | `str.endswith` holds exactly when the text is some (possibly empty) text followed by the suffix |
| Listing.IsJpg | camera/lapse2movie.py:55 | the `*.jpg` match on a file name, as `str.endswith(".jpg")`; `EndsWithIffSuffix` states that it holds exactly for some text followed by `.jpg` |
| Listing.Counted | camera/lapse_web.py:29 | an entry both tools keep: a `*.jpg` name and a size above 0; `CountedImages` and `CountedImagesExact` state which entries the list keeps by it |
| Listing.CountedImages | camera/lapse_web.py:29 | keeps exactly the `*.jpg` entries of size > 0 and nothing else, never more often than the listing holds them |
| Listing.CountedImagesExact | camera/lapse_web.py:29 | every counted entry is kept exactly as often as the listing holds it, and in listing order: the result is the listing with the other entries taken out |
| Listing.NameLe | camera/lapse2movie.py:55 | Python's `<=` on names, code point by code point; the four lemmas below state that it is a total order |
| Listing.NameLeReflexive | camera/lapse2movie.py:55 | Python's name order: every name is below or equal to itself |
| Listing.NameLeTotal | camera/lapse2movie.py:55 | any two names are comparable |
| Listing.NameLeAntisymmetric | camera/lapse2movie.py:55 | names below or equal to each other are equal |
| Listing.NameLeTransitive | camera/lapse2movie.py:55 | the name order is transitive |
| Listing.SortByName | camera/lapse2movie.py:55 | `sorted` by name, as an insertion sort; `SortByNameSorts` states that the result is ascending and a permutation |
| Listing.InsertElements | camera/lapse2movie.py:55 | one insertion step adds exactly the inserted entry |
| Listing.InsertSorted | camera/lapse2movie.py:55 | one insertion step keeps the list sorted by name |
| Listing.SortByNameSorts | camera/lapse2movie.py:55 | `sorted` gives an ascending list holding the same entries, by multiset |
| Listing.MaxIndex | camera/lapse_web.py:25-32 | `max` picks a name no other name exceeds, and the first such one |
| Listing.Greatest | camera/lapse_web.py:32 | `max(images)` is an entry of the list whose name no other name exceeds |
| LapseMovie.AviPathArg | camera/lapse2movie.py:25-28 | accepts exactly a text that is some (possibly empty) text followed by `.avi`, returns that text (which the source wraps as a `Path`), and otherwise gives the `ValueError` message |
| LapseMovie.AviPathArgExamples | camera/lapse2movie.py:26-27 | `.avi` is accepted, while `x.AVI` and `video.avi.tmp` are rejected |
| LapseMovie.Images | camera/lapse2movie.py:55 | the image list holds exactly the `*.jpg` entries of size > 0, sorted by name |
| LapseMovie.Stem | camera/lapse2movie.py:61 | `name[:-4]` is the name without its last four characters, and `""` for a shorter name |
| LapseMovie.StemDropsSuffix | camera/lapse2movie.py:61 | for a `*.jpg` name, `name[:-4]` followed by `.jpg` is the name |
| LapseMovie.FrameFor | camera/lapse2movie.py:61-82 | a written frame shows its image and carries a timestamp text exactly when `--stamp` is given, and that text is the image's own stem `name[:-4]` |
| LapseMovie.FirstBadStamp | camera/lapse2movie.py:60-61 | the index of the first image whose stem `fromisoformat` rejects: every earlier stem is accepted |
| LapseMovie.VideoWriter.constructor | camera/lapse2movie.py:32-35 | an opened video holds no frames |
| LapseMovie.VideoWriter.Write | camera/lapse2movie.py:82 | `video.write` appends one frame |
| LapseMovie.VideoWriter.Release | camera/lapse2movie.py:36-37 | `release()` closes the video and keeps its frames |
| LapseMovie.MakeMovie | camera/lapse2movie.py:55-82 | with no image it fails before opening a video; otherwise it writes one frame per image in sorted order up to the first unreadable timestamp, and fails there |
| LapseMovie.WriteFrames | camera/lapse2movie.py:57-82 | the video holds the frames for the images before the first bad stem, and the run ends without error exactly when there is none |
| LapseMovie.OneFramePerImage | camera/lapse2movie.py:60-82 | when every stem is a timestamp, a run of the loop ends without error and leaves exactly one frame per image, frame i being image i's frame |
| LapseWeb.SubdirNames | camera/lapse_web.py:25 | keeps exactly the names of the subdirectories |
| LapseWeb.LapseDir | camera/lapse_web.py:24-27 | `IMAGE_DIR` is used as given when set; otherwise `iterdir` raises `FileNotFoundError` when the default storage directory is missing, `max` raises `ValueError` exactly when it has no subdirectory, and else the greatest subdirectory is chosen |
| LapseWeb.LastDot | camera/lapse_web.py:39 | the index of the last dot of a name, which pathlib takes the suffix from; `None` exactly when the name has no dot |
| LapseWeb.WithoutSuffix | camera/lapse_web.py:39 | `with_suffix("").name` is a prefix of the name |
| LapseWeb.SuffixAgreesWithStem | camera/lapse_web.py:39 | for a `<stem>.jpg` name with a non-empty stem, the monitor and the video tool read the same timestamp text |
| LapseWeb.SuffixDiffersForBareName | camera/lapse_web.py:39 | for a file named `.jpg` they differ: the monitor keeps `.jpg` while the video tool reads `""` |
| LapseWeb.LatestIn | camera/lapse_web.py:29-42 | over the chosen directory's listing: empty exactly when no entry counts; an answer names a counted entry that no counted name exceeds, `lapse_n` is the number of counted entries, and `ts` is the name without its suffix, which `fromisoformat` accepts as a time without UTC offset; any failure concerns a greatest counted name: `fromisoformat`'s `ValueError` when it rejects that text, or `localize`'s `ValueError` when the text carries a UTC offset |
| LapseWeb.GetLatest | camera/lapse_web.py:22-42 | fails with the directory error when the directory choice fails; otherwise the result is empty exactly when no entry counts; an answer names a counted entry that no counted name exceeds, `lapse_n` is the number of counted entries, and `ts` is the name without its suffix, which `fromisoformat` accepts as a time without UTC offset; any other failure concerns a greatest counted name: `fromisoformat`'s `ValueError` when it rejects that text, or `localize`'s `ValueError` when the text carries a UTC offset |
| LapseWeb.NonTimestampNameFails | camera/lapse_web.py:38-40 | a directory whose one counted file is not named by a timestamp, such as `snapshot.jpg`, makes `get_latest` raise `fromisoformat`'s `ValueError` |
| LapseWeb.AwareTimestampFails | camera/lapse_web.py:38-40 | a directory whose one counted file is named by a timestamp with a UTC offset, such as `2020-11-01T12:00:00+00:00.jpg`, makes `get_latest` raise `localize`'s `ValueError("Not naive datetime (tzinfo is already set)")` |
| LapseWeb.LatestApi | camera/lapse_web.py:45-55 | `latest_api` over the result of `get_latest`; `LatestApiAfterGetLatest` states that it raises `KeyError("image_bytes_b64")` exactly when no entry counts and otherwise reports a counted image, an accepted timestamp text and the count |
| LapseWeb.LatestApiAfterGetLatest | camera/lapse_web.py:45-55 | after `get_latest` returns, `latest_api` raises `KeyError("image_bytes_b64")` exactly when no entry of the chosen listing counts, and otherwise reports a counted image, a timestamp text `fromisoformat` accepts without UTC offset, and the number of counted entries |
| LapseWeb.LatestIsLastImage | camera/lapse_web.py:29-32 | the monitor's latest image has the name of the last entry of the image list the video tool reads from the same directory |
| LapseWeb.LatestCountsImages | camera/lapse_web.py:41 | `lapse_n` equals the length of the image list the video tool reads |

## Left out

- Threads and `threading.Condition`: which published frame a waiting client sees, and whether it skips any, depends on scheduling. The send loop is modelled over the frames a client was woken for. The notification count is ghost state.
- `ThreadingMixIn`, `daemon_threads`, `serve_forever`, sockets: server plumbing with nothing to compute.
- The status line and the `Server`/`Date` headers that `send_response` adds are not modelled. `send_error(404)` also sends `Connection`, `Content-Type` and `Content-Length` headers and an error page; neither those headers, the page, nor the extra blank line from the `end_headers()` call after it is modelled. `NotFound` is status 404 with no headers and no body.
- Text.Latin1: encodes each character as its code point modulo 256. `http.server` raises instead on a character above U+00FF. Every header text the handlers send is ASCII, so this case never arises.
- Multipart.SendAll: the socket's `write` is an assumed contract, not a modelled operation: a write sends its whole chunk when it fits the room left on the connection, and otherwise fails and sends nothing. A partial write before an error is not modelled.
- `logging.warning` on removing a streaming client (camera/server.py:97-100, camera/realtime.py:93-96) is not modelled; `ServeStream` only records that the client was removed.
- picamera: resolution, rotation, framerate, exposure and `start_recording`. This includes camera/shot.py and camera/lapse.py in full.
- LapseMovie.AviPathArg: returns the text `s` where the source returns `Path(s)`, which normalises it (`./v.avi` becomes `v.avi`); path normalisation is not modelled. The check is defined but not used by `make_parser` (camera/lapse2movie.py:48 parses `--dst` with `Path`), so the tool itself accepts any `--dst`.
- `existing_dir_arg` (camera/lapse2movie.py:16-22): a check of the filesystem, which this model takes as input, so it is not modelled.
- argparse: `make_parser` and the argument defaults are not modelled, apart from the `--res` choices. realtime.py and lapse_web.py also read `config.WEB_PORT` and `config.EXPOSURE_MODES`, which camera/config.py does not define. That is a start-up failure outside this model.
- The page text is a parameter. Reading it from the HTML file is not modelled.
- The filesystem is an input: an `is_dir` flag per storage entry, directory listings of (name, size), and a map from directory path to listing. A path missing from the map lists as empty; a missing default storage directory is `None`. `Path` normalisation of `IMAGE_DIR` and path joining are not modelled. `GetLatest` returns the directory and the entry instead of the joined path.
- LapseMovie.MakeMovie: `cv2.imread`, the frame size, `VideoWriter_fourcc`, `putText` and `tqdm` are not modelled. A written frame records the image name and, with `--stamp`, the text whose time is drawn. `datetime.fromisoformat` is a parameter `isIso`, and `strftime` is not modelled.
- LapseWeb.GetLatest: the base64 of the image bytes, the `pytz` localisation of the timestamp itself, and the `print` call are not modelled. `datetime.fromisoformat` is a parameter `isIso`, and whether the parsed time carries a UTC offset is a parameter `isAware`; only `localize`'s `ValueError` on such a time is modelled. The `fromisoformat` error message here quotes the text as `'<text>'`, whereas Python writes the text's `repr`; the two differ for a text holding a quote, a backslash or a non-printable character. The result names the image file and the timestamp text, not the parsed time.
- LapseWeb.LatestIn: the same abstractions as `GetLatest`: `isIso` and `isAware` stand for `fromisoformat` and the offset check, and the localised time itself is not computed.
- Flask routing, `jsonify`, templates and the gevent server are not modelled.
- setup.py: packaging metadata only.
