/**
 * The MJPEG frame assembler `StreamingOutput` (identical in the preview
 * server and the realtime server). The camera driver calls `write` once per
 * chunk of its MJPEG stream; a chunk that begins with the JPEG Start-Of-Image
 * marker 0xFF 0xD8 (ITU-T T.81, Table B.1) closes the frame in progress,
 * which is published as `frame`, and starts the next one in the same
 * `io.BytesIO` buffer, overwritten from offset 0.
 */
module FrameAssembly {
  import opened Wrappers
  import opened Text

  // ---------------------------------------------------------------------
  // The in-memory byte buffer `io.BytesIO`, with the four calls used.

  /**
   * The bytes after a BytesIO write of `b` at position `pos`: an empty write
   * changes nothing, and a non-empty one past the end zero-fills the gap.
   */
  function Overwrite(data: seq<byte>, pos: nat, b: seq<byte>): (r: seq<byte>)
    ensures b == [] ==> r == data
    ensures b != [] ==> |r| == if pos + |b| > |data| then pos + |b| else |data|
    ensures b != [] ==> r[pos..pos + |b|] == b
    ensures forall i | 0 <= i < pos && i < |data| :: r[i] == data[i]
    ensures b != [] ==> forall i | |data| <= i < pos :: r[i] == 0
    ensures forall i | pos + |b| <= i < |data| :: r[i] == data[i]
  {
    if b == [] then data else
    var padded := if pos > |data| then data + seq(pos - |data|, _ => 0) else data;
    padded[..pos] + b + (if pos + |b| < |padded| then padded[pos + |b|..] else [])
  }

  class BytesIO {
    var data: seq<byte>
    var pos: nat

    /** `io.BytesIO()`: empty, positioned at 0. */
    constructor ()
      ensures data == [] && pos == 0
    {
      data, pos := [], 0;
    }

    /** `write(b)`: overwrites from the position on, moves past `b`, returns `len(b)`. */
    method Write(b: seq<byte>) returns (n: nat)
      modifies this
      ensures data == Overwrite(old(data), old(pos), b)
      ensures pos == old(pos) + |b|
      ensures n == |b|
    {
      data := Overwrite(data, pos, b);
      pos := pos + |b|;
      n := |b|;
    }

    /** `truncate()`: cuts the buffer at the position (never extends it) and returns the new size. */
    method Truncate() returns (size: nat)
      modifies this
      ensures data == if old(pos) < |old(data)| then old(data)[..old(pos)] else old(data)
      ensures pos == old(pos) && size == old(pos)
    {
      if pos < |data| {
        data := data[..pos];
      }
      size := pos;
    }

    /** `seek(offset)` from the start. */
    method Seek(offset: nat) returns (p: nat)
      modifies this
      ensures data == old(data) && pos == offset && p == offset
    {
      pos := offset;
      p := offset;
    }

    /** `getvalue()`: the whole buffer, whatever the position. */
    method GetValue() returns (v: seq<byte>)
      ensures v == data
    {
      v := data;
    }
  }

  // ---------------------------------------------------------------------
  // What the assembler computes, as functions of the chunk history.

  /** `buf.startswith(b"\xff\xd8")`. */
  predicate IsMarker(chunk: seq<byte>) {
    |chunk| >= 2 && chunk[0] == 0xFF && chunk[1] == 0xD8
  }

  /** The bytes written since the last marker chunk, that chunk included. */
  function Pending(history: seq<seq<byte>>): seq<byte>
    decreases |history|
  {
    if history == [] then []
    else
      var last := history[|history| - 1];
      if IsMarker(last) then last else Pending(history[..|history| - 1]) + last
  }

  /** The frames published so far, oldest first: one per marker chunk. */
  function Published(history: seq<seq<byte>>): seq<seq<byte>>
    decreases |history|
  {
    if history == [] then []
    else
      var init := history[..|history| - 1];
      Published(init) + if IsMarker(history[|history| - 1]) then [Pending(init)] else []
  }

  /** The value of `frame`: the last published frame, or `None` before the first. */
  function Latest(history: seq<seq<byte>>): Option<seq<byte>> {
    var p := Published(history);
    if p == [] then None else Some(p[|p| - 1])
  }

  /** Number of marker chunks in the history. */
  function MarkerCount(history: seq<seq<byte>>): nat
    decreases |history|
  {
    if history == [] then 0
    else MarkerCount(history[..|history| - 1]) + if IsMarker(history[|history| - 1]) then 1 else 0
  }

  /** Index of the last marker chunk, or 0 when there is none. */
  function LastMarker(history: seq<seq<byte>>): (k: nat)
    ensures k <= |history| && (history != [] ==> k < |history|)
    ensures k > 0 ==> IsMarker(history[k])
    ensures forall j | k < j < |history| :: !IsMarker(history[j])
    ensures (forall j | 0 <= j < |history| :: !IsMarker(history[j])) ==> k == 0
    decreases |history|
  {
    if history == [] then 0
    else if IsMarker(history[|history| - 1]) then |history| - 1
    else LastMarker(history[..|history| - 1])
  }

  // ---------------------------------------------------------------------
  // The object.

  class StreamingOutput {
    var frame: Option<seq<byte>>
    const buffer: BytesIO
    /** Stands for `condition.notify_all()`: how many times waiters were woken. */
    ghost var notifications: nat
    /** Every chunk passed to `write`, in order. */
    ghost var history: seq<seq<byte>>

    ghost predicate Valid()
      reads this, buffer
    {
      && buffer.pos <= |buffer.data|
      && buffer.data[..buffer.pos] == Pending(history)
      && frame == Latest(history)
      && notifications == |Published(history)|
    }

    constructor ()
      ensures Valid() && fresh(buffer)
      ensures history == [] && frame == None && notifications == 0
      ensures buffer.data == [] && buffer.pos == 0
    {
      frame := None;
      buffer := new BytesIO();
      notifications := 0;
      history := [];
    }

    method Write(chunk: seq<byte>) returns (n: nat)
      requires Valid()
      modifies this, buffer
      ensures Valid()
      ensures history == old(history) + [chunk]
      ensures n == |chunk|
      ensures buffer.data[..buffer.pos] == Pending(history)
      ensures buffer.pos == if IsMarker(chunk) then |chunk| else old(buffer.pos) + |chunk|
      ensures buffer.data == if IsMarker(chunk) then Overwrite(old(buffer.data[..buffer.pos]), 0, chunk)
                             else Overwrite(old(buffer.data), old(buffer.pos), chunk)
      ensures frame == if IsMarker(chunk) then Some(old(buffer.data[..buffer.pos])) else old(frame)
      ensures notifications == old(notifications) + if IsMarker(chunk) then 1 else 0
    {
      if |chunk| >= 2 && chunk[0] == 0xFF && chunk[1] == 0xD8 {
        var _ := buffer.Truncate();
        var value := buffer.GetValue();
        assert value == old(buffer.data[..buffer.pos]) == Pending(old(history));
        frame := Some(value);
        notifications := notifications + 1;
        var _ := buffer.Seek(0);
      }
      n := buffer.Write(chunk);
      history := history + [chunk];
      assert history[..|history| - 1] == old(history);
      assert Published(history) == Published(old(history)) + if IsMarker(chunk) then [Pending(old(history))] else [];
    }
  }

  // ---------------------------------------------------------------------
  // Properties of the assembler.

  /** The frame in progress is the chunks from the last marker chunk (inclusive) to the end. */
  lemma {:induction false} PendingSinceLastMarker(history: seq<seq<byte>>)
    ensures Pending(history) == Concat(history[LastMarker(history)..])
    decreases |history|
  {
    if history != [] {
      var init := history[..|history| - 1];
      var last := history[|history| - 1];
      if IsMarker(last) {
        assert history[|history| - 1..] == [last];
        assert Concat([last]) == Concat([]) + last;
      } else {
        PendingSinceLastMarker(init);
        var k := LastMarker(init);
        assert history[k..] == init[k..] + [last];
        ConcatAppend(init[k..], [last]);
        assert Concat([last]) == Concat([]) + last;
      }
    }
  }

  /**
   * A marker chunk publishes exactly the chunks written since the previous
   * marker chunk (that one included, the new one excluded).
   */
  lemma {:induction false} MarkerPublishesSegment(history: seq<seq<byte>>, chunk: seq<byte>)
    requires IsMarker(chunk)
    ensures Latest(history + [chunk]) == Some(Concat(history[LastMarker(history)..]))
  {
    assert (history + [chunk])[..|history|] == history;
    PendingSinceLastMarker(history);
  }

  /**
   * The first marker chunk publishes everything written before it; on a
   * fresh output that is the empty byte string.
   */
  lemma {:induction false} FirstMarkerPublishesPrefix(history: seq<seq<byte>>, chunk: seq<byte>)
    requires forall i | 0 <= i < |history| :: !IsMarker(history[i])
    requires IsMarker(chunk)
    ensures Latest(history + [chunk]) == Some(Concat(history))
    ensures history == [] ==> Latest(history + [chunk]) == Some([])
  {
    MarkerPublishesSegment(history, chunk);
    assert history[LastMarker(history)..] == history;
  }

  /** `frame` stays `None` exactly until the first marker chunk. */
  lemma {:induction false} NoFrameUntilMarker(history: seq<seq<byte>>)
    ensures Latest(history) == None <==> forall i | 0 <= i < |history| :: !IsMarker(history[i])
    decreases |history|
  {
    if history != [] {
      var init := history[..|history| - 1];
      NoFrameUntilMarker(init);
      assert forall i | 0 <= i < |init| :: init[i] == history[i];
    }
  }

  /** A chunk shorter than the marker never publishes. */
  lemma {:induction false} ShortChunkKeepsFrame(history: seq<seq<byte>>, chunk: seq<byte>)
    requires |chunk| < 2
    ensures Latest(history + [chunk]) == Latest(history)
    ensures Pending(history + [chunk]) == Pending(history) + chunk
  {
  }

  /** One notification per marker chunk. */
  lemma {:induction false} OneNotificationPerMarker(history: seq<seq<byte>>)
    ensures |Published(history)| == MarkerCount(history)
    decreases |history|
  {
    if history != [] {
      OneNotificationPerMarker(history[..|history| - 1]);
    }
  }

  /**
   * Every byte written is in exactly one published frame or in the frame in
   * progress, in order: no byte is lost, repeated or moved across frames.
   */
  lemma {:induction false} FramesPartitionStream(history: seq<seq<byte>>)
    ensures Concat(Published(history)) + Pending(history) == Concat(history)
    decreases |history|
  {
    if history != [] {
      var init := history[..|history| - 1];
      var last := history[|history| - 1];
      FramesPartitionStream(init);
      if IsMarker(last) {
        ConcatAppend(Published(init), [Pending(init)]);
        assert Concat([Pending(init)]) == Concat([]) + Pending(init);
      } else {
        assert Published(history) == Published(init);
      }
    }
  }

  /** Every published frame after the first begins with the Start-Of-Image marker. */
  lemma {:induction false} LaterFramesStartWithSoi(history: seq<seq<byte>>, i: nat)
    requires 0 < i < |Published(history)|
    ensures |Published(history)[i]| >= 2
    ensures Published(history)[i][0] == 0xFF && Published(history)[i][1] == 0xD8
    decreases |history|
  {
    var init := history[..|history| - 1];
    var last := history[|history| - 1];
    if i < |Published(init)| {
      LaterFramesStartWithSoi(init, i);
    } else {
      // the frame published by `last` began with an earlier marker chunk
      assert IsMarker(last) && i == |Published(init)|;
      PendingStartsWithMarker(init);
    }
  }

  lemma {:induction false} PendingStartsWithMarker(history: seq<seq<byte>>)
    requires Published(history) != []
    ensures IsMarker(Pending(history))
    decreases |history|
  {
    var init := history[..|history| - 1];
    var last := history[|history| - 1];
    if !IsMarker(last) {
      PendingStartsWithMarker(init);
    }
  }

  /**
   * Bytes of a longer earlier frame, left past the position in the buffer,
   * are not published: the buffer is truncated before `getvalue()`.
   * Frames of 5 and then 3 bytes; the second publication is the 3 bytes only.
   */
  method StaleTailScenario() returns (first: Option<seq<byte>>, second: Option<seq<byte>>, stale: seq<byte>)
    ensures first == Some([0xFF, 0xD8, 1, 2, 3])
    ensures second == Some([0xFF, 0xD8, 9])
    ensures stale == [0xFF, 0xD8, 9, 2, 3]
  {
    var out := new StreamingOutput();
    var _ := out.Write([0xFF, 0xD8, 1, 2, 3]);
    var _ := out.Write([0xFF, 0xD8, 9]);
    first := out.frame;
    stale := out.buffer.data;
    var _ := out.Write([0xFF, 0xD8]);
    second := out.frame;
  }
}
