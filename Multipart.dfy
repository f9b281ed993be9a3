/**
 * The body of `GET /stream.mjpg`: a `multipart/x-mixed-replace` stream with
 * boundary `FRAME` (RFC 2046, section 5.1.1), one part per delivered frame,
 * each part carrying `Content-Type: image/jpeg` and a `Content-Length`
 * (RFC 9110, section 8.6) equal to the frame's size. The per-client send
 * loop is modelled over the frames the client was woken for.
 */
module Multipart {
  import opened Wrappers
  import opened Text
  import opened Http

  const BOUNDARY: string := "FRAME"

  /** `b"--FRAME\r\n"`: the delimiter line that opens every part. */
  const DELIMITER_LINE: seq<byte> := Latin1("--" + BOUNDARY + "\r\n")

  /** The headers sent for one part, in order. */
  function PartHeaders(frame: seq<byte>): seq<Header> {
    [Header("Content-Type", "image/jpeg"), Header("Content-Length", Decimal(|frame|))]
  }

  /** The four writes per frame: delimiter, header block, frame, line break. */
  function PartWrites(frame: seq<byte>): seq<seq<byte>> {
    [DELIMITER_LINE, HeaderBlock(PartHeaders(frame)), frame, CRLF]
  }

  /** One part: the four writes, back to back. */
  function Part(frame: seq<byte>): seq<byte> {
    Concat(PartWrites(frame))
  }

  lemma {:induction false} Concat4(a: seq<byte>, b: seq<byte>, c: seq<byte>, d: seq<byte>)
    ensures Concat([a, b, c, d]) == a + b + c + d
  {
    assert [a][..0] == [] && [a, b][..1] == [a] && [a, b, c][..2] == [a, b] && [a, b, c, d][..3] == [a, b, c];
    assert Concat([a]) == a;
    assert Concat([a, b]) == a + b;
    assert Concat([a, b, c]) == a + b + c;
  }

  lemma {:induction false} Reassociate(d: seq<byte>, n1: seq<byte>, sep: seq<byte>, v1: seq<byte>, eol: seq<byte>,
                    n2: seq<byte>, v2: seq<byte>, f: seq<byte>)
    ensures d + ((n1 + sep + v1 + eol) + ((n2 + sep + v2 + eol) + []) + eol) + f + eol
         == (d + n1 + sep + v1 + eol + n2 + sep) + v2 + (eol + eol) + f + eol
  {
  }

  /** The stream body for the given frames, parts in order. */
  function Body(frames: seq<seq<byte>>): seq<byte>
    decreases |frames|
  {
    if frames == [] then [] else Part(frames[0]) + Body(frames[1..])
  }

  /** Everything in a part up to the decimal length. */
  const PART_HEAD: seq<byte> :=
    DELIMITER_LINE + Latin1("Content-Type") + COLON_SP + Latin1("image/jpeg") + CRLF
    + Latin1("Content-Length") + COLON_SP
  /** The end of the `Content-Length` line and the blank line. */
  const HEAD_END: seq<byte> := CRLF + CRLF

  /** The byte layout of a part. */
  lemma {:induction false} PartLayout(frame: seq<byte>)
    ensures Part(frame) == PART_HEAD + Latin1(Decimal(|frame|)) + HEAD_END + frame + CRLF
  {
    var ct := Header("Content-Type", "image/jpeg");
    var cl := Header("Content-Length", Decimal(|frame|));
    var hs := PartHeaders(frame);
    assert hs[1..] == [cl] && [cl][1..] == [];
    assert HeaderLines([cl]) == HeaderLine(cl) + HeaderLines([]);
    assert HeaderLines(hs) == HeaderLine(ct) + HeaderLines([cl]);
    var hb := HeaderBlock(hs);
    Concat4(DELIMITER_LINE, hb, frame, CRLF);
    Reassociate(DELIMITER_LINE, Latin1("Content-Type"), COLON_SP, Latin1("image/jpeg"), CRLF,
                Latin1("Content-Length"), Latin1(Decimal(|frame|)), frame);
  }

  /** The text of the part head, as one string. */
  lemma {:induction false} PartHeadText()
    ensures PART_HEAD == Latin1("--FRAME\r\n" + "Content-Type: image/jpeg\r\n" + "Content-Length: ")
    ensures HEAD_END == Latin1("\r\n" + "\r\n")
  {
  }

  // ---------------------------------------------------------------------
  // Reading the stream back.

  /** Length of the run of ASCII digits at the start of `s`. */
  function DigitRun(s: seq<byte>): (k: nat)
    ensures k <= |s|
    ensures forall i | 0 <= i < k :: IsDigitByte(s[i])
    ensures k < |s| ==> !IsDigitByte(s[k])
    decreases |s|
  {
    if s == [] || !IsDigitByte(s[0]) then 0 else 1 + DigitRun(s[1..])
  }

  /** `s` with the prefix `p` removed, when `s` starts with `p`. */
  function AfterPrefix(s: seq<byte>, p: seq<byte>): (r: Option<seq<byte>>)
    ensures r.Some? <==> p <= s
    ensures r.Some? ==> s == p + r.value
  {
    if |p| <= |s| && s[..|p|] == p then Some(s[|p|..]) else None
  }

  lemma {:induction false} AfterPrefixOf(p: seq<byte>, rest: seq<byte>)
    ensures AfterPrefix(p + rest, p) == Some(rest)
  {
  }

  /** Reads one part off the front of `s`: its frame and the bytes after it. */
  function ParsePart(s: seq<byte>): (r: Option<(seq<byte>, seq<byte>)>)
    ensures r.Some? ==> |r.value.1| < |s|
  {
    match AfterPrefix(s, PART_HEAD)
    case None => None
    case Some(t) =>
      var k := DigitRun(t);
      match ParseDecimal(t[..k])
      case None => None
      case Some(n) =>
        match AfterPrefix(t[k..], HEAD_END)
        case None => None
        case Some(v) =>
          if |v| < n then None
          else
            match AfterPrefix(v[n..], CRLF)
            case None => None
            case Some(rest) => Some((v[..n], rest))
  }

  /** Reads a whole stream body back into its frames. */
  function ParseBody(s: seq<byte>): Option<seq<seq<byte>>>
    decreases |s|
  {
    if s == [] then Some([])
    else
      match ParsePart(s)
      case None => None
      case Some((frame, rest)) =>
        match ParseBody(rest)
        case None => None
        case Some(frames) => Some([frame] + frames)
  }

  lemma {:induction false} Nest5(a: seq<byte>, b: seq<byte>, c: seq<byte>, d: seq<byte>, e: seq<byte>, f: seq<byte>)
    ensures a + b + c + d + e + f == a + (b + (c + (d + (e + f))))
  {
  }

  /** The parser recovers the frame exactly, and the declared length is the frame's size. */
  lemma {:induction false} PartRoundTrip(frame: seq<byte>, rest: seq<byte>)
    ensures ParsePart(Part(frame) + rest) == Some((frame, rest))
  {
    var d := Latin1(Decimal(|frame|));
    var tail := CRLF + rest;
    var v := frame + tail;
    var u := HEAD_END + v;
    var t := d + u;
    PartLayout(frame);
    Nest5(PART_HEAD, d, HEAD_END, frame, CRLF, rest);
    assert Part(frame) + rest == PART_HEAD + t;
    AfterPrefixOf(PART_HEAD, t);
    assert DigitRun(t) == |d| by {
      DecimalBytesAreDigits(|frame|);
      assert CRLF[0] == 13;
      assert u[0] == 13;
      DigitRunPrefix(d, u);
    }
    assert t[..|d|] == d && t[|d|..] == u;
    DecimalRoundTrip(|frame|);
    AfterPrefixOf(HEAD_END, v);
    assert v[..|frame|] == frame && v[|frame|..] == tail;
    AfterPrefixOf(CRLF, rest);
  }

  lemma {:induction false} DigitRunPrefix(d: seq<byte>, s: seq<byte>)
    requires forall i | 0 <= i < |d| :: IsDigitByte(d[i])
    requires |s| > 0 && s[0] == '\r' as int as byte
    ensures DigitRun(d + s) == |d|
    decreases |d|
  {
    if d != [] {
      assert (d + s)[1..] == d[1..] + s;
      DigitRunPrefix(d[1..], s);
    }
  }

  /** A stream body parses back into exactly the frames it was made from. */
  lemma {:induction false} BodyRoundTrip(frames: seq<seq<byte>>)
    ensures ParseBody(Body(frames)) == Some(frames)
    decreases |frames|
  {
    if frames != [] {
      BodyHeadParses(frames);
      BodyRoundTrip(frames[1..]);
      ParseBodyStep(Body(frames), frames[0], Body(frames[1..]), frames[1..]);
      assert [frames[0]] + frames[1..] == frames;
    }
  }

  lemma {:induction false} BodyHeadParses(frames: seq<seq<byte>>)
    requires frames != []
    ensures ParsePart(Body(frames)) == Some((frames[0], Body(frames[1..])))
  {
    PartRoundTrip(frames[0], Body(frames[1..]));
  }

  /** One step of the body parser: a part, then the parse of what follows it. */
  lemma {:induction false} ParseBodyStep(s: seq<byte>, frame: seq<byte>, rest: seq<byte>, more: seq<seq<byte>>)
    requires ParsePart(s) == Some((frame, rest)) && ParseBody(rest) == Some(more)
    ensures ParseBody(s) == Some([frame] + more)
  {
  }

  lemma {:induction false} BodyAppend(frames: seq<seq<byte>>, frame: seq<byte>)
    ensures Body(frames + [frame]) == Body(frames) + Part(frame)
    decreases |frames|
  {
    if frames == [] {
      assert ([] + [frame])[1..] == [];
    } else {
      assert (frames + [frame])[1..] == frames[1..] + [frame];
      BodyAppend(frames[1..], frame);
    }
  }

  lemma {:induction false} BodySplit(frames: seq<seq<byte>>, i: nat)
    requires i <= |frames|
    ensures Body(frames) == Body(frames[..i]) + Body(frames[i..])
    decreases i
  {
    if i > 0 {
      assert frames[..i][1..] == frames[1..][..i - 1];
      assert frames[i..] == frames[1..][i - 1..];
      BodySplit(frames[1..], i - 1);
    }
  }

  /** A part opens with the delimiter line and closes with a line break. */
  lemma {:induction false} PartEdges(frame: seq<byte>)
    ensures |Part(frame)| >= |DELIMITER_LINE| + |CRLF|
    ensures Part(frame)[..|DELIMITER_LINE|] == DELIMITER_LINE
    ensures Part(frame)[|Part(frame)| - |CRLF|..] == CRLF
  {
    var hb := HeaderBlock(PartHeaders(frame));
    Concat4(DELIMITER_LINE, hb, frame, CRLF);
    var p := Part(frame);
    assert p == DELIMITER_LINE + (hb + frame + CRLF);
    assert p == (DELIMITER_LINE + hb + frame) + CRLF;
  }

  /**
   * Every part ends with CRLF, so each later `--FRAME` delimiter in the body
   * is preceded by a line break, as RFC 2046, section 5.1.1 asks.
   */
  lemma {:induction false} DelimiterAfterLineBreak(frames: seq<seq<byte>>, i: nat)
    requires 0 < i < |frames|
    ensures var k := |Body(frames[..i])|;
      k >= 2 && |Body(frames)| >= k + |DELIMITER_LINE| &&
      Body(frames)[k - 2..k] == CRLF && Body(frames)[k..k + |DELIMITER_LINE|] == DELIMITER_LINE
  {
    BodySplit(frames, i);
    BodyEndsWithLineBreak(frames[..i]);
    BodyStartsWithDelimiter(frames[i..]);
    JoinEdges(Body(frames[..i]), Body(frames[i..]), CRLF, DELIMITER_LINE);
  }

  lemma {:induction false} BodyEndsWithLineBreak(frames: seq<seq<byte>>)
    requires frames != []
    ensures |CRLF| <= |Body(frames)| && Body(frames)[|Body(frames)| - |CRLF|..] == CRLF
  {
    var n := |frames|;
    assert frames == frames[..n - 1] + [frames[n - 1]];
    BodyAppend(frames[..n - 1], frames[n - 1]);
    PartEdges(frames[n - 1]);
    EndsWithAfter(Body(frames[..n - 1]), Part(frames[n - 1]), CRLF);
  }

  lemma {:induction false} BodyStartsWithDelimiter(frames: seq<seq<byte>>)
    requires frames != []
    ensures |DELIMITER_LINE| <= |Body(frames)| && Body(frames)[..|DELIMITER_LINE|] == DELIMITER_LINE
  {
    PartEdges(frames[0]);
    StartsWithBefore(Part(frames[0]), Body(frames[1..]), DELIMITER_LINE);
  }

  lemma {:induction false} EndsWithAfter(x: seq<byte>, y: seq<byte>, a: seq<byte>)
    requires |a| <= |y| && y[|y| - |a|..] == a
    ensures (x + y)[|x + y| - |a|..] == a
  {
  }

  lemma {:induction false} StartsWithBefore(x: seq<byte>, y: seq<byte>, b: seq<byte>)
    requires |b| <= |x| && x[..|b|] == b
    ensures (x + y)[..|b|] == b
  {
  }

  lemma {:induction false} JoinEdges(pre: seq<byte>, post: seq<byte>, a: seq<byte>, b: seq<byte>)
    requires |a| <= |pre| && pre[|pre| - |a|..] == a
    requires |b| <= |post| && post[..|b|] == b
    ensures (pre + post)[|pre| - |a|..|pre|] == a
    ensures (pre + post)[|pre|..|pre| + |b|] == b
  {
  }

  /**
   * The two-frame exchange: frames of ten 0x01 and ten 0x02 bytes give two
   * parts in order, each declaring `Content-Length: 10`.
   */
  lemma {:induction false} TwoFrameScenario()
    ensures var f1: seq<byte> := seq(10, _ => 0x01);
      var f2: seq<byte> := seq(10, _ => 0x02);
      var head := PART_HEAD + Latin1("10") + HEAD_END;
      Body([f1, f2]) == head + f1 + CRLF + head + f2 + CRLF
  {
    var f1: seq<byte> := seq(10, _ => 0x01);
    var f2: seq<byte> := seq(10, _ => 0x02);
    assert Decimal(10) == "10";
    PartLayout(f1);
    PartLayout(f2);
    assert Body([f2]) == Part(f2) + Body([]) by { assert [f2][1..] == []; }
    assert Body([f1, f2]) == Part(f1) + Body([f2]) by { assert [f1, f2][1..] == [f2]; }
  }

  // ---------------------------------------------------------------------
  // The per-client send loop.

  /**
   * One `wfile.write`: the client accepts `room` bytes in all; a write that
   * does not fit raises (broken pipe) and sends nothing.
   */
  method SendAll(sent: seq<byte>, room: nat, w: seq<byte>) returns (sent': seq<byte>, ok: bool)
    ensures ok <==> |sent| + |w| <= room
    ensures sent' == if ok then sent + w else sent
  {
    ok := |sent| + |w| <= room;
    sent' := if ok then sent + w else sent;
  }

  /**
   * A sequence of writes, in order, until one fails. The bytes sent are a
   * prefix of all the writes together, and all of them when they fit.
   */
  method SendWrites(sent: seq<byte>, room: nat, writes: seq<seq<byte>>) returns (sent': seq<byte>, ok: bool)
    requires |sent| <= room
    ensures ok <==> |sent| + |Concat(writes)| <= room
    ensures ok ==> sent' == sent + Concat(writes)
    ensures |sent'| <= room && sent' <= sent + Concat(writes)
    ensures !ok ==> exists j | 0 <= j < |writes| ::
      sent' == sent + Concat(writes[..j]) && |sent'| + |writes[j]| > room
  {
    sent', ok := sent, true;
    var k := 0;
    while k < |writes| && ok
      invariant 0 <= k <= |writes|
      invariant |sent'| <= room
      invariant ok ==> sent' == sent + Concat(writes[..k])
      invariant !ok ==> sent' <= sent + Concat(writes) && |sent| + |Concat(writes)| > room
      invariant !ok ==> exists j | 0 <= j < |writes| ::
        sent' == sent + Concat(writes[..j]) && |sent'| + |writes[j]| > room
      decreases |writes| - k, if ok then 1 else 0
    {
      WritesStep(sent, writes, k);
      sent', ok := SendAll(sent', room, writes[k]);
      k := k + 1;
    }
    if ok {
      assert writes[..k] == writes;
    }
  }

  lemma {:induction false} WritesStep(sent: seq<byte>, writes: seq<seq<byte>>, k: nat)
    requires k < |writes|
    ensures sent + Concat(writes[..k]) + writes[k] == sent + Concat(writes[..k + 1])
    ensures |Concat(writes)| >= |Concat(writes[..k])| + |writes[k]|
    ensures sent + Concat(writes[..k]) <= sent + Concat(writes)
  {
    var done := Concat(writes[..k]);
    var upto := writes[..k + 1];
    assert upto == writes[..k] + [writes[k]];
    ConcatAppend(writes[..k], [writes[k]]);
    assert Concat([writes[k]]) == writes[k] by { assert [writes[k]][..0] == []; }
    assert writes == upto + writes[k + 1..];
    ConcatAppend(upto, writes[k + 1..]);
    var more := writes[k] + Concat(writes[k + 1..]);
    assert Concat(writes) == done + more;
    PrefixOfAppend(sent + done, more);
  }

  /**
   * The `while True` loop of the stream handler, run over the frames the
   * client was woken for (`delivered`), towards a client that accepts `room`
   * bytes. A failed write is caught and ends this client's loop (`removed`),
   * after the parts before it and the writes of its own part before it were
   * sent; nothing but the client's own output is touched.
   */
  method ServeStream(delivered: seq<seq<byte>>, room: nat) returns (sent: seq<byte>, removed: bool)
    ensures removed <==> |Body(delivered)| > room
    ensures !removed ==> sent == Body(delivered)
    ensures |sent| <= room && sent <= Body(delivered)
    ensures removed ==> exists i, j | 0 <= i < |delivered| && 0 <= j < |PartWrites(delivered[i])| ::
      && sent == Body(delivered[..i]) + Concat(PartWrites(delivered[i])[..j])
      && |sent| + |PartWrites(delivered[i])[j]| > room
  {
    sent, removed := [], false;
    var i := 0;
    while i < |delivered| && !removed
      invariant 0 <= i <= |delivered|
      invariant |sent| <= room && sent <= Body(delivered)
      invariant !removed ==> sent == Body(delivered[..i])
      invariant removed ==> |Body(delivered)| > room
      invariant removed ==> i < |delivered| && exists j | 0 <= j < |PartWrites(delivered[i])| ::
        && sent == Body(delivered[..i]) + Concat(PartWrites(delivered[i])[..j])
        && |sent| + |PartWrites(delivered[i])[j]| > room
      decreases |delivered| - i, if removed then 0 else 1
    {
      StepIsPrefix(delivered, i);
      var ok;
      sent, ok := SendWrites(sent, room, PartWrites(delivered[i]));
      if ok {
        i := i + 1;
      } else {
        removed := true;
      }
    }
    if !removed {
      assert delivered[..i] == delivered;
    }
  }

  /** The bytes sent before part `i` followed by part `i` are a prefix of the whole body. */
  lemma {:induction false} StepIsPrefix(delivered: seq<seq<byte>>, i: nat)
    requires i < |delivered|
    ensures Body(delivered[..i + 1]) == Body(delivered[..i]) + Part(delivered[i])
    ensures Body(delivered[..i]) + Part(delivered[i]) <= Body(delivered)
  {
    var before := delivered[..i];
    var upto := delivered[..i + 1];
    assert upto == before + [delivered[i]];
    BodyAppend(before, delivered[i]);
    BodySplit(delivered, i + 1);
    PrefixOfAppend(Body(upto), Body(delivered[i + 1..]));
  }

  lemma {:induction false} PrefixOfAppend(a: seq<byte>, b: seq<byte>)
    ensures a <= a + b
  {
  }

}
