/**
  The streaming translator: it buffers chunks of any size, cuts frames out of the buffer as soon
  as they are complete, and yields one item per frame and at most one error.
 */
module EventStreamTranslator {
  import opened Wrappers
  import opened Bytes
  import opened EventStreamHeaders
  import opened EventStreamFrames

  /** What the translated stream yields. */
  datatype Item =
    | Event(event: Bytes)
    | InvalidLength
    | InvalidFrame
    | ReadFailed(message: string)
    | Truncated

  /** How the upstream body ends after its last chunk. */
  datatype Ending = EndOfInput | ReadError(message: string)

  // --- The one-shot reference: the whole body at once -----------------------------------------------

  predicate LengthOk(s: Bytes)
    requires |s| >= 4
  {
    16 <= FromBe32(s[..4]) <= MAX_FRAME_BYTES
  }

  /** No frame can be cut from the front yet, and the length read so far is no error. */
  predicate Incomplete(s: Bytes) {
    |s| < 4 || (LengthOk(s) && |s| < FromBe32(s[..4]))
  }

  function AtEnd(rest: Bytes, ending: Ending): seq<Item> {
    if ending.ReadError? then [ReadFailed(ending.message)]
    else if rest != [] then [Truncated]
    else []
  }

  ghost function Translation(x: Externals, s: Bytes, ending: Ending): seq<Item> {
    if Incomplete(s) then AtEnd(s, ending)
    else if !LengthOk(s) then [InvalidLength]
    else
      var n := FromBe32(s[..4]);
      match Decoded(x, s[..n])
      case None => [InvalidFrame]
      case Some(event) => [Event(event)] + Translation(x, s[n..], ending)
  }

  // --- The translator -----------------------------------------------------------------------------------

  /** A complete frame at the front is cut off the same way whatever bytes are still to come. */
  lemma CutAhead(x: Externals, s: Bytes, more: Bytes, ending: Ending)
    requires |s| >= 4 && !Incomplete(s)
    ensures !LengthOk(s) ==> Translation(x, s + more, ending) == [InvalidLength]
    ensures LengthOk(s) ==>
              var n := FromBe32(s[..4]);
              Translation(x, s + more, ending) ==
              match Decoded(x, s[..n])
              case None => [InvalidFrame]
              case Some(event) => [Event(event)] + Translation(x, s[n..] + more, ending)
  {
    hide Decoded;
    assert (s + more)[..4] == s[..4];
    if LengthOk(s) {
      var n := FromBe32(s[..4]);
      assert (s + more)[..n] == s[..n];
      assert (s + more)[n..] == s[n..] + more;
    }
  }

  /**
    The inner loop: cuts every complete frame. Between reads fewer than the frame limit of bytes
    stay buffered, and whatever arrives later, the items are those of the whole input so far.
   */
  method Drain(x: Externals, pending: Bytes) returns (items: seq<Item>, buffer: Bytes, failed: bool)
    ensures !failed ==> Incomplete(buffer) && |buffer| < MAX_FRAME_BYTES
    ensures !failed ==> forall more, ending ::
                          Translation(x, pending + more, ending) == items + Translation(x, buffer + more, ending)
    ensures failed ==> forall more, ending :: Translation(x, pending + more, ending) == items
  {
    hide Translation, Decoded;
    items, buffer := [], pending;
    while |buffer| >= 4
      invariant forall more, ending ::
                  Translation(x, pending + more, ending) == items + Translation(x, buffer + more, ending)
      decreases |buffer|
    {
      var totalLength := FromBe32(buffer[..4]);
      if !(16 <= totalLength <= MAX_FRAME_BYTES) {
        forall more, ending { CutAhead(x, buffer, more, ending); }
        return items + [InvalidLength], buffer, true;
      }
      if |buffer| < totalLength {
        return items, buffer, false;
      }
      forall more, ending { CutAhead(x, buffer, more, ending); }
      var frame := buffer[..totalLength];
      var sse := DecodeFrame(x, frame);
      if sse.None? {
        return items + [InvalidFrame], buffer[totalLength..], true;
      }
      forall more, ending
        ensures Translation(x, pending + more, ending)
             == items + [Event(sse.value)] + Translation(x, buffer[totalLength..] + more, ending)
      {
        var rest := Translation(x, buffer[totalLength..] + more, ending);
        assert items + ([Event(sse.value)] + rest) == items + [Event(sse.value)] + rest;
      }
      items, buffer := items + [Event(sse.value)], buffer[totalLength..];
    }
    failed := false;
  }

  function Concat(chunks: seq<Bytes>): Bytes {
    if chunks == [] then [] else chunks[0] + Concat(chunks[1..])
  }

  lemma ConcatNext(chunks: seq<Bytes>, i: nat)
    requires i <= |chunks|
    ensures Concat(chunks[i..]) == if i == |chunks| then [] else chunks[i] + Concat(chunks[i + 1..])
  {
    if i < |chunks| {
      assert chunks[i..][1..] == chunks[i + 1..];
    }
  }

  lemma NothingMore(x: Externals, rest: Bytes, ending: Ending)
    requires Incomplete(rest)
    ensures Translation(x, rest, ending) == AtEnd(rest, ending)
  {
  }

  /**
    Chunk independence: whatever way the body is split into chunks, the output is that of the
    one-shot reference over the whole body.
   */
  method Translate(x: Externals, chunks: seq<Bytes>, ending: Ending) returns (items: seq<Item>)
    ensures items == Translation(x, Concat(chunks), ending)
  {
    hide Translation, Concat;
    items := [];
    var buffer: Bytes := [];
    var next := 0;
    assert chunks[next..] == chunks && buffer + Concat(chunks) == Concat(chunks);
    while true
      invariant next <= |chunks|
      invariant Translation(x, Concat(chunks), ending)
             == items + Translation(x, buffer + Concat(chunks[next..]), ending)
      decreases |chunks| - next
    {
      var cut, rest, failed := Drain(x, buffer);
      var later := Concat(chunks[next..]);
      assert Translation(x, buffer + later, ending)
          == if failed then cut else cut + Translation(x, rest + later, ending);
      items, buffer := items + cut, rest;
      if failed {
        return;
      }
      if next == |chunks| {
        break;
      }
      assert rest + later == (rest + chunks[next]) + Concat(chunks[next + 1..]) by { ConcatNext(chunks, next); }
      buffer, next := buffer + chunks[next], next + 1;
    }
    assert buffer + Concat(chunks[next..]) == buffer by { ConcatNext(chunks, next); }
    NothingMore(x, buffer, ending);
    if ending.ReadError? {
      items := items + [ReadFailed(ending.message)];
    } else if buffer != [] {
      items := items + [Truncated];
    }
  }

  // --- What the reference means ---------------------------------------------------------------------------

  /** At most one error, and only as the last item. */
  lemma {:induction false} ErrorsComeLast(x: Externals, s: Bytes, ending: Ending)
    ensures forall i :: 0 <= i < |Translation(x, s, ending)| - 1 ==> Translation(x, s, ending)[i].Event?
    decreases |s|
  {
    hide Decoded;
    if !Incomplete(s) && LengthOk(s) {
      ErrorsComeLast(x, s[FromBe32(s[..4])..], ending);
    }
  }

  lemma DecodedHasItsLength(x: Externals, f: Bytes)
    requires Decoded(x, f).Some?
    ensures 16 <= |f| <= MAX_FRAME_BYTES && f[..4] == Be32(|f|)
  {
    hide Frame, Render;
  }

  ghost predicate AllDecode(x: Externals, fs: seq<Bytes>) {
    forall f :: f in fs ==> Decoded(x, f).Some?
  }

  ghost function Events(x: Externals, fs: seq<Bytes>): seq<Item>
    requires AllDecode(x, fs)
  {
    if fs == [] then [] else [Event(Decoded(x, fs[0]).value)] + Events(x, fs[1..])
  }

  /** A body made of decodable frames becomes their events, one for one and in order. */
  lemma {:induction false} TranslationOfFrames(x: Externals, fs: seq<Bytes>)
    requires AllDecode(x, fs)
    ensures Translation(x, Concat(fs), EndOfInput) == Events(x, fs)
  {
    hide Decoded;
    if fs != [] {
      var f, rest := fs[0], Concat(fs[1..]);
      DecodedHasItsLength(x, f);
      var s := Concat(fs);
      assert s[..4] == f[..4];
      assert s[..|f|] == f && s[|f|..] == rest;
      TranslationOfFrames(x, fs[1..]);
    }
  }

  lemma StopsAt(x: Externals, rest: Bytes, ending: Ending)
    ensures var items, limit := Translation(x, rest, ending), 16 + 128 * 1024 + 24 * 1024 * 1024;
            if |rest| < 4 || (16 <= FromBe32(rest[..4]) <= limit && |rest| < FromBe32(rest[..4])) then
              items == match ending
                       case ReadError(message) => [ReadFailed(message)]
                       case EndOfInput => if rest == [] then [] else [Truncated]
            else if !(16 <= FromBe32(rest[..4]) <= limit) then items == [InvalidLength]
            else Decoded(x, rest[..FromBe32(rest[..4])]).None? ==> items == [InvalidFrame]
  {
    hide Decoded;
  }

  /** Decodable frames at the front of a body come out as their events, whatever follows them. */
  lemma {:induction false} TranslationAfterFrames(x: Externals, fs: seq<Bytes>, rest: Bytes, ending: Ending)
    requires AllDecode(x, fs)
    ensures Translation(x, Concat(fs) + rest, ending) == Events(x, fs) + Translation(x, rest, ending)
  {
    hide Decoded;
    if fs == [] {
      assert Concat(fs) + rest == rest;
    } else {
      var f, s := fs[0], Concat(fs) + rest;
      DecodedHasItsLength(x, f);
      assert s == f + (Concat(fs[1..]) + rest);
      assert s[..4] == f[..4] && s[..|f|] == f && s[|f|..] == Concat(fs[1..]) + rest;
      TranslationAfterFrames(x, fs[1..], rest, ending);
    }
  }

  /**
    The whole output, for every body: the events of its decodable frames, and then, for the rest
    that does not begin with one, exactly the error that names what is wrong with it, or nothing
    at the end of a complete body.
   */
  lemma TranslationTable(x: Externals, s: Bytes, ending: Ending) returns (fs: seq<Bytes>, rest: Bytes)
    ensures AllDecode(x, fs) && s == Concat(fs) + rest
    ensures forall n :: 0 <= n <= |rest| ==> Decoded(x, rest[..n]).None?
    ensures var items, limit := Translation(x, s, ending), 16 + 128 * 1024 + 24 * 1024 * 1024;
            if |rest| < 4 || (16 <= FromBe32(rest[..4]) <= limit && |rest| < FromBe32(rest[..4])) then
              items == Events(x, fs) + match ending
                                       case ReadError(message) => [ReadFailed(message)]
                                       case EndOfInput => if rest == [] then [] else [Truncated]
            else if !(16 <= FromBe32(rest[..4]) <= limit) then items == Events(x, fs) + [InvalidLength]
            else items == Events(x, fs) + [InvalidFrame]
  {
    hide Decoded, Translation, Events;
    fs, rest := Split(x, s);
    TranslationAfterFrames(x, fs, rest, ending);
    StopsAt(x, rest, ending);
    if |rest| >= 4 && FromBe32(rest[..4]) <= |rest| {
      assert Decoded(x, rest[..FromBe32(rest[..4])]).None?;
    }
  }

  /** Every body is some decodable frames and a rest that does not begin with one. */
  lemma {:induction false} Split(x: Externals, s: Bytes) returns (fs: seq<Bytes>, rest: Bytes)
    ensures AllDecode(x, fs) && s == Concat(fs) + rest
    ensures forall n :: 0 <= n <= |rest| ==> Decoded(x, rest[..n]).None?
    decreases |s|
  {
    hide Decoded;
    if n :| 0 <= n <= |s| && Decoded(x, s[..n]).Some? {
      DecodedHasItsLength(x, s[..n]);
      fs, rest := Split(x, s[n..]);
      fs := [s[..n]] + fs;
      assert s == s[..n] + s[n..];
      assert Concat(fs) + rest == s[..n] + (Concat(fs[1..]) + rest);
    } else {
      fs, rest := [], s;
    }
  }

  /** Only such bodies come out without an error. */
  lemma {:induction false} CleanTranslationSplits(x: Externals, s: Bytes) returns (fs: seq<Bytes>)
    requires forall item :: item in Translation(x, s, EndOfInput) ==> item.Event?
    ensures AllDecode(x, fs) && Concat(fs) == s
    decreases |s|
  {
    hide Decoded;
    var items := Translation(x, s, EndOfInput);
    if s == [] {
      fs := [];
    } else {
      assert items[0].Event?;
      var n := FromBe32(s[..4]);
      var rest := Translation(x, s[n..], EndOfInput);
      assert items == [items[0]] + rest;
      fs := CleanTranslationSplits(x, s[n..]);
      fs := [s[..n]] + fs;
      assert s == s[..n] + s[n..];
    }
  }

  /** No error item comes out exactly when the body is a concatenation of decodable frames. */
  lemma CleanIffFrames(x: Externals, s: Bytes)
    ensures (forall item :: item in Translation(x, s, EndOfInput) ==> item.Event?)
       <==> (exists fs :: AllDecode(x, fs) && Concat(fs) == s)
  {
    if forall item :: item in Translation(x, s, EndOfInput) ==> item.Event? {
      var fs := CleanTranslationSplits(x, s);
    }
    forall fs | AllDecode(x, fs) && Concat(fs) == s
      ensures forall item :: item in Translation(x, s, EndOfInput) ==> item.Event?
    {
      TranslationOfFrames(x, fs);
      EventsOnly(x, fs);
    }
  }

  lemma {:induction false} EventsOnly(x: Externals, fs: seq<Bytes>)
    requires AllDecode(x, fs)
    ensures |Events(x, fs)| == |fs|
    ensures forall i :: 0 <= i < |fs| ==> Events(x, fs)[i] == Event(Decoded(x, fs[i]).value)
  {
    hide Decoded;
    if fs != [] {
      EventsOnly(x, fs[1..]);
    }
  }

  // --- End to end ---------------------------------------------------------------------------------------------

  /** A message to be sent: its headers and its payload. */
  datatype Sent = Sent(headers: seq<Header>, payload: Bytes)

  /** The message can be framed and has an event. */
  ghost predicate Sendable(x: Externals, m: Sent) {
    && BlockOk(x.utf8, m.headers)
    && Fits(EncodeHeaders(m.headers), m.payload)
    && Render(x, SpecialMap(m.headers), m.payload).Some?
  }

  ghost predicate AllSendable(x: Externals, ms: seq<Sent>) {
    forall m :: m in ms ==> Sendable(x, m)
  }

  ghost function FrameOf(x: Externals, m: Sent): Bytes
    requires Sendable(x, m)
  {
    Frame(x.crc, EncodeHeaders(m.headers), m.payload)
  }

  ghost function EventOf(x: Externals, m: Sent): Item
    requires Sendable(x, m)
  {
    Event(Render(x, SpecialMap(m.headers), m.payload).value)
  }

  ghost function Framed(x: Externals, ms: seq<Sent>): seq<Bytes>
    requires AllSendable(x, ms)
  {
    if ms == [] then [] else [FrameOf(x, ms[0])] + Framed(x, ms[1..])
  }

  ghost function EventsOf(x: Externals, ms: seq<Sent>): seq<Item>
    requires AllSendable(x, ms)
  {
    if ms == [] then [] else [EventOf(x, ms[0])] + EventsOf(x, ms[1..])
  }

  lemma FrameDecodesToEvent(x: Externals, m: Sent)
    requires Sendable(x, m)
    ensures Decoded(x, FrameOf(x, m)).Some? && Event(Decoded(x, FrameOf(x, m)).value) == EventOf(x, m)
  {
    hide Render, Frame;
    DecodedOfFramed(x, m.headers, m.payload);
  }

  lemma {:induction false} FramedDecodes(x: Externals, ms: seq<Sent>)
    requires AllSendable(x, ms)
    ensures AllDecode(x, Framed(x, ms)) && Events(x, Framed(x, ms)) == EventsOf(x, ms)
  {
    hide Decoded, FrameOf, EventOf, Sendable;
    if ms != [] {
      FrameDecodesToEvent(x, ms[0]);
      FramedDecodes(x, ms[1..]);
      assert Framed(x, ms)[1..] == Framed(x, ms[1..]);
    }
  }

  lemma MessagesTranslate(x: Externals, ms: seq<Sent>)
    requires AllSendable(x, ms)
    ensures Translation(x, Concat(Framed(x, ms)), EndOfInput) == EventsOf(x, ms)
  {
    FramedDecodes(x, ms);
    TranslationOfFrames(x, Framed(x, ms));
  }

  /**
    Messages survive the whole path: header encoding, framing, cutting into chunks of any size,
    and translation give back each message's own event, in order, and nothing else.
   */
  method TranslateMessages(x: Externals, ghost ms: seq<Sent>, chunks: seq<Bytes>) returns (items: seq<Item>)
    requires AllSendable(x, ms) && Concat(chunks) == Concat(Framed(x, ms))
    ensures items == EventsOf(x, ms)
  {
    items := Translate(x, chunks, EndOfInput);
    MessagesTranslate(x, ms);
  }
}
