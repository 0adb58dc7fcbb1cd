/**
  Event-stream messages as they travel: prelude, header block, payload and two checksums.

  The checksum, the text encoding, and the JSON and Base64 layers of the payload are parameters;
  every result holds for any choice of them.
 */
module EventStreamFrames {
  import opened Wrappers
  import opened Bytes
  import opened EventStreamHeaders
  import ExceptionNames

  const MAX_PAYLOAD_BYTES: nat := 24 * 1024 * 1024
  const MAX_HEADERS_BYTES: nat := 128 * 1024
  const MAX_FRAME_BYTES: nat := 16 + MAX_HEADERS_BYTES + MAX_PAYLOAD_BYTES

  datatype Externals = Externals(
    crc: Bytes -> Word32,
    utf8: Bytes -> bool,
    chars: Bytes -> string,             // the characters of a text
    chunkEvent: Bytes -> Option<Bytes>, // the payload of a chunk, unwrapped and rendered as an event
    errorEvent: string -> Bytes         // the error event for a normalised exception type
  )

  // --- The framing function and its inverse ------------------------------------------------------

  /** What the limits say: the payload is bounded only through the length of the whole frame. */
  predicate Fits(headers: Bytes, payload: Bytes) {
    |headers| <= MAX_HEADERS_BYTES && 16 + |headers| + |payload| <= MAX_FRAME_BYTES
  }

  function Frame(crc: Bytes -> Word32, headers: Bytes, payload: Bytes): (f: Bytes)
    requires Fits(headers, payload)
    ensures |f| == 16 + |headers| + |payload| && f[..4] == Be32(|f|)
  {
    var prelude := Be32(16 + |headers| + |payload|) + Be32(|headers|);
    var body := prelude + Be32(crc(prelude)) + headers + payload;
    body + Be32(crc(body))
  }

  /** The layout: both lengths, the checksum of those eight bytes, the content, and the checksum of all before it. */
  lemma FrameLayout(crc: Bytes -> Word32, headers: Bytes, payload: Bytes)
    requires Fits(headers, payload)
    ensures var f := Frame(crc, headers, payload);
            var end := |f| - 4;
            && f[0..4] == Be32(|f|) && f[4..8] == Be32(|headers|) && f[8..12] == Be32(crc(f[..8]))
            && f[12..12 + |headers|] == headers && f[12 + |headers|..end] == payload
            && f[end..] == Be32(crc(f[..end]))
  {
    var prelude := Be32(16 + |headers| + |payload|) + Be32(|headers|);
    var f := Frame(crc, headers, payload);
    assert f[..8] == prelude;
    assert f[..|f| - 4] == prelude + Be32(crc(prelude)) + headers + payload;
  }

  /** The length and checksum stage: the header block and payload of an intact frame. */
  function OpenFrame(crc: Bytes -> Word32, frame: Bytes): Option<(Bytes, Bytes)> {
    if |frame| < 16 then None else
      var totalLength := FromBe32(frame[0..4]);
      var headersLength := FromBe32(frame[4..8]);
      if || totalLength != |frame| || totalLength > MAX_FRAME_BYTES
         || headersLength > MAX_HEADERS_BYTES || headersLength > totalLength - 16 then None
      else
        var expectedPrelude := FromBe32(frame[8..12]);
        var expectedMessage := FromBe32(frame[totalLength - 4..]);
        if crc(frame[..8]) != expectedPrelude || crc(frame[..totalLength - 4]) != expectedMessage then None
        else Some((frame[12..12 + headersLength], frame[12 + headersLength..totalLength - 4]))
  }

  /** Opening a frame gives back what was framed. */
  lemma OpenFramed(crc: Bytes -> Word32, headers: Bytes, payload: Bytes)
    requires Fits(headers, payload)
    ensures OpenFrame(crc, Frame(crc, headers, payload)) == Some((headers, payload))
  {
    var total, h := Be32(16 + |headers| + |payload|), Be32(|headers|);
    var prelude := total + h;
    var preludeCrc := Be32(crc(prelude));
    var body := prelude + preludeCrc + headers + payload;
    var f := Frame(crc, headers, payload);
    var n := |f|;
    assert f[0..4] == total;
    assert f[4..8] == h;
    assert f[..8] == prelude;
    assert f[8..12] == preludeCrc;
    assert f[..n - 4] == body;
    assert f[n - 4..] == Be32(crc(body));
    assert f[12..12 + |headers|] == headers;
    assert f[12 + |headers|..n - 4] == payload;
  }

  /** Only framed messages open. */
  lemma OpenedWasFramed(crc: Bytes -> Word32, frame: Bytes, headers: Bytes, payload: Bytes)
    requires OpenFrame(crc, frame) == Some((headers, payload))
    ensures Fits(headers, payload) && frame == Frame(crc, headers, payload)
  {
    var n := |frame|;
    Be32OfFrom(frame[0..4]);
    Be32OfFrom(frame[4..8]);
    Be32OfFrom(frame[8..12]);
    Be32OfFrom(frame[n - 4..]);
    assert frame[..8] == frame[0..4] + frame[4..8];
    assert frame[..n - 4] == frame[..8] + frame[8..12] + headers + payload;
    assert frame == frame[..n - 4] + frame[n - 4..];
  }

  /** The stage accepts exactly the images of the framing function within the limits. */
  lemma OpenFrameExact(crc: Bytes -> Word32, frame: Bytes, headers: Bytes, payload: Bytes)
    ensures OpenFrame(crc, frame) == Some((headers, payload))
       <==> Fits(headers, payload) && frame == Frame(crc, headers, payload)
  {
    if Fits(headers, payload) && frame == Frame(crc, headers, payload) {
      OpenFramed(crc, headers, payload);
    }
    if OpenFrame(crc, frame) == Some((headers, payload)) {
      OpenedWasFramed(crc, frame, headers, payload);
    }
  }

  // --- Concatenated frames -----------------------------------------------------------------------------

  datatype Message = Message(headers: Bytes, payload: Bytes)

  ghost predicate AllFit(ms: seq<Message>) {
    forall m :: m in ms ==> Fits(m.headers, m.payload)
  }

  function Frames(crc: Bytes -> Word32, ms: seq<Message>): Bytes
    requires AllFit(ms)
  {
    if ms == [] then [] else Frame(crc, ms[0].headers, ms[0].payload) + Frames(crc, ms[1..])
  }

  /** A concatenation of frames splits back into frames in only one way. */
  lemma {:induction false} FramesInjective(crc: Bytes -> Word32, ms: seq<Message>, ns: seq<Message>)
    requires AllFit(ms) && AllFit(ns) && Frames(crc, ms) == Frames(crc, ns)
    ensures ms == ns
  {
    hide Frame;
    if ms == [] || ns == [] {
      assert ms == ns;
    } else {
      var s := Frames(crc, ms);
      var f, g := Frame(crc, ms[0].headers, ms[0].payload), Frame(crc, ns[0].headers, ns[0].payload);
      assert s[..4] == f[..4] == g[..4];
      assert f == s[..|f|] == g;
      OpenFramed(crc, ms[0].headers, ms[0].payload);
      OpenFramed(crc, ns[0].headers, ns[0].payload);
      assert Frames(crc, ms[1..]) == s[|f|..] == Frames(crc, ns[1..]);
      FramesInjective(crc, ms[1..], ns[1..]);
    }
  }

  // --- From a frame to the event it carries -------------------------------------------------------------

  /** The bytes of an ASCII text. */
  function AsciiBytes(s: string): (b: Bytes)
    ensures |b| == |s|
    ensures forall i :: 0 <= i < |s| && s[i] as int < 0x80 ==> b[i] == s[i] as int
  {
    seq(|s|, i requires 0 <= i < |s| => s[i] as int % 0x100)
  }

  function Lookup(headers: map<Name, Sized>, name: string): Option<Bytes> {
    var key := AsciiBytes(name);
    if key in headers then Some(headers[key]) else None
  }

  function OrElse(first: Option<Bytes>, second: Option<Bytes>): Option<Bytes> {
    if first.Some? then first else second
  }

  /** What a message with these special headers and this payload is turned into. */
  function Render(x: Externals, headers: map<Name, Sized>, payload: Bytes): Option<Bytes> {
    var messageType := Lookup(headers, ":message-type");
    var eventType := Lookup(headers, ":event-type");
    if messageType.None? then None
    else if messageType.value == AsciiBytes("exception") || messageType.value == AsciiBytes("error") then
      var code := OrElse(eventType, OrElse(Lookup(headers, ":exception-type"), Lookup(headers, ":error-code")));
      if code.None? then None
      else Some(x.errorEvent("bedrock_" + ExceptionNames.Normalized(x.chars(code.value))))
    else if eventType.None? || messageType.value != AsciiBytes("event") || eventType.value != AsciiBytes("chunk") then
      None
    else x.chunkEvent(payload)
  }

  /** A frame holds a message when its header block is a block of the grammar. */
  ghost predicate Carries(x: Externals, frame: Bytes, hs: seq<Header>, payload: Bytes) {
    && BlockOk(x.utf8, hs)
    && Fits(EncodeHeaders(hs), payload)
    && frame == Frame(x.crc, EncodeHeaders(hs), payload)
  }

  /** The event of the one message a frame carries; none when it carries no message. */
  ghost function Decoded(x: Externals, frame: Bytes): Option<Bytes> {
    if hs, payload :| Carries(x, frame, hs, payload) then Render(x, SpecialMap(hs), payload) else None
  }

  /** A frame carries at most one message. */
  lemma CarriesUnique(x: Externals, frame: Bytes, hs: seq<Header>, p: Bytes, ks: seq<Header>, q: Bytes)
    requires Carries(x, frame, hs, p) && Carries(x, frame, ks, q)
    ensures hs == ks && p == q
  {
    OpenFramed(x.crc, EncodeHeaders(hs), p);
    OpenFramed(x.crc, EncodeHeaders(ks), q);
    EncodeHeadersInjective(hs, ks);
  }

  /** The round trip: a framed message decodes to its own event. */
  lemma DecodedOfFramed(x: Externals, hs: seq<Header>, payload: Bytes)
    requires BlockOk(x.utf8, hs) && Fits(EncodeHeaders(hs), payload)
    ensures Decoded(x, Frame(x.crc, EncodeHeaders(hs), payload)) == Render(x, SpecialMap(hs), payload)
  {
    var frame := Frame(x.crc, EncodeHeaders(hs), payload);
    assert Carries(x, frame, hs, payload);
    forall ks, q | Carries(x, frame, ks, q) ensures ks == hs && q == payload {
      CarriesUnique(x, frame, hs, payload, ks, q);
    }
  }

  // --- Which event a message has ----------------------------------------------------------------------

  /** One of the headers has this name and this text. */
  ghost predicate Has(hs: seq<Header>, name: string, text: string)
    requires 0 < |name| < 0x100 && |text| < 0x1_0000
  {
    Header(AsciiBytes(name), Text(AsciiBytes(text))) in hs
  }

  /** One of the headers has this name. */
  ghost predicate Named(hs: seq<Header>, name: string) {
    exists h :: h in hs && h.name == AsciiBytes(name)
  }

  /** `code` is the text of the first of the three code headers that the message has. */
  ghost predicate CodeIs(hs: seq<Header>, code: Sized) {
    || Header(AsciiBytes(":event-type"), Text(code)) in hs
    || (!Named(hs, ":event-type") && Header(AsciiBytes(":exception-type"), Text(code)) in hs)
    || (!Named(hs, ":event-type") && !Named(hs, ":exception-type")
        && Header(AsciiBytes(":error-code"), Text(code)) in hs)
  }

  ghost predicate NoCode(hs: seq<Header>) {
    !Named(hs, ":event-type") && !Named(hs, ":exception-type") && !Named(hs, ":error-code")
  }

  ghost predicate IsException(hs: seq<Header>) {
    Has(hs, ":message-type", "exception") || Has(hs, ":message-type", "error")
  }

  ghost predicate IsChunk(hs: seq<Header>) {
    Has(hs, ":message-type", "event") && Has(hs, ":event-type", "chunk")
  }

  lemma LookupFinds(hs: seq<Header>, name: string, text: Sized)
    requires SpecialsOk(hs) && 0 < |name| < 0x100 && name[0] == ':'
    ensures Lookup(SpecialMap(hs), name) == Some(text) <==> Header(AsciiBytes(name), Text(text)) in hs
    ensures Lookup(SpecialMap(hs), name).None? <==> !Named(hs, name)
  {
    var key := AsciiBytes(name);
    if h :| h in hs && h.name == key {
      assert Special(h);
    }
    if Header(key, Text(text)) in hs {
      assert Special(Header(key, Text(text)));
    }
  }

  lemma DifferentWords()
    ensures AsciiBytes("exception") != AsciiBytes("event") && AsciiBytes("error") != AsciiBytes("event")
  {
    assert |AsciiBytes("exception")| != |AsciiBytes("event")|;
    assert AsciiBytes("error")[1] == 0x72 && AsciiBytes("event")[1] == 0x76;
  }

  lemma RenderTable(x: Externals, hs: seq<Header>, payload: Bytes)
    requires SpecialsOk(hs)
    ensures forall code: Sized :: IsException(hs) && CodeIs(hs, code) ==>
              Render(x, SpecialMap(hs), payload)
              == Some(x.errorEvent("bedrock_" + ExceptionNames.Normalized(x.chars(code))))
    ensures IsException(hs) && NoCode(hs) ==> Render(x, SpecialMap(hs), payload) == None
    ensures IsChunk(hs) ==> Render(x, SpecialMap(hs), payload) == x.chunkEvent(payload)
    ensures !IsException(hs) && !IsChunk(hs) ==> Render(x, SpecialMap(hs), payload) == None
  {
    hide Lookup, AsciiBytes, Named, SpecialMap;
    DifferentWords();
    forall text: Sized { LookupFinds(hs, ":message-type", text); }
    forall text: Sized { LookupFinds(hs, ":event-type", text); }
    forall text: Sized { LookupFinds(hs, ":exception-type", text); }
    forall text: Sized { LookupFinds(hs, ":error-code", text); }
  }

  /**
    The events, exactly: an exception or error message becomes the error event of its code, which
    the first of `:event-type`, `:exception-type` and `:error-code` gives; a chunk event becomes
    what its payload unwraps to; and a frame with any other headers is refused.
   */
  lemma EventTable(x: Externals, hs: seq<Header>, payload: Bytes)
    requires BlockOk(x.utf8, hs) && Fits(EncodeHeaders(hs), payload)
    ensures var r := Decoded(x, Frame(x.crc, EncodeHeaders(hs), payload));
            && (forall code: Sized :: IsException(hs) && CodeIs(hs, code) ==>
                  r == Some(x.errorEvent("bedrock_" + ExceptionNames.Normalized(x.chars(code)))))
            && (IsException(hs) && NoCode(hs) ==> r == None)
            && (IsChunk(hs) ==> r == x.chunkEvent(payload))
            && (!IsException(hs) && !IsChunk(hs) ==> r == None)
  {
    hide Decoded, Render, IsException, IsChunk, CodeIs, NoCode;
    DecodedOfFramed(x, hs, payload);
    RenderTable(x, hs, payload);
  }

  method DecodeFrame(x: Externals, frame: Bytes) returns (r: Option<Bytes>)
    ensures r == Decoded(x, frame)
  {
    hide OpenFrame, Frame, Render;
    var content := OpenFrame(x.crc, frame);
    forall hs, payload | Carries(x, frame, hs, payload) ensures content == Some((EncodeHeaders(hs), payload)) {
      OpenFrameExact(x.crc, frame, EncodeHeaders(hs), payload);
    }
    if content.None? {
      return None;
    }
    var (block, payload) := content.value;
    OpenFrameExact(x.crc, frame, block, payload);
    var headers := DecodeHeaders(x.utf8, block);
    if headers.None? {
      return None;
    }
    ghost var hs :| BlockOk(x.utf8, hs) && EncodeHeaders(hs) == block;
    DecodedOfFramed(x, hs, payload);
    r := Render(x, headers.value, payload);
  }
}
