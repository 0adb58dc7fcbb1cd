/**
  The header block of an Amazon event-stream message: the grammar of its ten value types, and
  the cursor-driven decoder that accepts exactly that grammar.

  A Rust `&str` is the byte sequence it borrows, so header text stays a byte sequence here.
  Which byte sequences are text is the parameter `utf8`; every result holds for any choice.
 */
module EventStreamHeaders {
  import opened Wrappers
  import opened Bytes

  // --- The grammar -------------------------------------------------------------------------

  type Raw1 = s: Bytes | |s| == 1 witness [0]
  type Raw2 = s: Bytes | |s| == 2 witness [0, 0]
  type Raw4 = s: Bytes | |s| == 4 witness [0, 0, 0, 0]
  type Raw8 = s: Bytes | |s| == 8 witness [0, 0, 0, 0, 0, 0, 0, 0]
  type Raw16 = s: Bytes | |s| == 16 witness [0, 0, 0, 0, 0, 0, 0, 0, 0, 0, 0, 0, 0, 0, 0, 0]

  /** Byte strings that fit the 16-bit length of a variable-size value. */
  type Sized = s: Bytes | |s| < 0x1_0000

  /** Header names: never empty, and short enough for the one-byte length. */
  type Name = s: Bytes | 0 < |s| < 0x100 witness [0]

  datatype Value =
    | BoolTrue
    | BoolFalse
    | Int8(int8: Raw1)
    | Int16(int16: Raw2)
    | Int32(int32: Raw4)
    | Int64(int64: Raw8)
    | ByteArray(content: Sized)
    | Text(text: Sized)
    | Timestamp(millis: Raw8)
    | Uuid(uuid: Raw16)

  datatype Header = Header(name: Name, value: Value)

  function EncodeValue(v: Value): Bytes {
    match v
    case BoolTrue => [0]
    case BoolFalse => [1]
    case Int8(raw) => [2] + raw
    case Int16(raw) => [3] + raw
    case Int32(raw) => [4] + raw
    case Int64(raw) => [5] + raw
    case ByteArray(raw) => [6] + Be16(|raw|) + raw
    case Text(raw) => [7] + Be16(|raw|) + raw
    case Timestamp(raw) => [8] + raw
    case Uuid(raw) => [9] + raw
  }

  function EncodeHeader(h: Header): (s: Bytes)
    ensures |s| > 0
  {
    [|h.name|] + h.name + EncodeValue(h.value)
  }

  function EncodeHeaders(hs: seq<Header>): Bytes {
    if hs == [] then [] else EncodeHeader(hs[0]) + EncodeHeaders(hs[1..])
  }

  const COLON: Byte := 0x3A

  /** The headers the decoder keeps: those whose name starts with `:`. */
  predicate Special(h: Header) {
    h.name[0] == COLON
  }

  /** Names and text values are text. */
  predicate TextOk(utf8: Bytes -> bool, h: Header) {
    utf8(h.name) && (h.value.Text? ==> utf8(h.value.text))
  }

  /** Special headers carry text and no two share a name. */
  ghost predicate SpecialsOk(hs: seq<Header>) {
    && (forall h :: h in hs && Special(h) ==> h.value.Text?)
    && (forall i, j :: 0 <= i < j < |hs| && Special(hs[i]) && Special(hs[j]) ==> hs[i].name != hs[j].name)
  }

  /** The header lists a message may carry. */
  ghost predicate BlockOk(utf8: Bytes -> bool, hs: seq<Header>) {
    (forall h :: h in hs ==> TextOk(utf8, h)) && SpecialsOk(hs)
  }

  /** The special headers of a block, as the name-to-text map the decoder returns. */
  ghost function SpecialMap(hs: seq<Header>): (m: map<Name, Sized>)
    requires SpecialsOk(hs)
    ensures forall h :: h in hs && Special(h) ==> h.name in m && m[h.name] == h.value.text
    ensures forall n :: n in m ==> Header(n, Text(m[n])) in hs && Special(Header(n, Text(m[n])))
  {
    if hs == [] then map[] else
      var front, h := hs[..|hs| - 1], hs[|hs| - 1];
      assert hs == front + [h];
      if Special(h) then SpecialMap(front)[h.name := h.value.text] else SpecialMap(front)
  }

  // --- One header at a cursor ----------------------------------------------------------------

  /** Type bytes whose values have a fixed size. */
  predicate FixedTag(tag: Byte) {
    tag <= 5 || tag == 8 || tag == 9
  }

  function Width(tag: Byte): nat
    requires FixedTag(tag)
  {
    if tag <= 1 then 0
    else if tag == 2 then 1
    else if tag == 3 then 2
    else if tag == 4 then 4
    else if tag == 9 then 16
    else 8
  }

  function FixedValue(tag: Byte, raw: Bytes): (v: Value)
    requires FixedTag(tag) && |raw| == Width(tag)
    ensures EncodeValue(v) == [tag] + raw
  {
    match tag
    case 0 => BoolTrue
    case 1 => BoolFalse
    case 2 => Int8(raw)
    case 3 => Int16(raw)
    case 4 => Int32(raw)
    case 5 => Int64(raw)
    case 8 => Timestamp(raw)
    case _ => Uuid(raw)
  }

  /** The fixed-size value whose type byte is at `at`, and the cursor after it. */
  function ReadFixed(s: Bytes, at: nat): (r: Option<(Value, nat)>)
    requires at < |s| && FixedTag(s[at])
    ensures r.Some? ==> at < r.value.1 <= |s| && s[at..r.value.1] == EncodeValue(r.value.0)
  {
    hide FixedValue, EncodeValue;
    var end := at + 1 + Width(s[at]);
    if end > |s| then None else
      var raw := s[at + 1..end];
      assert s[at..end] == [s[at]] + raw;
      Some((FixedValue(s[at], raw), end))
  }

  /** The byte string or text whose type byte is at `at`, and the cursor after it. */
  function ReadSized(s: Bytes, at: nat): (r: Option<(Value, nat)>)
    requires at < |s| && (s[at] == 6 || s[at] == 7)
    ensures r.Some? ==> at < r.value.1 <= |s| && s[at..r.value.1] == EncodeValue(r.value.0)
  {
    hide Be16;
    var start := at + 3;
    if start > |s| then None else
      var end := start + FromBe16(s[at + 1..start]);
      if end > |s| then None else
        var raw := s[start..end];
        assert s[at..end] == [s[at]] + s[at + 1..start] + raw;
        Be16OfFrom(s[at + 1..start]);
        Some((if s[at] == 6 then ByteArray(raw) else Text(raw), end))
  }

  /** The value whose type byte is at `at`, and the cursor after it. */
  function ReadValue(s: Bytes, at: nat): (r: Option<(Value, nat)>)
    requires at < |s|
    ensures r.Some? ==> at < r.value.1 <= |s| && s[at..r.value.1] == EncodeValue(r.value.0)
  {
    if FixedTag(s[at]) then ReadFixed(s, at)
    else if s[at] == 6 || s[at] == 7 then ReadSized(s, at)
    else None
  }

  /** The ten type bytes and the sizes of their values; only type 7 is text. */
  lemma ValueSizes(s: Bytes, at: nat)
    requires at < |s|
    ensures var sized := (s[at] == 6 || s[at] == 7) && at + 3 <= |s|;
            var size: int := match s[at]
                             case 0 => 0
                             case 1 => 0
                             case 2 => 1
                             case 3 => 2
                             case 4 => 4
                             case 5 => 8
                             case 8 => 8
                             case 9 => 16
                             case _ => if sized then 2 + FromBe16(s[at + 1..at + 3]) else |s|;
            && (ReadValue(s, at).Some? <==> at + 1 + size <= |s|)
            && (ReadValue(s, at).Some? ==>
                  && ReadValue(s, at).value.1 == at + 1 + size
                  && (ReadValue(s, at).value.0.Text? <==> s[at] == 7))
  {
    hide EncodeValue;
  }

  lemma HeadMiddleTail(s: Bytes, from: nat, mid: nat, to: nat)
    requires from < mid <= to <= |s|
    ensures s[from..to] == [s[from]] + s[from + 1..mid] + s[mid..to]
  {
  }

  /** The header that starts at `at`, and the cursor after it. */
  function ReadHeader(s: Bytes, at: nat): (r: Option<(Header, nat)>)
    requires at < |s|
    ensures r.Some? ==> at < r.value.1 <= |s| && s[at..r.value.1] == EncodeHeader(r.value.0)
  {
    hide ReadValue, EncodeValue;
    var length := s[at];
    if length == 0 || at + 1 + length + 1 > |s| then None else
      var name := s[at + 1..at + 1 + length];
      match ReadValue(s, at + 1 + length)
      case None => None
      case Some((value, next)) =>
        HeadMiddleTail(s, at, at + 1 + length, next);
        Some((Header(name, value), next))
  }

  lemma FixedReadBack(v: Value)
    requires !v.ByteArray? && !v.Text?
    ensures var e := EncodeValue(v);
            e != [] && FixedTag(e[0]) && |e| == 1 + Width(e[0]) && FixedValue(e[0], e[1..]) == v
  {
  }

  lemma ReadsWrittenFixed(s: Bytes, at: nat, v: Value)
    requires at <= |s| && EncodeValue(v) <= s[at..] && !v.ByteArray? && !v.Text?
    ensures at < |s| && ReadValue(s, at) == Some((v, at + |EncodeValue(v)|))
  {
    hide EncodeValue, FixedValue;
    FixedReadBack(v);
    var e := EncodeValue(v);
    var end := at + |e|;
    assert s[at..][0] == e[0] && s[at] == e[0];
    assert s[at + 1..end] == s[at..][1..|e|] == e[1..];
  }

  lemma ReadsWrittenSized(s: Bytes, at: nat, v: Value)
    requires at <= |s| && EncodeValue(v) <= s[at..] && (v.ByteArray? || v.Text?)
    ensures at < |s| && ReadValue(s, at) == Some((v, at + |EncodeValue(v)|))
  {
    hide Be16, FixedValue;
    var e := EncodeValue(v);
    var end := at + |e|;
    assert s[at..][0] == e[0] && s[at] == e[0];
    assert s[at + 1..at + 3] == s[at..][1..3] == e[1..3];
    assert s[at + 3..end] == s[at..][3..|e|] == e[3..];
  }

  /** Reading finds whatever value was written at the cursor. */
  lemma ReadsWrittenValue(s: Bytes, at: nat, v: Value)
    requires at <= |s| && EncodeValue(v) <= s[at..]
    ensures at < |s| && ReadValue(s, at) == Some((v, at + |EncodeValue(v)|))
  {
    hide EncodeValue, ReadValue;
    if v.ByteArray? || v.Text? {
      ReadsWrittenSized(s, at, v);
    } else {
      ReadsWrittenFixed(s, at, v);
    }
  }

  /** Reading finds whatever header was written at the cursor. */
  lemma ReadsWrittenHeader(s: Bytes, at: nat, h: Header)
    requires at <= |s| && EncodeHeader(h) <= s[at..]
    ensures at < |s| && ReadHeader(s, at) == Some((h, at + |EncodeHeader(h)|))
  {
    hide ReadValue, EncodeValue;
    var e := EncodeHeader(h);
    var n := |h.name|;
    var rest := s[at..];
    assert s[at] == rest[0] == e[0] == n;
    assert s[at + 1..at + 1 + n] == rest[1..1 + n] == e[1..1 + n] == h.name;
    assert s[at + 1 + n..] == rest[1 + n..];
    assert e[1 + n..] == EncodeValue(h.value);
    ReadsWrittenValue(s, at + 1 + n, h.value);
  }

  // --- Unambiguity -----------------------------------------------------------------------------

  lemma {:induction false} EncodeAppend(hs: seq<Header>, ks: seq<Header>)
    ensures EncodeHeaders(hs + ks) == EncodeHeaders(hs) + EncodeHeaders(ks)
  {
    if hs == [] {
      assert hs + ks == ks;
    } else {
      assert (hs + ks)[1..] == hs[1..] + ks;
      EncodeAppend(hs[1..], ks);
    }
  }

  lemma EncodeSnoc(hs: seq<Header>, h: Header)
    ensures EncodeHeaders(hs + [h]) == EncodeHeaders(hs) + EncodeHeader(h)
  {
    hide EncodeHeader;
    EncodeAppend(hs, [h]);
    assert EncodeHeaders([h]) == EncodeHeader(h) + EncodeHeaders([h][1..]) == EncodeHeader(h);
  }

  /** No header encoding is a proper prefix of another. */
  lemma HeadersPrefixFree(h: Header, k: Header, s: Bytes)
    requires EncodeHeader(h) <= s && EncodeHeader(k) <= s
    ensures h == k
  {
    assert s[0..] == s;
    ReadsWrittenHeader(s, 0, h);
    ReadsWrittenHeader(s, 0, k);
  }

  /** Two lists that agree as bytes as far as the shorter one goes agree as headers. */
  lemma {:induction false} PrefixUnique(read: seq<Header>, hs: seq<Header>)
    requires EncodeHeaders(read) <= EncodeHeaders(hs)
    ensures read <= hs
  {
    if read != [] {
      HeadersPrefixFree(read[0], hs[0], EncodeHeaders(hs));
      var n := |EncodeHeader(hs[0])|;
      assert EncodeHeaders(hs)[n..] == EncodeHeaders(hs[1..]);
      assert EncodeHeaders(read)[n..] == EncodeHeaders(read[1..]);
      PrefixUnique(read[1..], hs[1..]);
    }
  }

  /** A header block has at most one reading. */
  lemma EncodeHeadersInjective(hs: seq<Header>, ks: seq<Header>)
    requires EncodeHeaders(hs) == EncodeHeaders(ks)
    ensures hs == ks
  {
    PrefixUnique(hs, ks);
    PrefixUnique(ks, hs);
  }

  /** Every reading of the block continues what was read so far with the header at the cursor. */
  lemma NextHeaderForced(s: Bytes, at: nat, read: seq<Header>, hs: seq<Header>)
    requires at < |s| && EncodeHeaders(read) == s[..at] && EncodeHeaders(hs) == s
    ensures read < hs
    ensures ReadHeader(s, at).Some? && ReadHeader(s, at).value.0 == hs[|read|]
  {
    hide ReadHeader, EncodeHeader;
    PrefixUnique(read, hs);
    var rest := hs[|read|..];
    assert hs == read + rest;
    EncodeAppend(read, rest);
    assert s[at..] == EncodeHeaders(rest);
    ReadsWrittenHeader(s, at, rest[0]);
  }

  // --- The decoder ---------------------------------------------------------------------------------

  /** Nothing the grammar allows has these bytes. */
  ghost predicate NotABlock(utf8: Bytes -> bool, s: Bytes) {
    forall hs :: BlockOk(utf8, hs) ==> EncodeHeaders(hs) != s
  }

  /** What the decoder knows when its cursor stands between two headers. */
  ghost predicate ReadSoFar(utf8: Bytes -> bool, s: Bytes, at: nat, read: seq<Header>) {
    at <= |s| && BlockOk(utf8, read) && EncodeHeaders(read) == s[..at]
  }

  /** The header at the cursor can be read, is text where it must be, and keeps the specials apart. */
  ghost predicate HeaderFits(utf8: Bytes -> bool, s: Bytes, at: nat, read: seq<Header>)
    requires at < |s|
  {
    && ReadHeader(s, at).Some?
    && var h := ReadHeader(s, at).value.0;
       TextOk(utf8, h) && SpecialsOk(read + [h])
  }

  lemma NextHeaderFits(utf8: Bytes -> bool, s: Bytes, at: nat, read: seq<Header>, hs: seq<Header>)
    requires at < |s| && ReadSoFar(utf8, s, at, read)
    requires BlockOk(utf8, hs) && EncodeHeaders(hs) == s
    ensures HeaderFits(utf8, s, at, read)
  {
    hide ReadHeader, EncodeHeaders;
    NextHeaderForced(s, at, read, hs);
    var n := |read|;
    assert read + [hs[n]] == hs[..n + 1];
    assert forall h :: h in hs[..n + 1] ==> h in hs;
  }

  lemma MisfitRefused(utf8: Bytes -> bool, s: Bytes, at: nat, read: seq<Header>)
    requires at < |s| && ReadSoFar(utf8, s, at, read) && !HeaderFits(utf8, s, at, read)
    ensures NotABlock(utf8, s)
  {
    forall hs | BlockOk(utf8, hs) ensures EncodeHeaders(hs) != s {
      if EncodeHeaders(hs) == s {
        NextHeaderFits(utf8, s, at, read, hs);
      }
    }
  }

  lemma FittingExtends(utf8: Bytes -> bool, s: Bytes, at: nat, read: seq<Header>)
    requires at < |s| && ReadSoFar(utf8, s, at, read) && HeaderFits(utf8, s, at, read)
    ensures var (h, next) := ReadHeader(s, at).value;
            ReadSoFar(utf8, s, next, read + [h])
  {
    hide ReadHeader, EncodeHeader, EncodeHeaders;
    var (h, next) := ReadHeader(s, at).value;
    EncodeSnoc(read, h);
    assert s[..next] == s[..at] + s[at..next];
  }

  /** What the value and duplicate tests decide when one more header is read. */
  lemma SpecialsOkSnoc(read: seq<Header>, h: Header)
    requires SpecialsOk(read)
    ensures SpecialsOk(read + [h]) <==> (Special(h) ==> h.value.Text? && h.name !in SpecialMap(read))
    ensures SpecialsOk(read + [h]) ==>
              SpecialMap(read + [h])
              == if Special(h) then SpecialMap(read)[h.name := h.value.text] else SpecialMap(read)
  {
    var hs := read + [h];
    assert hs[..|read|] == read && hs[|read|] == h;
    if Special(h) && h.name in SpecialMap(read) {
      var earlier := Header(h.name, Text(SpecialMap(read)[h.name]));
      var i :| 0 <= i < |read| && read[i] == earlier;
      assert hs[i] == earlier;
    }
  }

  /** Advances the cursor over `length` bytes, or reports that the block is too short. */
  method SkipBytes(encoded: Bytes, cursor: nat, length: nat) returns (ok: bool, next: nat)
    ensures ok <==> cursor + length <= |encoded|
    ensures next == if ok then cursor + length else cursor
  {
    ok := cursor + length <= |encoded|;
    next := if ok then cursor + length else cursor;
  }

  /** The type byte at the cursor and what follows it; only text values are kept. */
  method DecodeValue(utf8: Bytes -> bool, encoded: Bytes, at: nat)
    returns (ok: bool, value: Option<Sized>, cursor: nat)
    requires at < |encoded|
    ensures ok <==> ReadValue(encoded, at).Some? && var v := ReadValue(encoded, at).value.0; v.Text? ==> utf8(v.text)
    ensures ok ==> var (v, next) := ReadValue(encoded, at).value;
                   cursor == next && value == if v.Text? then Some(v.text) else None
  {
    hide EncodeValue, Be16;
    var valueType := encoded[at];
    cursor := at + 1;
    ok, value := true, None;
    match valueType {
      case 0 =>
      case 1 =>
      case 2 => ok, cursor := SkipBytes(encoded, cursor, 1);
      case 3 => ok, cursor := SkipBytes(encoded, cursor, 2);
      case 4 => ok, cursor := SkipBytes(encoded, cursor, 4);
      case 5 => ok, cursor := SkipBytes(encoded, cursor, 8);
      case 8 => ok, cursor := SkipBytes(encoded, cursor, 8);
      case 9 => ok, cursor := SkipBytes(encoded, cursor, 16);
      case _ =>
        if (valueType != 6 && valueType != 7) || cursor + 2 > |encoded| {
          ok := false;
          return;
        }
        var valueLength := FromBe16(encoded[cursor..cursor + 2]);
        cursor := cursor + 2;
        if cursor + valueLength > |encoded| {
          ok := false;
          return;
        }
        if valueType == 7 {
          ok := utf8(encoded[cursor..cursor + valueLength]);
          value := Some(encoded[cursor..cursor + valueLength]);
        }
        cursor := cursor + valueLength;
    }
  }

  /** One turn of the decoder's loop up to the special-name tests. */
  method DecodeHeader(utf8: Bytes -> bool, encoded: Bytes, at: nat)
    returns (ok: bool, name: Name, value: Option<Sized>, cursor: nat)
    requires at < |encoded|
    ensures ok <==> ReadHeader(encoded, at).Some? && TextOk(utf8, ReadHeader(encoded, at).value.0)
    ensures ok ==> var (h, next) := ReadHeader(encoded, at).value;
                   cursor == next && name == h.name && value == if h.value.Text? then Some(h.value.text) else None
  {
    hide ReadValue, EncodeHeader, EncodeValue;
    var nameLength := encoded[at];
    cursor, value, name := at + 1, None, [0];
    if nameLength == 0 || cursor + nameLength + 1 > |encoded| {
      ok := false;
      return;
    }
    name := encoded[cursor..cursor + nameLength];
    cursor := cursor + nameLength;
    ok, value, cursor := DecodeValue(utf8, encoded, cursor);
    ok := ok && utf8(name);
  }

  /**
    Decodes a header block: it succeeds exactly on the encodings of the grammar, and then
    returns the special headers of the one list the bytes encode.
   */
  method DecodeHeaders(utf8: Bytes -> bool, encoded: Bytes) returns (r: Option<map<Name, Sized>>)
    ensures r.None? ==> NotABlock(utf8, encoded)
    ensures r.Some? ==> exists hs :: BlockOk(utf8, hs) && EncodeHeaders(hs) == encoded
    ensures forall hs :: BlockOk(utf8, hs) && EncodeHeaders(hs) == encoded ==> r == Some(SpecialMap(hs))
  {
    hide ReadHeader;
    var headers: map<Name, Sized> := map[];
    var cursor := 0;
    ghost var read: seq<Header> := [];
    while cursor < |encoded|
      invariant ReadSoFar(utf8, encoded, cursor, read)
      invariant headers == SpecialMap(read)
      decreases |encoded| - cursor
    {
      var ok, name, value, next := DecodeHeader(utf8, encoded, cursor);
      if !ok {
        MisfitRefused(utf8, encoded, cursor, read);
        return None;
      }
      ghost var header := ReadHeader(encoded, cursor).value.0;
      SpecialsOkSnoc(read, header);
      if name[0] == COLON {
        if value.None? || name in headers {
          MisfitRefused(utf8, encoded, cursor, read);
          return None;
        }
        headers := headers[name := value.value];
      }
      FittingExtends(utf8, encoded, cursor, read);
      read, cursor := read + [header], next;
    }
    WholeBlockRead(utf8, encoded, read);
    r := Some(headers);
  }

  lemma WholeBlockRead(utf8: Bytes -> bool, s: Bytes, read: seq<Header>)
    requires ReadSoFar(utf8, s, |s|, read)
    ensures EncodeHeaders(read) == s
    ensures forall hs :: EncodeHeaders(hs) == s ==> hs == read
  {
    assert s[..|s|] == s;
    forall hs | EncodeHeaders(hs) == s ensures hs == read {
      EncodeHeadersInjective(hs, read);
    }
  }
}
