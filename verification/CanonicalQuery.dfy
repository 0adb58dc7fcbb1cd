/**
  The canonical query string that request signing hashes. Two lists of decoded query pairs give
  the same string exactly when they hold the same pairs the same number of times.
 */
module CanonicalQuery {
  import opened Bytes
  import opened Ordering

  type QueryPair = (Bytes, Bytes)

  // --- Percent-encoding ----------------------------------------------------------------------

  /** The unreserved set of section 2.3 of RFC 3986. */
  predicate Unreserved(c: char) {
    'a' <= c <= 'z' || 'A' <= c <= 'Z' || '0' <= c <= '9' || c in "-_.~"
  }

  predicate HexDigit(c: char) {
    '0' <= c <= '9' || 'A' <= c <= 'F'
  }

  function ToHex(d: int): (c: char)
    requires 0 <= d < 16
    ensures HexDigit(c) && FromHex(c) == d
  {
    "0123456789ABCDEF"[d]
  }

  function FromHex(c: char): (d: int)
    requires HexDigit(c)
    ensures 0 <= d < 16
  {
    if c <= '9' then (c - '0') as int else (c - 'A') as int + 10
  }

  function EncodeByte(b: Byte): (s: string)
    ensures s != ""
  {
    if Unreserved(b as char) then [b as char] else ['%', ToHex(b / 16), ToHex(b % 16)]
  }

  function Encoded(value: Bytes): string {
    if value == [] then "" else EncodeByte(value[0]) + Encoded(value[1..])
  }

  method AwsEncode(value: Bytes) returns (encoded: string)
    ensures encoded == Encoded(value)
  {
    encoded := "";
    for i := 0 to |value|
      invariant Encoded(value) == encoded + Encoded(value[i..])
    {
      var byte := value[i];
      assert value[i..][0] == byte && value[i..][1..] == value[i + 1..];
      assert Encoded(value[i..]) == EncodeByte(byte) + Encoded(value[i + 1..]);
      assert encoded + (EncodeByte(byte) + Encoded(value[i + 1..]))
          == encoded + EncodeByte(byte) + Encoded(value[i + 1..]);
      if Unreserved(byte as char) {
        encoded := encoded + [byte as char];
      } else {
        encoded := encoded + ['%', ToHex(byte / 16), ToHex(byte % 16)];
      }
    }
    assert encoded + "" == encoded;
  }

  /** Texts made of unreserved characters and `%XX` escapes only. */
  predicate PercentEncoded(s: string) {
    || s == ""
    || (Unreserved(s[0]) && PercentEncoded(s[1..]))
    || (|s| >= 3 && s[0] == '%' && HexDigit(s[1]) && HexDigit(s[2]) && PercentEncoded(s[3..]))
  }

  /** The bytes a percent-encoded text stands for. */
  function PercentDecoded(s: string): Bytes
    requires PercentEncoded(s)
  {
    if s == "" then []
    else if s[0] == '%' then [16 * FromHex(s[1]) + FromHex(s[2])] + PercentDecoded(s[3..])
    else [s[0] as int] + PercentDecoded(s[1..])
  }

  /** Encoding emits only the unreserved set and escapes, and decoding inverts it. */
  lemma {:induction false} EncodedReadsBack(value: Bytes)
    ensures PercentEncoded(Encoded(value)) && PercentDecoded(Encoded(value)) == value
  {
    if value != [] {
      var head, tail := EncodeByte(value[0]), Encoded(value[1..]);
      EncodedReadsBack(value[1..]);
      var s := head + tail;
      assert s[|head|..] == tail;
      assert value == [value[0]] + value[1..];
      if Unreserved(value[0] as char) {
        assert s[0] == value[0] as char && s[1..] == tail;
      } else {
        assert s[3..] == tail && 16 * FromHex(s[1]) + FromHex(s[2]) == value[0];
      }
    }
  }

  /** A byte of the unreserved set stands for itself; any other becomes `%` and two hexadecimal digits. */
  lemma ByteEncoding(b: Byte)
    ensures var plain := 0x30 <= b <= 0x39 || 0x41 <= b <= 0x5A || 0x61 <= b <= 0x7A || b in {0x2D, 0x2E, 0x5F, 0x7E};
            var e := Encoded([b]);
            e == if plain then [b as char] else ['%', "0123456789ABCDEF"[b / 16], "0123456789ABCDEF"[b % 16]]
  {
    assert Encoded([b]) == EncodeByte(b) + Encoded([b][1..]) == EncodeByte(b);
  }

  /** Bytes are encoded one by one. */
  lemma EncodedByteByByte(b: Byte, value: Bytes)
    ensures Encoded([]) == "" && Encoded([b] + value) == Encoded([b]) + Encoded(value)
  {
    hide EncodeByte;
    assert ([b] + value)[1..] == value;
    assert Encoded([b]) == EncodeByte(b) + Encoded([b][1..]) == EncodeByte(b);
  }

  lemma EncodedInjective(a: Bytes, b: Bytes)
    requires Encoded(a) == Encoded(b)
    ensures a == b
  {
    EncodedReadsBack(a);
    EncodedReadsBack(b);
  }

  lemma {:induction false} NoSeparators(s: string)
    requires PercentEncoded(s)
    ensures '=' !in s && '&' !in s
  {
    if s != "" {
      if Unreserved(s[0]) {
        NoSeparators(s[1..]);
        assert s == [s[0]] + s[1..];
      } else {
        NoSeparators(s[3..]);
        assert s == s[..3] + s[3..];
      }
    }
  }

  // --- Sorting and joining -----------------------------------------------------------------------

  function EncodePair(p: QueryPair): (string, string) {
    (Encoded(p.0), Encoded(p.1))
  }

  function EncodePairs(ps: seq<QueryPair>): seq<(string, string)> {
    seq(|ps|, i requires 0 <= i < |ps| => EncodePair(ps[i]))
  }

  function Part(p: (string, string)): string {
    p.0 + "=" + p.1
  }

  function Join(ps: seq<(string, string)>): string
    decreases |ps|, 1
  {
    if ps == [] then "" else Part(ps[0]) + JoinTail(ps)
  }

  /** What follows the first part. */
  function JoinTail(ps: seq<(string, string)>): string
    decreases |ps|, 0
  {
    if |ps| <= 1 then "" else "&" + Join(ps[1..])
  }

  function CanonicalQuery(ps: seq<QueryPair>): string {
    Join(Sort(EncodePairs(ps)))
  }

  /** A text that starts without the separator and goes on with it can be cut in one place only. */
  lemma {:induction false} CutUnique(c: char, x: string, t: string, y: string, u: string)
    requires c !in x && c !in y && x + t == y + u
    requires (t == "" || t[0] == c) && (u == "" || u[0] == c)
    ensures x == y && t == u
  {
    if x == "" || y == "" {
      assert x == "" ==> x + t == t;
      assert y == "" ==> y + u == u;
    } else {
      assert x[0] == (x + t)[0] == y[0];
      assert (x + t)[1..] == x[1..] + t && (y + u)[1..] == y[1..] + u;
      CutUnique(c, x[1..], t, y[1..], u);
      assert x == [x[0]] + x[1..] && y == [y[0]] + y[1..];
    }
  }

  predicate Separable(p: (string, string)) {
    '=' !in p.0 && '&' !in p.0 && '=' !in p.1 && '&' !in p.1
  }

  lemma PartInjective(p: (string, string), q: (string, string))
    requires Separable(p) && Separable(q) && Part(p) == Part(q)
    ensures p == q
  {
    assert Part(p) == p.0 + ("=" + p.1) && Part(q) == q.0 + ("=" + q.1);
    CutUnique('=', p.0, "=" + p.1, q.0, "=" + q.1);
    assert p.1 == ("=" + p.1)[1..] && q.1 == ("=" + q.1)[1..];
  }

  lemma PartKeepsApart(p: (string, string))
    requires Separable(p)
    ensures '&' !in Part(p) && Part(p) != ""
  {
  }

  lemma JoinHeadsAgree(ps: seq<(string, string)>, qs: seq<(string, string)>)
    requires ps != [] && qs != [] && Separable(ps[0]) && Separable(qs[0]) && Join(ps) == Join(qs)
    ensures ps[0] == qs[0] && JoinTail(ps) == JoinTail(qs)
  {
    hide Part, Separable;
    PartKeepsApart(ps[0]);
    PartKeepsApart(qs[0]);
    CutUnique('&', Part(ps[0]), JoinTail(ps), Part(qs[0]), JoinTail(qs));
    PartInjective(ps[0], qs[0]);
  }

  lemma JoinTailDetermines(ps: seq<(string, string)>, qs: seq<(string, string)>)
    requires ps != [] && qs != [] && JoinTail(ps) == JoinTail(qs)
    ensures |ps| == 1 <==> |qs| == 1
    ensures |ps| > 1 ==> Join(ps[1..]) == Join(qs[1..])
  {
    if |ps| > 1 && |qs| > 1 {
      assert JoinTail(ps)[1..] == Join(ps[1..]) && JoinTail(qs)[1..] == Join(qs[1..]);
    }
  }

  /** Joined lists of separable pairs can be read back. */
  lemma {:induction false} JoinInjective(ps: seq<(string, string)>, qs: seq<(string, string)>)
    requires forall p :: p in ps ==> Separable(p)
    requires forall q :: q in qs ==> Separable(q)
    requires Join(ps) == Join(qs)
    ensures ps == qs
  {
    hide Part, Separable;
    if ps != [] {
      PartKeepsApart(ps[0]);
    }
    if qs != [] {
      PartKeepsApart(qs[0]);
    }
    if ps != [] && qs != [] {
      JoinHeadsAgree(ps, qs);
      JoinTailDetermines(ps, qs);
      assert ps == [ps[0]] + ps[1..] && qs == [qs[0]] + qs[1..];
      if |ps| > 1 {
        JoinInjective(ps[1..], qs[1..]);
      }
    }
  }

  // --- Canonical form ------------------------------------------------------------------------------

  function Map<A, B>(f: A -> B, s: seq<A>): (r: seq<B>)
    ensures |r| == |s| && forall i :: 0 <= i < |s| ==> r[i] == f(s[i])
  {
    seq(|s|, i requires 0 <= i < |s| => f(s[i]))
  }

  function Without<A>(t: seq<A>, i: nat): (r: seq<A>)
    requires i < |t|
    ensures |r| == |t| - 1 && multiset(r) == multiset(t) - multiset{t[i]}
  {
    assert t == t[..i] + [t[i]] + t[i + 1..];
    t[..i] + t[i + 1..]
  }

  lemma MapWithout<A, B>(f: A -> B, t: seq<A>, i: nat)
    requires i < |t|
    ensures multiset(Map(f, t)) == multiset{f(t[i])} + multiset(Map(f, Without(t, i)))
  {
    hide Map;
    var a, b := Map(f, t[..i]), Map(f, t[i + 1..]);
    assert Map(f, t) == a + [f(t[i])] + b;
    assert Map(f, Without(t, i)) == a + b;
  }

  /** Applying a function element by element respects multiset equality. */
  lemma {:induction false} MapRespectsMultiset<A, B>(f: A -> B, s: seq<A>, t: seq<A>)
    requires multiset(s) == multiset(t)
    ensures multiset(Map(f, s)) == multiset(Map(f, t))
    decreases |s|
  {
    hide Map, Without;
    assert |s| == |multiset(s)| == |multiset(t)| == |t|;
    if s != [] {
      assert s[0] in multiset(t);
      var i :| 0 <= i < |t| && t[i] == s[0];
      MapWithout(f, s, 0);
      MapWithout(f, t, i);
      MapRespectsMultiset(f, Without(s, 0), Without(t, i));
    }
  }

  function DecodePair(p: (string, string)): QueryPair {
    (if PercentEncoded(p.0) then PercentDecoded(p.0) else [],
     if PercentEncoded(p.1) then PercentDecoded(p.1) else [])
  }

  lemma EncodedPairsReadBack(ps: seq<QueryPair>)
    ensures Map(DecodePair, EncodePairs(ps)) == ps
    ensures forall p :: p in EncodePairs(ps) ==> Separable(p)
  {
    forall i | 0 <= i < |ps|
      ensures DecodePair(EncodePair(ps[i])) == ps[i] && Separable(EncodePair(ps[i]))
    {
      EncodedReadsBack(ps[i].0);
      EncodedReadsBack(ps[i].1);
      NoSeparators(Encoded(ps[i].0));
      NoSeparators(Encoded(ps[i].1));
    }
  }

  lemma SortedPairsSeparable(ps: seq<QueryPair>)
    ensures forall p :: p in Sort(EncodePairs(ps)) ==> Separable(p)
  {
    var encoded := EncodePairs(ps);
    EncodedPairsReadBack(ps);
    SortSorts(encoded);
    forall p | p in Sort(encoded) ensures Separable(p) {
      assert p in multiset(Sort(encoded));
    }
  }

  /** The canonical query is the same string exactly when the pairs are the same multiset. */
  lemma CanonicalQueryExact(ps: seq<QueryPair>, qs: seq<QueryPair>)
    ensures CanonicalQuery(ps) == CanonicalQuery(qs) <==> multiset(ps) == multiset(qs)
  {
    var a, b := EncodePairs(ps), EncodePairs(qs);
    SortSorts(a);
    SortSorts(b);
    if multiset(ps) == multiset(qs) {
      MapRespectsMultiset(EncodePair, ps, qs);
      assert a == Map(EncodePair, ps) && b == Map(EncodePair, qs);
      SortedUnique(Sort(a), Sort(b));
    }
    if CanonicalQuery(ps) == CanonicalQuery(qs) {
      SortedPairsSeparable(ps);
      SortedPairsSeparable(qs);
      JoinInjective(Sort(a), Sort(b));
      MapRespectsMultiset(DecodePair, a, b);
      EncodedPairsReadBack(ps);
      EncodedPairsReadBack(qs);
    }
  }

  /** One more pair is one more `name=value` after an ampersand. */
  lemma {:induction false} JoinSnoc(ps: seq<(string, string)>, p: (string, string))
    ensures Join(ps + [p]) == (if ps == [] then "" else Join(ps) + "&") + p.0 + "=" + p.1
  {
    if ps == [] {
      assert ps + [p] == [p];
    } else {
      assert (ps + [p])[1..] == ps[1..] + [p];
      JoinSnoc(ps[1..], p);
    }
  }

  /**
    The canonical query joins the encoded pairs of the list, each as often as it occurs, in
    ascending order of encoded name and then of encoded value.
   */
  lemma CanonicalQueryAscends(ps: seq<QueryPair>) returns (qs: seq<(string, string)>)
    ensures CanonicalQuery(ps) == Join(qs) && multiset(qs) == multiset(EncodePairs(ps))
    ensures forall i, j :: 0 <= i < j < |qs| ==> Ascends(qs[i], qs[j])
  {
    qs := Sort(EncodePairs(ps));
    SortAscends(EncodePairs(ps));
  }
}
