/** The order in which strings and pairs of strings are sorted and compared. */
module Ordering {

  predicate TextLe(a: string, b: string) {
    a == "" || (b != "" && (a[0] < b[0] || (a[0] == b[0] && TextLe(a[1..], b[1..]))))
  }

  /** The texts agree up to `i`, where the first one has the smaller character. */
  ghost predicate LessAt(a: string, b: string, i: nat) {
    i < |a| && i < |b| && a[..i] == b[..i] && a[i] < b[i]
  }

  /** Dictionary order: a prefix, or the smaller character where the texts first differ. */
  ghost predicate UpTo(a: string, b: string) {
    a <= b || exists i: nat :: LessAt(a, b, i)
  }

  lemma {:induction false} TextLeMeans(a: string, b: string)
    ensures TextLe(a, b) <==> UpTo(a, b)
  {
    if a != "" && b != "" {
      if a[0] < b[0] {
        assert LessAt(a, b, 0);
      } else if a[0] == b[0] {
        var x, y := a[1..], b[1..];
        TextLeMeans(x, y);
        assert a == [a[0]] + x && b == [b[0]] + y;
        if i: nat :| LessAt(x, y, i) {
          assert a[..i + 1] == [a[0]] + x[..i] && b[..i + 1] == [b[0]] + y[..i];
          assert LessAt(a, b, i + 1);
        }
        if i: nat :| LessAt(a, b, i) {
          assert x[..i - 1] == a[..i][1..] && y[..i - 1] == b[..i][1..];
          assert LessAt(x, y, i - 1);
        }
      }
    }
  }

  lemma {:induction false} TextLeTotal(a: string, b: string)
    ensures TextLe(a, b) || TextLe(b, a)
  {
    if a != "" && b != "" && a[0] == b[0] {
      TextLeTotal(a[1..], b[1..]);
    }
  }

  lemma {:induction false} TextLeAntisymmetric(a: string, b: string)
    requires TextLe(a, b) && TextLe(b, a)
    ensures a == b
  {
    if a != "" && b != "" {
      TextLeAntisymmetric(a[1..], b[1..]);
      assert a == [a[0]] + a[1..] && b == [b[0]] + b[1..];
    }
  }

  lemma {:induction false} TextLeTransitive(a: string, b: string, c: string)
    requires TextLe(a, b) && TextLe(b, c)
    ensures TextLe(a, c)
  {
    if a != "" && a[0] == b[0] == c[0] {
      TextLeTransitive(a[1..], b[1..], c[1..]);
    }
  }

  /** Pairs compare by their first text, then by their second. */
  predicate PairLe(p: (string, string), q: (string, string)) {
    if p.0 == q.0 then TextLe(p.1, q.1) else TextLe(p.0, q.0)
  }

  lemma PairLeTotal(p: (string, string), q: (string, string))
    ensures PairLe(p, q) || PairLe(q, p)
  {
    TextLeTotal(p.0, q.0);
    TextLeTotal(p.1, q.1);
  }

  lemma PairLeAntisymmetric(p: (string, string), q: (string, string))
    requires PairLe(p, q) && PairLe(q, p)
    ensures p == q
  {
    if p.0 == q.0 {
      TextLeAntisymmetric(p.1, q.1);
    } else {
      TextLeAntisymmetric(p.0, q.0);
    }
  }

  lemma PairLeTransitive(p: (string, string), q: (string, string), r: (string, string))
    requires PairLe(p, q) && PairLe(q, r)
    ensures PairLe(p, r)
  {
    if p.0 == q.0 == r.0 {
      TextLeTransitive(p.1, q.1, r.1);
    } else if p.0 == r.0 {
      TextLeAntisymmetric(p.0, q.0);
    } else if p.0 != q.0 && q.0 != r.0 {
      TextLeTransitive(p.0, q.0, r.0);
    }
  }

  /** Pairs ascend by their first text and, where that is the same, by their second. */
  ghost predicate Ascends(p: (string, string), q: (string, string)) {
    UpTo(p.0, q.0) && (p.0 == q.0 ==> UpTo(p.1, q.1))
  }

  lemma PairLeMeans(p: (string, string), q: (string, string))
    ensures PairLe(p, q) <==> Ascends(p, q)
  {
    TextLeMeans(p.0, q.0);
    TextLeMeans(p.1, q.1);
    if p.0 == q.0 {
      assert p.0 <= q.0;
    }
  }

  ghost predicate Sorted(s: seq<(string, string)>) {
    forall i, j :: 0 <= i < j < |s| ==> PairLe(s[i], s[j])
  }

  function Insert(p: (string, string), s: seq<(string, string)>): seq<(string, string)> {
    if s == [] || PairLe(p, s[0]) then [p] + s else [s[0]] + Insert(p, s[1..])
  }

  function Sort(s: seq<(string, string)>): seq<(string, string)> {
    if s == [] then [] else Insert(s[0], Sort(s[1..]))
  }

  lemma {:induction false} InsertSorts(p: (string, string), s: seq<(string, string)>)
    requires Sorted(s)
    ensures Sorted(Insert(p, s)) && multiset(Insert(p, s)) == multiset{p} + multiset(s)
  {
    if s == [] {
    } else if PairLe(p, s[0]) {
      forall j | 0 < j < |s| ensures PairLe(p, s[j]) {
        PairLeTransitive(p, s[0], s[j]);
      }
    } else {
      PairLeTotal(p, s[0]);
      var rest := Insert(p, s[1..]);
      InsertSorts(p, s[1..]);
      assert s == [s[0]] + s[1..];
      forall q | q in rest ensures PairLe(s[0], q) {
        assert q in multiset(rest);
        assert q == p || q in s[1..];
      }
    }
  }

  /** Sorting gives an ordered permutation. */
  lemma {:induction false} SortSorts(s: seq<(string, string)>)
    ensures Sorted(Sort(s)) && multiset(Sort(s)) == multiset(s)
  {
    if s != [] {
      SortSorts(s[1..]);
      InsertSorts(s[0], Sort(s[1..]));
      assert s == [s[0]] + s[1..];
    }
  }

  /** In terms of the texts themselves: sorting gives a permutation in ascending order. */
  lemma SortAscends(s: seq<(string, string)>)
    ensures multiset(Sort(s)) == multiset(s)
    ensures forall i, j :: 0 <= i < j < |Sort(s)| ==> Ascends(Sort(s)[i], Sort(s)[j])
  {
    SortSorts(s);
    forall i, j | 0 <= i < j < |Sort(s)| ensures Ascends(Sort(s)[i], Sort(s)[j]) {
      PairLeMeans(Sort(s)[i], Sort(s)[j]);
    }
  }

  lemma SortedHeadsAgree(s: seq<(string, string)>, t: seq<(string, string)>)
    requires Sorted(s) && Sorted(t) && multiset(s) == multiset(t) && s != [] && t != []
    ensures s[0] == t[0]
  {
    assert s[0] in multiset(t) && t[0] in multiset(s);
    var i :| 0 <= i < |t| && t[i] == s[0];
    var j :| 0 <= j < |s| && s[j] == t[0];
    if i != 0 && j != 0 {
      PairLeAntisymmetric(s[0], t[0]);
    }
  }

  lemma MultisetTail<T>(s: seq<T>)
    requires s != []
    ensures multiset(s[1..]) == multiset(s) - multiset{s[0]}
  {
    assert s == [s[0]] + s[1..];
  }

  /** There is only one ordered permutation, so it does not matter which algorithm sorts. */
  lemma {:induction false} SortedUnique(s: seq<(string, string)>, t: seq<(string, string)>)
    requires Sorted(s) && Sorted(t) && multiset(s) == multiset(t)
    ensures s == t
  {
    assert |s| == |multiset(s)| == |multiset(t)| == |t|;
    if s != [] {
      SortedHeadsAgree(s, t);
      MultisetTail(s);
      MultisetTail(t);
      SortedUnique(s[1..], t[1..]);
      assert s == [s[0]] + s[1..] && t == [t[0]] + t[1..];
    }
  }
}
