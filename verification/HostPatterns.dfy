/**
  Destination allowlist patterns. The matcher works on text, with a fast path for `*.suffix`;
  its meaning is given on dot-separated labels.
 */
module HostPatterns {
  import Ascii

  // --- Labels -------------------------------------------------------------------------------------

  /** Puts one more character in front of a text given by its labels. */
  function Grow(c: char, labels: seq<string>): (r: seq<string>)
    requires labels != []
    ensures r != []
  {
    if c == '.' then [""] + labels else [[c] + labels[0]] + labels[1..]
  }

  /** Splitting at the dots; there is always at least one label. */
  function Labels(s: string): (r: seq<string>)
    ensures r != []
  {
    if s == "" then [""] else Grow(s[0], Labels(s[1..]))
  }

  function JoinDots(labels: seq<string>): string
    decreases |labels|, 1
  {
    if labels == [] then "" else labels[0] + JoinRest(labels)
  }

  function JoinRest(labels: seq<string>): string
    decreases |labels|, 0
  {
    if |labels| <= 1 then "" else "." + JoinDots(labels[1..])
  }

  lemma JoinOfGrow(c: char, labels: seq<string>)
    requires labels != []
    ensures JoinDots(Grow(c, labels)) == [c] + JoinDots(labels)
  {
    var all := Grow(c, labels);
    if c == '.' {
      assert all[1..] == labels;
    } else {
      assert all[1..] == labels[1..];
      assert JoinRest(all) == JoinRest(labels);
    }
  }

  /** Joining undoes splitting. */
  lemma {:induction false} JoinOfLabels(s: string)
    ensures JoinDots(Labels(s)) == s
  {
    hide Grow, JoinDots;
    if s == "" {
      assert JoinDots([""]) == "" by { JoinOne(""); }
    } else {
      JoinOfLabels(s[1..]);
      JoinOfGrow(s[0], Labels(s[1..]));
    }
  }

  lemma JoinOne(l: string)
    ensures JoinDots([l]) == l
  {
  }

  lemma LabelsInjective(a: string, b: string)
    requires Labels(a) == Labels(b)
    ensures a == b
  {
    JoinOfLabels(a);
    JoinOfLabels(b);
  }

  lemma GrowAppend(c: char, a: seq<string>, b: seq<string>)
    requires a != []
    ensures Grow(c, a + b) == Grow(c, a) + b
  {
    assert (a + b)[1..] == a[1..] + b;
  }

  /** Splitting respects concatenation around a dot. */
  lemma {:induction false} LabelsAroundDot(x: string, y: string)
    ensures Labels(x + "." + y) == Labels(x) + Labels(y)
  {
    var s := x + "." + y;
    if x == "" {
      assert s[0] == '.' && s[1..] == y;
    } else {
      assert s[1..] == x[1..] + "." + y && s[0] == x[0];
      LabelsAroundDot(x[1..], y);
      GrowAppend(x[0], Labels(x[1..]), Labels(y));
    }
  }

  lemma ConcatAssociative(x: string, y: string, z: string)
    ensures x + (y + z) == (x + y) + z
  {
  }

  lemma {:induction false} JoinAroundDot(a: seq<string>, b: seq<string>)
    requires a != [] && b != []
    ensures JoinDots(a + b) == JoinDots(a) + ("." + JoinDots(b))
  {
    var tail := "." + JoinDots(b);
    assert (a + b)[1..] == a[1..] + b && (a + b)[0] == a[0];
    if |a| == 1 {
      assert a[1..] + b == b;
      assert JoinDots(a) == a[0];
    } else {
      JoinAroundDot(a[1..], b);
      ConcatAssociative(".", JoinDots(a[1..]), tail);
      ConcatAssociative(a[0], JoinRest(a), tail);
    }
  }

  // --- The matcher -----------------------------------------------------------------------------------

  function TrimEndDots(s: string): string {
    if s != "" && s[|s| - 1] == '.' then TrimEndDots(s[..|s| - 1]) else s
  }

  /** Dots at the end go, and nothing else. */
  lemma {:induction false} TrimEndDotsExact(s: string)
    ensures TrimEndDots(s) <= s && forall i :: |TrimEndDots(s)| <= i < |s| ==> s[i] == '.'
    ensures TrimEndDots(s) != "" ==> TrimEndDots(s)[|TrimEndDots(s)| - 1] != '.'
  {
    if s != "" && s[|s| - 1] == '.' {
      TrimEndDotsExact(s[..|s| - 1]);
    }
  }

  predicate EndsWith(s: string, suffix: string) {
    |suffix| <= |s| && s[|s| - |suffix|..] == suffix
  }

  predicate LabelWildcardMatches(host: string, configured: string) {
    var (hostLabels, configuredLabels) := (Labels(host), Labels(configured));
    && |hostLabels| == |configuredLabels|
    && forall i :: 0 <= i < |hostLabels| ==> configuredLabels[i] == "*" || hostLabels[i] == configuredLabels[i]
  }

  /** The byte test for `*.suffix`. */
  predicate SuffixMatches(host: string, suffix: string) {
    && |host| > |suffix|
    && EndsWith(host, suffix)
    && host[|host| - |suffix| - 1] == '.'
  }

  predicate HostMatches(host: string, pattern: string) {
    var configured := Ascii.Lowercase(TrimEndDots(pattern));
    if "*." <= configured then
      var suffix := configured[2..];
      if '*' in suffix then LabelWildcardMatches(host, configured) else SuffixMatches(host, suffix)
    else if '*' in configured then LabelWildcardMatches(host, configured)
    else host == configured
  }

  // --- Its meaning on labels ---------------------------------------------------------------------------

  /** At least one label, and then the given ones. */
  ghost predicate EndsWithLabels(host: seq<string>, labels: seq<string>) {
    |host| > |labels| && host[|host| - |labels|..] == labels
  }

  /** The fast path holds exactly when the host's labels end with the suffix's, with at least one more in front. */
  lemma SuffixMatchesExactly(host: string, suffix: string)
    ensures SuffixMatches(host, suffix) <==> EndsWithLabels(Labels(host), Labels(suffix))
  {
    var (h, t) := (Labels(host), Labels(suffix));
    if SuffixMatches(host, suffix) {
      var x := host[..|host| - |suffix| - 1];
      assert host == x + "." + suffix;
      LabelsAroundDot(x, suffix);
    }
    if EndsWithLabels(h, t) {
      var front := h[..|h| - |t|];
      assert h == front + t;
      JoinAroundDot(front, t);
      JoinOfLabels(host);
      JoinOfLabels(suffix);
      assert host == JoinDots(front) + ("." + suffix);
    }
  }

  ghost predicate Starred(labels: seq<string>) {
    exists l :: l in labels && '*' in l
  }

  lemma {:induction false} StarsAreInLabels(s: string)
    ensures '*' in s <==> Starred(Labels(s))
  {
    if s != "" {
      StarsAreInLabels(s[1..]);
      var rest, all := Labels(s[1..]), Labels(s);
      assert s == [s[0]] + s[1..];
      assert rest == [rest[0]] + rest[1..];
      assert all == Grow(s[0], rest);
      if s[0] == '.' {
        StarredCons("", rest);
      } else {
        StarredCons(rest[0], rest[1..]);
        StarredCons([s[0]] + rest[0], rest[1..]);
      }
    }
  }

  lemma StarredCons(l: string, rest: seq<string>)
    ensures Starred([l] + rest) <==> '*' in l || Starred(rest)
  {
    if '*' in l {
      assert l in [l] + rest;
    }
    if k :| k in rest && '*' in k {
      assert k in [l] + rest;
    }
  }

  /**
    What a pattern means: without a star, the same labels; with `*` as the first label and no
    other star, one or more labels in its place; otherwise, exactly one label for each `*`.
   */
  ghost predicate Allowed(host: seq<string>, pattern: seq<string>)
    requires pattern != []
  {
    if !Starred(pattern) then host == pattern
    else if |pattern| > 1 && pattern[0] == "*" && !Starred(pattern[1..]) then EndsWithLabels(host, pattern[1..])
    else
      && |host| == |pattern|
      && forall i :: 0 <= i < |host| ==> pattern[i] == "*" || host[i] == pattern[i]
  }

  lemma StarLabel()
    ensures Labels("*") == ["*"]
  {
    assert "*"[1..] == "";
    assert Labels("") == [""];
    assert ['*'] + "" == "*";
  }

  lemma StarPrefix(configured: string)
    ensures "*." <= configured <==> |Labels(configured)| > 1 && Labels(configured)[0] == "*"
    ensures "*." <= configured ==> Labels(configured)[1..] == Labels(configured[2..])
  {
    var labels := Labels(configured);
    if "*." <= configured {
      assert configured == "*" + "." + configured[2..];
      LabelsAroundDot("*", configured[2..]);
      StarLabel();
      assert labels == ["*"] + Labels(configured[2..]);
    }
    if |labels| > 1 && labels[0] == "*" {
      JoinOfLabels(configured);
    }
  }

  /** The matcher decides exactly what its pattern means. */
  lemma HostMatchesExactly(host: string, pattern: string)
    ensures HostMatches(host, pattern) <==> Allowed(Labels(host), Labels(Ascii.Lowercase(TrimEndDots(pattern))))
  {
    var configured := Ascii.Lowercase(TrimEndDots(pattern));
    StarsAreInLabels(configured);
    StarPrefix(configured);
    if "*." <= configured {
      StarsAreInLabels(configured[2..]);
      SuffixMatchesExactly(host, configured[2..]);
    } else if '*' !in configured && Labels(host) == Labels(configured) {
      LabelsInjective(host, configured);
    }
  }
}
