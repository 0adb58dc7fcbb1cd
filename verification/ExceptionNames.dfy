/** The names under which stream exceptions are reported: camel case and punctuation become snake case. */
module ExceptionNames {

  import opened Ascii

  predicate LowerOrDigit(c: char) { 'a' <= c <= 'z' || '0' <= c <= '9' }

  predicate EndsWithUnderscore(s: string) {
    s != "" && s[|s| - 1] == '_'
  }

  /** The text built so far, and whether the last character was a lower-case letter or a digit. */
  datatype Progress = Progress(text: string, wordEnds: bool)

  function Feed(p: Progress, c: char): Progress {
    if Upper(c) then
      var text := if p.wordEnds && !EndsWithUnderscore(p.text) then p.text + "_" else p.text;
      Progress(text + [ToLower(c)], false)
    else if LowerOrDigit(c) then
      Progress(p.text + [c], true)
    else
      Progress(if p.text != "" && !EndsWithUnderscore(p.text) then p.text + "_" else p.text, false)
  }

  function FeedAll(p: Progress, s: string): Progress
    decreases |s|
  {
    if s == "" then p else FeedAll(Feed(p, s[0]), s[1..])
  }

  function TrimStart(s: string): string {
    if s != "" && s[0] == '_' then TrimStart(s[1..]) else s
  }

  function TrimEnd(s: string): string {
    if EndsWithUnderscore(s) then TrimEnd(s[..|s| - 1]) else s
  }

  function Normalized(value: string): string {
    TrimEnd(TrimStart(FeedAll(Progress("", false), value).text))
  }

  method NormalizeExceptionType(value: string) returns (normalized: string)
    ensures normalized == Normalized(value)
  {
    normalized := "";
    var previousWasLowercaseOrDigit := false;
    for i := 0 to |value|
      invariant FeedAll(Progress("", false), value)
             == FeedAll(Progress(normalized, previousWasLowercaseOrDigit), value[i..])
    {
      var character := value[i];
      assert value[i..][0] == character && value[i..][1..] == value[i + 1..];
      if Upper(character) {
        if previousWasLowercaseOrDigit && !EndsWithUnderscore(normalized) {
          normalized := normalized + "_";
        }
        normalized := normalized + [ToLower(character)];
        previousWasLowercaseOrDigit := false;
      } else if LowerOrDigit(character) {
        normalized := normalized + [ToLower(character)];
        previousWasLowercaseOrDigit := true;
      } else {
        if normalized != "" && !EndsWithUnderscore(normalized) {
          normalized := normalized + "_";
        }
        previousWasLowercaseOrDigit := false;
      }
    }
    normalized := TrimEnd(TrimStart(normalized));
  }

  // --- The shape of a normalised name -----------------------------------------------------------

  /** Lower-case letters, digits, and single underscores that never come first. */
  ghost predicate Clean(s: string) {
    && (forall i :: 0 <= i < |s| ==> LowerOrDigit(s[i]) || s[i] == '_')
    && (forall i :: 0 <= i < |s| && s[i] == '_' ==> 0 < i && s[i - 1] != '_')
  }

  /** A clean name that does not end with an underscore either. */
  ghost predicate SnakeCase(s: string) {
    Clean(s) && !EndsWithUnderscore(s)
  }

  lemma {:induction false} FeedAllClean(p: Progress, s: string)
    requires Clean(p.text) && (p.wordEnds ==> p.text != "")
    ensures Clean(FeedAll(p, s).text)
    decreases |s|
  {
    if s != "" {
      FeedAllClean(Feed(p, s[0]), s[1..]);
    }
  }

  /** Every result is snake case, whatever the input. */
  lemma NormalizedIsSnakeCase(value: string)
    ensures SnakeCase(Normalized(value))
  {
    var text := FeedAll(Progress("", false), value).text;
    FeedAllClean(Progress("", false), value);
    assert TrimStart(text) == text;
    if EndsWithUnderscore(text) {
      var front := text[..|text| - 1];
      assert !EndsWithUnderscore(front);
      assert TrimEnd(text) == front;
    }
  }

  lemma {:induction false} FeedAllCopies(p: Progress, s: string)
    requires Clean(p.text + s)
    ensures FeedAll(p, s).text == p.text + s
    decreases |s|
  {
    if s == "" {
      assert p.text + s == p.text;
    } else {
      var all, k := p.text + s, |p.text|;
      assert all[k] == s[0];
      if s[0] == '_' {
        assert all[k - 1] == p.text[k - 1] != '_';
      }
      assert (p.text + [s[0]]) + s[1..] == all;
      FeedAllCopies(Feed(p, s[0]), s[1..]);
    }
  }

  /** The names left alone are exactly the snake-case ones. */
  lemma UnchangedIffSnakeCase(value: string)
    ensures Normalized(value) == value <==> SnakeCase(value)
  {
    if SnakeCase(value) {
      assert "" + value == value;
      FeedAllCopies(Progress("", false), value);
    }
    NormalizedIsSnakeCase(value);
  }

  /** Normalising twice is normalising once. */
  lemma NormalizedIdempotent(value: string)
    ensures Normalized(Normalized(value)) == Normalized(value)
  {
    NormalizedIsSnakeCase(value);
    UnchangedIffSnakeCase(Normalized(value));
  }

  // --- Nothing but separators is lost --------------------------------------------------------------

  /** The ASCII letters and digits of a text, lower-cased, in order. */
  ghost function Alphanumerics(s: string): string {
    if s == "" then ""
    else (if Upper(s[0]) || LowerOrDigit(s[0]) then [ToLower(s[0])] else "") + Alphanumerics(s[1..])
  }

  ghost function WithoutUnderscores(s: string): string {
    if s == "" then ""
    else (if s[0] == '_' then "" else [s[0]]) + WithoutUnderscores(s[1..])
  }

  lemma {:induction false} WithoutUnderscoresAppend(s: string, t: string)
    ensures WithoutUnderscores(s + t) == WithoutUnderscores(s) + WithoutUnderscores(t)
  {
    if s == "" {
      assert s + t == t;
    } else {
      assert (s + t)[1..] == s[1..] + t;
      WithoutUnderscoresAppend(s[1..], t);
    }
  }

  lemma FeedKeeps(p: Progress, c: char)
    ensures WithoutUnderscores(Feed(p, c).text) == WithoutUnderscores(p.text) + Alphanumerics([c])
  {
    assert WithoutUnderscores("_") == "";
    assert [c][1..] == "";
    var lower := [ToLower(c)];
    assert lower[1..] == "";
    WithoutUnderscoresAppend(p.text, "_");
    WithoutUnderscoresAppend(p.text, lower);
    WithoutUnderscoresAppend(p.text + "_", lower);
  }

  lemma {:induction false} FeedAllKeeps(p: Progress, s: string)
    ensures WithoutUnderscores(FeedAll(p, s).text) == WithoutUnderscores(p.text) + Alphanumerics(s)
    decreases |s|
  {
    if s != "" {
      FeedKeeps(p, s[0]);
      FeedAllKeeps(Feed(p, s[0]), s[1..]);
      assert Alphanumerics([s[0]]) + Alphanumerics(s[1..]) == Alphanumerics(s);
    }
  }

  lemma {:induction false} TrimEndKeeps(s: string)
    ensures WithoutUnderscores(TrimEnd(s)) == WithoutUnderscores(s)
  {
    if EndsWithUnderscore(s) {
      var front := s[..|s| - 1];
      assert s == front + "_";
      WithoutUnderscoresAppend(front, "_");
      TrimEndKeeps(front);
    }
  }

  /** Underscores apart, the result is the input's letters and digits in order. */
  lemma NormalizedKeepsAlphanumerics(value: string)
    ensures WithoutUnderscores(Normalized(value)) == Alphanumerics(value)
  {
    var text := FeedAll(Progress("", false), value).text;
    FeedAllClean(Progress("", false), value);
    assert TrimStart(text) == text;
    TrimEndKeeps(text);
    FeedAllKeeps(Progress("", false), value);
  }

  // --- Where the underscores stand ------------------------------------------------------------------

  predicate WordChar(c: char) {
    Upper(c) || LowerOrDigit(c)
  }

  /** The text before the ends are trimmed. */
  function Spelled(s: string): string {
    FeedAll(Progress("", false), s).text
  }

  lemma {:induction false} FeedAllAppend(p: Progress, s: string, t: string)
    ensures FeedAll(p, s + t) == FeedAll(FeedAll(p, s), t)
    decreases |s|
  {
    hide Feed;
    if s == "" {
      assert s + t == t;
    } else {
      assert (s + t)[0] == s[0] && (s + t)[1..] == s[1..] + t;
      FeedAllAppend(Feed(p, s[0]), s[1..], t);
    }
  }

  lemma FeedShift(front: string, p: Progress, c: char)
    requires p.text != ""
    ensures Feed(p, c).text != ""
    ensures Feed(Progress(front + p.text, p.wordEnds), c) == Progress(front + Feed(p, c).text, Feed(p, c).wordEnds)
  {
    assert front + p.text + "_" == front + (p.text + "_");
    assert front + p.text + [ToLower(c)] == front + (p.text + [ToLower(c)]);
    assert front + p.text + "_" + [ToLower(c)] == front + (p.text + "_" + [ToLower(c)]);
  }

  /** What is already written further in front does not matter once the word has begun. */
  lemma {:induction false} FeedAllShift(front: string, p: Progress, s: string)
    requires p.text != ""
    ensures FeedAll(p, s).text != ""
    ensures FeedAll(Progress(front + p.text, p.wordEnds), s).text == front + FeedAll(p, s).text
    decreases |s|
  {
    hide Feed;
    if s != "" {
      FeedShift(front, p, s[0]);
      FeedAllShift(front, Feed(p, s[0]), s[1..]);
    }
  }

  function Separator(p: Progress, c: char): string {
    if Upper(c) && p.wordEnds && !EndsWithUnderscore(p.text) then "_" else ""
  }

  lemma WordBegins(p: Progress, c: char, s: string)
    requires WordChar(c)
    ensures FeedAll(p, [c] + s).text == p.text + Separator(p, c) + Spelled([c] + s)
    ensures Spelled([c] + s) != "" && Spelled([c] + s)[0] != '_'
  {
    var blank := Progress("", false);
    assert ([c] + s)[1..] == s;
    var begun := Feed(blank, c);
    assert begun.text == [ToLower(c)];
    FeedAllShift(p.text + Separator(p, c), begun, s);
    assert Feed(p, c) == Progress(p.text + Separator(p, c) + begun.text, begun.wordEnds);
    FeedAllClean(blank, [c] + s);
  }

  lemma {:induction false} TrimEndBehind(front: string, s: string)
    requires s != "" && s[0] != '_'
    ensures TrimEnd(front + s) == front + TrimEnd(s)
    decreases |s|
  {
    if EndsWithUnderscore(s) {
      assert (front + s)[..|front + s| - 1] == front + s[..|s| - 1];
      TrimEndBehind(front, s[..|s| - 1]);
    } else {
      assert (front + s)[|front + s| - 1] == s[|s| - 1];
    }
  }

  lemma NormalizedIsTrimmed(s: string)
    ensures Normalized(s) == TrimEnd(Spelled(s))
    ensures Spelled(s) == Normalized(s) + if EndsWithUnderscore(Spelled(s)) then "_" else ""
  {
    var text := Spelled(s);
    FeedAllClean(Progress("", false), s);
    assert TrimStart(text) == text;
    if EndsWithUnderscore(text) {
      var front := text[..|text| - 1];
      assert TrimEnd(text) == TrimEnd(front) == front;
    }
  }

  /** The names of one character. */
  lemma NormalizedOne(c: char)
    ensures Normalized("") == ""
    ensures Normalized([c]) == if WordChar(c) then [ToLower(c)] else ""
  {
    var blank := Progress("", false);
    assert [c][1..] == "";
    assert FeedAll(blank, [c]) == FeedAll(Feed(blank, c), "") == Feed(blank, c);
    NormalizedIsTrimmed([c]);
  }

  /**
    Two neighbouring letters or digits: an underscore goes between them exactly when a lower-case
    letter or a digit meets a capital.
   */
  lemma NormalizedWithinWord(a: string, x: char, y: char, b: string)
    requires WordChar(x) && WordChar(y)
    ensures Normalized(a + [x] + ([y] + b))
         == Normalized(a + [x]) + (if LowerOrDigit(x) && Upper(y) then "_" else "") + Normalized([y] + b)
  {
    var blank := Progress("", false);
    var p := FeedAll(blank, a + [x]);
    EndsWord(a, x);
    FeedAllAppend(blank, a + [x], [y] + b);
    WordBegins(p, y, b);
    NormalizedIsTrimmed(a + [x]);
    NormalizedIsTrimmed(a + [x] + ([y] + b));
    NormalizedIsTrimmed([y] + b);
    TrimEndBehind(p.text + Separator(p, y), Spelled([y] + b));
  }

  lemma EndsWord(a: string, x: char)
    requires WordChar(x)
    ensures var p := FeedAll(Progress("", false), a + [x]);
            !EndsWithUnderscore(p.text) && p.wordEnds == LowerOrDigit(x)
  {
    var p := FeedAll(Progress("", false), a);
    FeedAllAppend(Progress("", false), a, [x]);
    assert [x][1..] == "";
    assert FeedAll(p, [x]) == FeedAll(Feed(p, x), "") == Feed(p, x);
  }

  function JoinWords(a: string, b: string): string {
    if a == "" then b else if b == "" then a else a + "_" + b
  }

  lemma TrimmedSeparator(text: string)
    requires EndsWithUnderscore(text) && Clean(text)
    ensures TrimEnd(text) != "" && text == TrimEnd(text) + "_"
  {
    var front := text[..|text| - 1];
    assert text[|front|] == '_';
    assert TrimEnd(text) == TrimEnd(front) == front;
  }

  lemma WordAfterSeparator(text: string, c: char, s: string)
    requires (text == "" || EndsWithUnderscore(text)) && Clean(text) && WordChar(c)
    ensures TrimEnd(FeedAll(Progress(text, false), [c] + s).text) == JoinWords(TrimEnd(text), Normalized([c] + s))
  {
    hide FeedAll, Normalized, Spelled, TrimEnd, Clean, WordChar, EndsWithUnderscore;
    var p, word := Progress(text, false), Spelled([c] + s);
    WordBegins(p, c, s);
    assert p.text + Separator(p, c) + word == text + word;
    TrimEndBehind(text, word);
    NormalizedIsTrimmed([c] + s);
    TrimmedStaysBegun(word);
    if text != "" {
      TrimmedSeparator(text);
    } else {
      assert TrimEnd("") == "" by { TrimNothing(); }
      assert text + TrimEnd(word) == TrimEnd(word);
    }
  }

  lemma TrimNothing()
    ensures TrimEnd("") == ""
  {
  }

  /** After an underscore, or at the very start, what follows is normalised on its own. */
  lemma {:induction false} AfterSeparator(text: string, s: string)
    requires (text == "" || EndsWithUnderscore(text)) && Clean(text)
    ensures TrimEnd(FeedAll(Progress(text, false), s).text) == JoinWords(TrimEnd(text), Normalized(s))
    decreases |s|
  {
    hide TrimEnd, Clean;
    if s == "" {
      NormalizedOne('_');
    } else if WordChar(s[0]) {
      assert s == [s[0]] + s[1..];
      WordAfterSeparator(text, s[0], s[1..]);
    } else {
      AfterSeparator(text, s[1..]);
    }
  }

  lemma {:induction false} TrimmedStaysBegun(s: string)
    requires s != "" && s[0] != '_'
    ensures TrimEnd(s) != ""
  {
    if EndsWithUnderscore(s) {
      TrimmedStaysBegun(s[..|s| - 1]);
    }
  }

  lemma FeedSeparator(p: Progress, c: char)
    requires Clean(p.text) && !WordChar(c)
    ensures var q := Feed(p, c);
            && Clean(q.text) && (q.text == "" || EndsWithUnderscore(q.text)) && !q.wordEnds
            && TrimEnd(q.text) == TrimEnd(p.text)
  {
    var text := p.text + "_";
    assert text[|text| - 1] == '_' && text[..|text| - 1] == p.text;
  }

  /** Any other character separates words: the names on its two sides are joined by one underscore. */
  lemma NormalizedAroundSeparator(a: string, c: char, b: string)
    requires !WordChar(c)
    ensures Normalized(a + ([c] + b)) == JoinWords(Normalized(a), Normalized(b))
  {
    hide Feed, Clean, TrimEnd, EndsWithUnderscore, Normalized, WordChar;
    var blank := Progress("", false);
    var p := FeedAll(blank, a);
    FeedAllAppend(blank, a, [c] + b);
    assert ([c] + b)[0] == c && ([c] + b)[1..] == b;
    NothingIsClean();
    FeedAllClean(blank, a);
    FeedSeparator(p, c);
    AfterSeparator(Feed(p, c).text, b);
    NormalizedIsTrimmed(a);
    NormalizedIsTrimmed(a + ([c] + b));
  }

  lemma NothingIsClean()
    ensures Clean("")
  {
  }
}
