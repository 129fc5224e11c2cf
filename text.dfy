/**
 * The operations of Python's str type that the transcriber uses: replace,
 * endswith, split on one separator character, join and strip. Strings are
 * sequences of Unicode scalar values, as Python's str is.
 */
module Text {

  /** Python's str.isspace() for one character: exactly the characters that
      str.strip() with no argument removes. */
  predicate IsSpace(c: char) {
    || ('\t' <= c <= '\r')
    || ('\U{1C}' <= c <= '\U{1F}')
    || c == ' ' || c == '\U{85}' || c == '\U{A0}' || c == '\U{1680}'
    || ('\U{2000}' <= c <= '\U{200A}')
    || c == '\U{2028}' || c == '\U{2029}' || c == '\U{202F}' || c == '\U{205F}' || c == '\U{3000}'
  }

  predicate AllSpace(s: string) {
    forall i :: 0 <= i < |s| ==> IsSpace(s[i])
  }

  /** No whitespace at either end (an empty string qualifies) */
  predicate Trimmed(s: string) {
    s == [] || (!IsSpace(s[0]) && !IsSpace(s[|s| - 1]))
  }

  lemma ConcatAssociative<T>(a: seq<T>, b: seq<T>, c: seq<T>)
    ensures a + b + c == a + (b + c)
  {
  }

  /** s.replace(target, replacement) for one-character arguments */
  function Replace(s: string, target: char, replacement: char): (r: string)
    ensures |r| == |s|
    ensures forall i :: 0 <= i < |s| ==> r[i] == if s[i] == target then replacement else s[i]
    ensures target != replacement ==> target !in r
  {
    if s == [] then []
    else [if s[0] == target then replacement else s[0]] + Replace(s[1..], target, replacement)
  }

  /** s.endswith(suffix) */
  function EndsWith(s: string, suffix: string): (b: bool)
    ensures b ==> |suffix| <= |s|
    ensures suffix == [] || suffix == s ==> b
  {
    |suffix| <= |s| && s[|s| - |suffix|..] == suffix
  }

  /** s ends with suffix exactly when s is some string followed by suffix */
  lemma EndsWithIff(s: string, suffix: string)
    ensures EndsWith(s, suffix) <==> exists prefix :: s == prefix + suffix
  {
    if EndsWith(s, suffix) {
      assert s == s[..|s| - |suffix|] + suffix;
    }
    forall prefix | s == prefix + suffix
      ensures EndsWith(s, suffix)
    {
      assert s[|s| - |suffix|..] == suffix;
    }
  }

  lemma EndsWithTransitive(s: string, t: string, u: string)
    requires EndsWith(s, t) && EndsWith(t, u)
    ensures EndsWith(s, u)
  {
    assert s[|s| - |u|..] == s[|s| - |t|..][|t| - |u|..];
  }

  /** The number of occurrences of c in s */
  function Count(s: string, c: char): nat {
    if s == [] then 0 else (if s[0] == c then 1 else 0) + Count(s[1..], c)
  }

  /** The total length of the parts */
  function TotalLength(parts: seq<string>): nat {
    if parts == [] then 0 else |parts[0]| + TotalLength(parts[1..])
  }

  /** sep.join(parts): the parts with one separator between each two of them */
  function Join(parts: seq<string>, sep: string): string {
    if |parts| == 0 then ""
    else if |parts| == 1 then parts[0]
    else parts[0] + sep + Join(parts[1..], sep)
  }

  /** A join holds every character of the parts plus one separator between
      each two of them, and it starts with the first part. */
  lemma {:induction false} JoinLength(parts: seq<string>, sep: string)
    requires parts != []
    ensures |Join(parts, sep)| == TotalLength(parts) + (|parts| - 1) * |sep|
    ensures Join(parts, sep)[..|parts[0]|] == parts[0]
  {
    if |parts| > 1 {
      JoinLength(parts[1..], sep);
      assert (|parts| - 1) * |sep| == |sep| + (|parts| - 2) * |sep|;
    }
  }

  /** s.split(sep) for a one-character separator: one piece more than there
      are separators, no piece holds the separator, and joining the pieces
      with the separator gives s back. */
  function Split(s: string, sep: char): (parts: seq<string>)
    ensures |parts| == Count(s, sep) + 1
    ensures forall i :: 0 <= i < |parts| ==> sep !in parts[i]
    ensures Join(parts, [sep]) == s
  {
    if s == [] then [""]
    else
      var rest := Split(s[1..], sep);
      if s[0] == sep then [""] + rest
      else
        assert |rest| == 1 || Join(rest, [sep]) == rest[0] + [sep] + Join(rest[1..], [sep]);
        [[s[0]] + rest[0]] + rest[1..]
  }

  /** Splitting a string that starts with a separator-free word w extends the first piece by w */
  lemma {:induction false} SplitAfterWord(w: string, s: string, sep: char)
    requires sep !in w
    ensures Split(w + s, sep) == [w + Split(s, sep)[0]] + Split(s, sep)[1..]
  {
    if w != [] {
      SplitAfterWord(w[1..], s, sep);
      assert (w + s)[1..] == w[1..] + s;
      assert [w[0]] + (w[1..] + Split(s, sep)[0]) == w + Split(s, sep)[0];
    } else {
      assert w + s == s && w + Split(s, sep)[0] == Split(s, sep)[0];
      assert Split(s, sep) == [Split(s, sep)[0]] + Split(s, sep)[1..];
    }
  }

  /** Splitting undoes joining exactly when no part holds the separator */
  lemma {:induction false} SplitJoin(parts: seq<string>, sep: char)
    requires |parts| >= 1
    ensures Split(Join(parts, [sep]), sep) == parts <==> forall i :: 0 <= i < |parts| ==> sep !in parts[i]
  {
    if forall i :: 0 <= i < |parts| ==> sep !in parts[i] {
      if |parts| == 1 {
        SplitAfterWord(parts[0], "", sep);
        assert parts[0] + "" == parts[0];
      } else {
        var tail := Join(parts[1..], [sep]);
        SplitJoin(parts[1..], sep);
        assert Split(tail, sep) == parts[1..];
        assert Join(parts, [sep]) == parts[0] + ([sep] + tail);
        assert ([sep] + tail)[1..] == tail;
        assert Split([sep] + tail, sep) == [""] + parts[1..];
        SplitAfterWord(parts[0], [sep] + tail, sep);
        assert parts[0] + "" == parts[0];
        assert parts == [parts[0]] + parts[1..];
      }
    }
  }

  /** The number of whitespace characters s starts with */
  function LeadingSpace(s: string): (k: nat)
    ensures k <= |s|
    ensures forall i :: 0 <= i < k ==> IsSpace(s[i])
    ensures k == |s| || !IsSpace(s[k])
  {
    if s != [] && IsSpace(s[0]) then
      var k := 1 + LeadingSpace(s[1..]);
      assert forall i :: 1 <= i < k ==> s[i] == s[1..][i - 1];
      k
    else 0
  }

  /** The number of whitespace characters s ends with */
  function TrailingSpace(s: string): (k: nat)
    ensures k <= |s|
    ensures forall i :: |s| - k <= i < |s| ==> IsSpace(s[i])
    ensures k == |s| || !IsSpace(s[|s| - k - 1])
  {
    if s != [] && IsSpace(s[|s| - 1]) then
      var k := 1 + TrailingSpace(s[..|s| - 1]);
      assert forall i :: 0 <= i < |s| - 1 ==> s[i] == s[..|s| - 1][i];
      k
    else 0
  }

  /** s.strip(): whitespace removed from both ends; a string of whitespace
      only strips to the empty string. */
  function Strip(s: string): (r: string)
    ensures |r| <= |s| && Trimmed(r)
  {
    var lo := LeadingSpace(s);
    var hi := if lo <= |s| - TrailingSpace(s) then |s| - TrailingSpace(s) else lo;
    s[lo..hi]
  }

  /** s is r with the whitespace a in front and the whitespace b behind */
  predicate PaddedBy(s: string, r: string, a: string, b: string) {
    s == a + r + b && AllSpace(a) && AllSpace(b)
  }

  /** What strip() removes is whitespace only: s is its stripped form padded
      with whitespace on both sides. */
  lemma StripDecomposes(s: string)
    ensures exists a, b :: PaddedBy(s, Strip(s), a, b)
  {
    var lo := LeadingSpace(s);
    var hi := if lo <= |s| - TrailingSpace(s) then |s| - TrailingSpace(s) else lo;
    var a, r, b := s[..lo], s[lo..hi], s[hi..];
    LeadingIsSpace(s);
    TrailingIsSpace(s, hi);
    ThreeSlices(s, lo, hi);
    assert PaddedBy(s, Strip(s), a, b);
  }

  lemma ThreeSlices(s: string, lo: nat, hi: nat)
    requires lo <= hi <= |s|
    ensures s == s[..lo] + s[lo..hi] + s[hi..]
  {
  }

  lemma LeadingIsSpace(s: string)
    ensures AllSpace(s[..LeadingSpace(s)])
  {
    assert forall i :: 0 <= i < LeadingSpace(s) ==> s[..LeadingSpace(s)][i] == s[i];
  }

  lemma TrailingIsSpace(s: string, hi: nat)
    requires |s| - TrailingSpace(s) <= hi <= |s|
    ensures AllSpace(s[hi..])
  {
    assert forall i :: 0 <= i < |s| - hi ==> s[hi..][i] == s[hi + i];
  }

  /** strip() is determined by what it removes: a trimmed string padded
      with whitespace strips back to itself. */
  lemma StripPadded(s: string, t: string, a: string, b: string)
    requires PaddedBy(s, t, a, b) && Trimmed(t)
    ensures Strip(s) == t
  {
    if t == [] {
      PaddingOnly(s, a, b);
    } else {
      PaddedEnds(s, t, a, b);
      assert s[|a|..|a| + |t|] == t;
    }
  }

  lemma PaddingOnly(s: string, a: string, b: string)
    requires s == a + b && AllSpace(a) && AllSpace(b)
    ensures LeadingSpace(s) == |s|
  {
    assert forall i :: 0 <= i < |a| ==> s[i] == a[i];
    assert forall i :: |a| <= i < |s| ==> s[i] == b[i - |a|];
  }

  lemma PaddedEnds(s: string, t: string, a: string, b: string)
    requires PaddedBy(s, t, a, b) && t != [] && Trimmed(t)
    ensures LeadingSpace(s) == |a| && TrailingSpace(s) == |b|
  {
    assert s[|a|] == t[0] && s[|a| + |t| - 1] == t[|t| - 1];
    assert forall i :: 0 <= i < |a| ==> s[i] == a[i];
    assert forall i :: |a| + |t| <= i < |s| ==> s[i] == b[i - |a| - |t|];
  }
}
