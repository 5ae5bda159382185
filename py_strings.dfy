/**
  The Python `str` operations that services.py relies on, over Dafny strings
  (sequences of Unicode scalar values): whitespace as `str.isspace` and the
  regular-expression class `\s` see it, `strip`, `split()[0]`, `in`,
  `replace`, and searching for a substring.
 */
module PyStrings {
  import opened Options

  /** `c.isspace()`; for `str` patterns the class `\s` of module `re` is the same set. */
  predicate IsSpace(c: char) {
    || c == ' '
    || ('\t' <= c <= '\r')
    || ('\U{1C}' <= c <= '\U{1F}')
    || c == '\U{85}' || c == '\U{A0}' || c == '\U{1680}'
    || ('\U{2000}' <= c <= '\U{200A}')
    || c == '\U{2028}' || c == '\U{2029}' || c == '\U{202F}' || c == '\U{205F}' || c == '\U{3000}'
  }

  predicate NoSpace(s: string) {
    forall i :: 0 <= i < |s| ==> !IsSpace(s[i])
  }

  predicate AllSpace(s: string) {
    forall i :: 0 <= i < |s| ==> IsSpace(s[i])
  }

  lemma NoSpaceSuffix(s: string, a: nat)
    requires NoSpace(s) && a <= |s|
    ensures NoSpace(s[a..])
  {
    forall i | 0 <= i < |s| - a ensures !IsSpace(s[a..][i]) {
      assert s[a..][i] == s[a + i];
    }
  }

  /** What `str.strip()` leaves: no whitespace at either end. */
  predicate Stripped(s: string) {
    s == [] || (!IsSpace(s[0]) && !IsSpace(s[|s| - 1]))
  }

  /** Length of the leading run of whitespace. */
  function SpanSpace(s: string): (n: nat)
    ensures n <= |s|
    ensures AllSpace(s[..n])
    ensures n < |s| ==> !IsSpace(s[n])
  {
    if s == [] || !IsSpace(s[0]) then 0 else 1 + SpanSpace(s[1..])
  }

  /** Length of the leading run of non-whitespace characters. */
  function SpanNonSpace(s: string): (n: nat)
    ensures n <= |s|
    ensures NoSpace(s[..n])
    ensures n < |s| ==> IsSpace(s[n])
  {
    if s == [] || IsSpace(s[0]) then 0 else 1 + SpanNonSpace(s[1..])
  }

  /** Length of the trailing run of whitespace. */
  function TrailingSpace(s: string): (n: nat)
    ensures n <= |s|
    ensures AllSpace(s[|s| - n..])
    ensures n < |s| ==> !IsSpace(s[|s| - n - 1])
  {
    if s == [] || !IsSpace(s[|s| - 1]) then 0 else 1 + TrailingSpace(s[..|s| - 1])
  }

  /** The non-whitespace run ends at the first whitespace character. */
  lemma {:induction false} SpanNonSpaceAt(s: string, k: nat)
    requires k <= |s| && NoSpace(s[..k]) && (k == |s| || IsSpace(s[k]))
    ensures SpanNonSpace(s) == k
  {
    if k > 0 {
      assert s[1..][..k - 1] == s[..k][1..];
      SpanNonSpaceAt(s[1..], k - 1);
    }
  }

  /** The whitespace run covers every all-whitespace prefix. */
  lemma {:induction false} SpanSpaceAtLeast(s: string, k: nat)
    requires k <= |s| && AllSpace(s[..k])
    ensures SpanSpace(s) >= k
  {
    if k > 0 {
      assert s[1..][..k - 1] == s[..k][1..];
      SpanSpaceAtLeast(s[1..], k - 1);
    }
  }

  /** `s.strip()`: `s` without its leading and trailing whitespace. */
  function Strip(s: string): (r: string)
    ensures Stripped(r)
    ensures SpanSpace(s) + |r| <= |s|
    ensures r == s[SpanSpace(s)..SpanSpace(s) + |r|]
    ensures AllSpace(s[SpanSpace(s) + |r|..])
  {
    var a, b := SpanSpace(s), |s| - TrailingSpace(s);
    if a < b then s[a..b] else []
  }

  /** A text is its leading whitespace, its stripped self and its trailing whitespace. */
  lemma StripParts(s: string) returns (x: string, z: string)
    ensures AllSpace(x) && AllSpace(z) && s == x + (Strip(s) + z)
  {
    var a := SpanSpace(s);
    var r := Strip(s);
    x, z := s[..a], s[a + |r|..];
    CutAround(s, a, a + |r|);
  }

  /** `s.strip()` is empty exactly when `s` is all whitespace. */
  lemma StripEmptyIff(s: string)
    ensures Strip(s) == [] <==> AllSpace(s)
  {
    if Strip(s) == [] {
      assert s == s[..SpanSpace(s)] + s[SpanSpace(s)..];
    }
  }

  /** Stripping a stripped string changes nothing. */
  lemma StripStripped(s: string)
    requires Stripped(s)
    ensures Strip(s) == s
  {
  }

  /** A single space in front of a non-empty stripped string is stripped off again. */
  lemma StripPadded(s: string)
    requires s != [] && Stripped(s)
    ensures Strip(" " + s) == s
  {
    var t := " " + s;
    assert t[1..] == s;
    assert SpanSpace(t) == 1;
    assert TrailingSpace(t) == 0;
  }

  /** `s.split()[0]`: the first maximal run of non-whitespace characters. */
  function FirstWord(s: string): (w: string)
    requires !AllSpace(s)
    ensures 0 < |w| && NoSpace(w)
    ensures SpanSpace(s) + |w| <= |s| && w == s[SpanSpace(s)..SpanSpace(s) + |w|]
    ensures SpanSpace(s) + |w| == |s| || IsSpace(s[SpanSpace(s) + |w|])
  {
    var a := SpanSpace(s);
    var n := SpanNonSpace(s[a..]);
    assert s[a..a + n] == s[a..][..n];
    s[a..a + n]
  }

  /** The last character of a non-empty string, as a slice. */
  lemma LastSlice(s: string)
    requires s != []
    ensures s[|s| - 1..] == [s[|s| - 1]]
  {
  }

  /** A string is its three pieces around two cut points. */
  lemma CutAround(s: string, a: nat, b: nat)
    requires a <= b <= |s|
    ensures s == s[..a] + (s[a..b] + s[b..])
  {
  }

  lemma ConcatAssoc(a: string, b: string, c: string)
    ensures a + (b + c) == a + b + c
  {
  }

  /** After one leading space, the first word is the word that follows it. */
  lemma FirstWordAfterSpace(w: string)
    requires w != [] && NoSpace(w)
    ensures !AllSpace(" " + w) && SpanSpace(" " + w) == 1 && FirstWord(" " + w) == w
  {
    var t := " " + w;
    assert t[1..] == w;
    assert SpanSpace(w) == 0;
    assert SpanSpace(t) == 1;
    assert w[..|w|] == w;
    SpanNonSpaceAt(w, |w|);
    assert t[1..1 + |w|] == w;
  }

  /** Index of the first `c` in `s`, or `|s|` when there is none. */
  function IndexOfChar(s: string, c: char): (k: nat)
    ensures k <= |s|
    ensures c !in s[..k]
    ensures k < |s| ==> s[k] == c
  {
    if s == [] || s[0] == c then 0 else 1 + IndexOfChar(s[1..], c)
  }

  /** A prefix free of `c` bounds the index of the first `c` from below. */
  lemma {:induction false} IndexOfCharAtLeast(s: string, c: char, k: nat)
    requires k <= |s| && c !in s[..k]
    ensures IndexOfChar(s, c) >= k
  {
    if k > 0 {
      assert s[0] == s[..k][0];
      assert s[1..][..k - 1] == s[..k][1..];
      IndexOfCharAtLeast(s[1..], c, k - 1);
    }
  }

  /** An occurrence of `c` bounds the index of the first `c` from above. */
  lemma {:induction false} IndexOfCharAtMost(s: string, c: char, k: nat)
    requires k < |s| && s[k] == c
    ensures IndexOfChar(s, c) <= k
  {
    if k > 0 && s[0] != c {
      IndexOfCharAtMost(s[1..], c, k - 1);
    }
  }

  /** Index of the last `c` in `s`. */
  function LastIndexOfChar(s: string, c: char): (r: Option<nat>)
    ensures r.Some? ==> r.value < |s| && s[r.value] == c
    ensures forall i :: (if r.Some? then r.value + 1 else 0) <= i < |s| ==> s[i] != c
  {
    if s == [] then None
    else if s[|s| - 1] == c then Some(|s| - 1)
    else LastIndexOfChar(s[..|s| - 1], c)
  }

  /** `s.replace(a, b)` for one-character `a` and `b`. */
  function ReplaceChar(s: string, a: char, b: char): (r: string)
    ensures |r| == |s|
    ensures forall i :: 0 <= i < |s| ==> r[i] == if s[i] == a then b else s[i]
  {
    if s == [] then [] else [if s[0] == a then b else s[0]] + ReplaceChar(s[1..], a, b)
  }

  lemma SliceOfSlice(s: string, a: nat, b: nat, c: nat, d: nat)
    requires a <= b <= |s| && c <= d <= b - a
    ensures s[a..b][c..d] == s[a + c..a + d]
  {
    assert forall t :: 0 <= t < d - c ==> s[a..b][c..d][t] == s[a + c + t];
  }

  predicate OccursAt(s: string, pat: string, i: int) {
    0 <= i && i + |pat| <= |s| && s[i..i + |pat|] == pat
  }

  /** The leftmost occurrence of `pat` in `s` at or after `from`. */
  function FindFrom(s: string, pat: string, from: nat): (r: Option<nat>)
    requires from <= |s|
    ensures r.Some? ==> from <= r.value && OccursAt(s, pat, r.value)
    ensures forall i :: from <= i && (r.None? || i < r.value) ==> !OccursAt(s, pat, i)
    decreases |s| - from
  {
    if OccursAt(s, pat, from) then Some(from)
    else if from == |s| then None
    else FindFrom(s, pat, from + 1)
  }

  /** The leftmost occurrence of `pat` in `s`, as `s.find(pat)` or `re.search` of a literal. */
  function Find(s: string, pat: string): (r: Option<nat>)
    ensures r.Some? ==> OccursAt(s, pat, r.value)
    ensures forall i :: (r.None? || i < r.value) ==> !OccursAt(s, pat, i)
  {
    FindFrom(s, pat, 0)
  }

  /** `s.replace(pat, rep)` for non-empty `pat`: every occurrence, left to right, without overlap. */
  function ReplaceAll(s: string, pat: string, rep: string): (r: string)
    requires pat != []
    ensures rep == pat ==> r == s
    ensures |rep| <= |pat| ==> |r| <= |s|
  {
    if |s| < |pat| then s
    else if s[..|pat|] == pat then rep + ReplaceAll(s[|pat|..], pat, rep)
    else [s[0]] + ReplaceAll(s[1..], pat, rep)
  }

  /** `sep.join(parts)` */
  function Join(parts: seq<string>, sep: string): string {
    if parts == [] then ""
    else if |parts| == 1 then parts[0]
    else parts[0] + sep + Join(parts[1..], sep)
  }

  /** An occurrence in a suffix is an occurrence in the whole string, shifted. */
  lemma OccursAtSuffix(s: string, pat: string, d: nat, i: int)
    requires d <= |s| && 0 <= i
    ensures OccursAt(s[d..], pat, i) <==> OccursAt(s, pat, i + d)
  {
    if 0 <= i && i + |pat| <= |s| - d {
      assert s[d..][i..i + |pat|] == s[i + d..i + d + |pat|];
    }
  }

  /** Without an occurrence of `pat`, `replace` changes nothing. */
  lemma {:induction false} ReplaceAllAbsent(s: string, pat: string, rep: string)
    requires pat != []
    requires forall i :: !OccursAt(s, pat, i)
    ensures ReplaceAll(s, pat, rep) == s
  {
    if |s| >= |pat| {
      assert !OccursAt(s, pat, 0);
      forall i | 0 <= i ensures !OccursAt(s[1..], pat, i) {
        OccursAtSuffix(s, pat, 1, i);
      }
      ReplaceAllAbsent(s[1..], pat, rep);
    }
  }

  /** One step of `replace` at an index where `pat` does not start. */
  lemma ReplaceAllSkip(s: string, pat: string, rep: string)
    requires pat != [] && |s| >= |pat| && !OccursAt(s, pat, 0)
    ensures ReplaceAll(s, pat, rep) == [s[0]] + ReplaceAll(s[1..], pat, rep)
  {
  }

  /** One step of `replace` at an index where `pat` starts. */
  lemma ReplaceAllHit(s: string, pat: string, rep: string)
    requires pat != [] && OccursAt(s, pat, 0)
    ensures ReplaceAll(s, pat, rep) == rep + ReplaceAll(s[|pat|..], pat, rep)
  {
  }

  /**
    When `pat` occurs in `s` only at index `k`, `replace` cuts out exactly that
    one occurrence.
   */
  lemma {:induction false} ReplaceAllSingle(s: string, pat: string, rep: string, k: nat)
    requires pat != []
    requires OccursAt(s, pat, k)
    requires forall i :: i != k ==> !OccursAt(s, pat, i)
    ensures ReplaceAll(s, pat, rep) == s[..k] + rep + s[k + |pat|..]
    decreases k
  {
    if k == 0 {
      var t := s[|pat|..];
      forall i | 0 <= i ensures !OccursAt(t, pat, i) {
        OccursAtSuffix(s, pat, |pat|, i);
      }
      ReplaceAllAbsent(t, pat, rep);
      ReplaceAllHit(s, pat, rep);
    } else {
      var t := s[1..];
      OccursAtSuffix(s, pat, 1, k - 1);
      forall i | 0 <= i && i != k - 1 ensures !OccursAt(t, pat, i) {
        OccursAtSuffix(s, pat, 1, i);
      }
      ReplaceAllSingle(t, pat, rep, k - 1);
      ReplaceAllSkip(s, pat, rep);
      ConsSplice(s, k, k + |pat|, rep);
    }
  }

  /** Putting the first character back in front of a splice of the tail is the splice of the whole. */
  lemma ConsSplice(s: string, k: nat, m: nat, rep: string)
    requires 0 < k <= m <= |s|
    ensures [s[0]] + (s[1..][..k - 1] + rep + s[1..][m - 1..]) == s[..k] + rep + s[m..]
  {
    var t := s[1..];
    assert s[..k] == [s[0]] + t[..k - 1];
    assert s[m..] == t[m - 1..];
  }
}
