/** The handful of Python `str` operations the messenger's protocol relies on:
    `strip()`, `split(":")[1]`, the test `": " in msg`, `split(": ", 1)` and the
    code-point order that `sorted` uses on strings. */
module Text {

  /** Python's `str.isspace`: the characters `strip()` removes. */
  predicate IsSpace(c: char) {
    || c == ' '
    || ('\t' <= c <= '\r')
    || ('\U{1C}' <= c <= '\U{1F}')
    || c == '\U{85}' || c == '\U{A0}' || c == '\U{1680}'
    || ('\U{2000}' <= c <= '\U{200A}')
    || c == '\U{2028}' || c == '\U{2029}' || c == '\U{202F}'
    || c == '\U{205F}' || c == '\U{3000}'
  }

  predicate AllSpace(s: string) {
    forall k :: 0 <= k < |s| ==> IsSpace(s[k])
  }

  /** `s` without its leading whitespace. */
  function LStrip(s: string): (r: string)
    ensures |r| <= |s| && r == s[|s| - |r|..]
    ensures AllSpace(s[..|s| - |r|])
    ensures r != [] ==> !IsSpace(r[0])
  {
    if s != [] && IsSpace(s[0]) then
      var t := s[1..];
      var r := LStrip(t);
      assert s[|s| - |r|..] == t[|t| - |r|..];
      assert forall k :: 1 <= k < |s| - |r| ==> s[k] == t[..|t| - |r|][k - 1];
      r
    else s
  }

  /** `s` without its trailing whitespace. */
  function RStrip(s: string): (r: string)
    ensures |r| <= |s| && r == s[..|r|]
    ensures AllSpace(s[|r|..])
    ensures r != [] ==> !IsSpace(r[|r| - 1])
  {
    if s != [] && IsSpace(s[|s| - 1]) then
      var t := s[..|s| - 1];
      var r := RStrip(t);
      assert s[..|r|] == t[..|r|];
      assert forall k :: |r| <= k < |s| - 1 ==> s[k] == t[|r|..][k - |r|];
      r
    else s
  }

  /** Python's `s.strip()`: the slice of `s` left once its leading and trailing
      whitespace is cut off; it neither starts nor ends with whitespace, and is
      empty exactly when `s` is all whitespace. */
  function Strip(s: string): (r: string)
    ensures |r| <= |s|
    ensures r == [] <==> AllSpace(s)
    ensures r != [] ==> !IsSpace(r[0]) && !IsSpace(r[|r| - 1])
  {
    StripShape(s);
    RStrip(LStrip(s))
  }

  lemma StripShape(s: string)
    ensures RStrip(LStrip(s)) == [] <==> AllSpace(s)
  {
    var l := LStrip(s);
    var n := |s| - |l|;
    if RStrip(l) == [] {
      assert AllSpace(l[0..]);
      assert AllSpace(s[..n]);
      forall k | 0 <= k < |s| ensures IsSpace(s[k]) {
        if k < n {
          assert s[k] == s[..n][k];
        } else {
          assert s[k] == l[k - n];
        }
      }
    } else {
      assert l[0] == s[n];
    }
  }

  /** `strip()` removes whitespace only at the ends: its result is the slice of
      `s` between a whitespace prefix and a whitespace suffix. */
  lemma StripIsSlice(s: string)
    ensures exists i, j :: 0 <= i <= j <= |s| && Strip(s) == s[i..j]
              && AllSpace(s[..i]) && AllSpace(s[j..])
  {
    var l := LStrip(s);
    var n := |s| - |l|;
    var r := RStrip(l);
    assert s[n..n + |r|] == l[..|r|];
    assert s[n + |r|..] == l[|r|..];
    assert Strip(s) == s[n..n + |r|];
  }

  /** Index of the first `c` in `s`, or `|s|` when there is none. */
  function IndexOf(s: string, c: char): (i: nat)
    ensures i <= |s|
    ensures forall k :: 0 <= k < i ==> s[k] != c
    ensures i < |s| ==> s[i] == c
  {
    if s == [] then 0
    else if s[0] == c then 0
    else 1 + IndexOf(s[1..], c)
  }

  /** Python's `s.split(":")[1]`: the text after the first colon, up to the
      next colon or the end. Python raises an IndexError when `s` has no colon. */
  function SecondField(s: string): (r: string)
    requires ':' in s
    ensures ':' !in r
  {
    var i := IndexOf(s, ':');
    var rest := s[i + 1..];
    rest[..IndexOf(rest, ':')]
  }

  /** `split(":")[1]` of `head:field` followed by nothing or by another
      colon-started tail is `field`. */
  lemma {:induction false} SecondFieldOf(head: string, field: string, tail: string)
    requires ':' !in head && ':' !in field
    requires tail == [] || tail[0] == ':'
    ensures SecondField(head + [':'] + field + tail) == field
  {
    var s := head + [':'] + field + tail;
    assert s[|head|] == ':';
    var i := IndexOf(s, ':');
    assert forall k :: 0 <= k < |head| ==> s[k] == head[k];
    assert i == |head|;
    assert s == (head + [':']) + (field + tail);
    var rest := s[i + 1..];
    assert rest == field + tail;
    var j := IndexOf(rest, ':');
    assert forall k :: 0 <= k < |field| ==> rest[k] == field[k];
    assert |field| < |rest| ==> rest[|field|] == ':';
    assert j == |field|;
  }

  /** The two-character chat separator `": "` starts at index `i` of `s`. */
  predicate SepAt(s: string, i: int) {
    0 <= i && i + 1 < |s| && s[i] == ':' && s[i + 1] == ' '
  }

  /** Index of the first `": "` in `s`, or `|s|` when there is none
      (so Python's `": " in s` is `FirstSep(s) < |s|`). */
  function FirstSep(s: string): (i: nat)
    ensures i <= |s|
    ensures forall k :: 0 <= k < i ==> !SepAt(s, k)
    ensures i < |s| ==> SepAt(s, i)
    ensures i == |s| ==> forall k :: !SepAt(s, k)
  {
    if |s| < 2 then |s|
    else if s[0] == ':' && s[1] == ' ' then 0
    else
      var j := FirstSep(s[1..]);
      assert forall k :: 1 <= k < 1 + j ==> (SepAt(s, k) <==> SepAt(s[1..], k - 1));
      assert j < |s| - 1 ==> SepAt(s[1..], j);
      1 + j
  }

  /** Python's `s.split(": ", 1)` when `": " in s`: the text before the first
      separator and everything after it. */
  function SplitSep(s: string): (parts: (string, string))
    requires FirstSep(s) < |s|
    ensures s == parts.0 + ": " + parts.1
    ensures FirstSep(parts.0) == |parts.0|
  {
    var i := FirstSep(s);
    var before := s[..i];
    assert forall k :: SepAt(before, k) ==> SepAt(s, k);
    (before, s[i + 2..])
  }

  /** The separator a joined text `a + ": " + b` is split at is the one the join
      inserted, provided `a` holds no separator of its own. */
  lemma {:induction false} SplitSepOf(a: string, b: string)
    requires FirstSep(a) == |a|
    ensures FirstSep(a + ": " + b) == |a|
    ensures SplitSep(a + ": " + b) == (a, b)
  {
    var s := a + ": " + b;
    assert SepAt(s, |a|);
    var i := FirstSep(s);
    assert forall k :: 0 <= k < |a| - 1 ==> (SepAt(s, k) <==> SepAt(a, k));
    assert !SepAt(s, |a| - 1);
    assert i == |a|;
    assert s[..|a|] == a;
    assert s[|a| + 2..] == b;
  }

  /** Python's `<` on strings: code-point lexicographic order, in which a
      proper prefix comes first and no string precedes itself. */
  predicate LexLess(a: string, b: string): (r: bool)
    ensures a < b ==> r
    ensures r ==> a != b
  {
    if b == [] then false
    else if a == [] then true
    else if a[0] != b[0] then a[0] < b[0]
    else LexLess(a[1..], b[1..])
  }

  lemma {:induction false} LexLessIrreflexive(a: string)
    ensures !LexLess(a, a)
  {
    if a != [] { LexLessIrreflexive(a[1..]); }
  }

  lemma {:induction false} LexLessTransitive(a: string, b: string, c: string)
    requires LexLess(a, b) && LexLess(b, c)
    ensures LexLess(a, c)
  {
    if a != [] && a[0] == b[0] && b[0] == c[0] {
      LexLessTransitive(a[1..], b[1..], c[1..]);
    }
  }

  lemma {:induction false} LexLessTotal(a: string, b: string)
    requires a != b
    ensures LexLess(a, b) || LexLess(b, a)
  {
    if a != [] && b != [] && a[0] == b[0] {
      assert a == [a[0]] + a[1..] && b == [b[0]] + b[1..];
      LexLessTotal(a[1..], b[1..]);
    }
  }

  lemma LexLessAsymmetric(a: string, b: string)
    requires LexLess(a, b)
    ensures !LexLess(b, a)
  {
    if LexLess(b, a) {
      LexLessTransitive(a, b, a);
      LexLessIrreflexive(a);
    }
  }

  /** Concatenation is associative (stated once, so that proofs need not
      rediscover it element by element). */
  lemma AppendAssoc<T>(a: seq<T>, b: seq<T>, c: seq<T>)
    ensures (a + b) + c == a + (b + c)
  {
  }
}
