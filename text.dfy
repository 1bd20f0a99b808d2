/**
 * The handful of Python `str` operations the chat backend relies on, as
 * functions on `seq<char>`: `strip`, `in`, `find`, `startswith`,
 * `split(sep)[0]`, `split(sep, 1)[1]`, `replace(old, "")`,
 * `replace(old, "", 1)`, `lower`, `split()` and `sep.join`.
 */
module Text {
  import opened Wrappers

  /** Python's `str.isspace` for one code point; `strip()` and `split()` use it. */
  predicate IsSpace(c: char) {
    ('\t' <= c <= '\r') || ('\U{1C}' <= c <= '\U{1F}') || c == ' '
    || c == '\U{85}' || c == '\U{A0}' || c == '\U{1680}'
    || ('\U{2000}' <= c <= '\U{200A}') || c == '\U{2028}' || c == '\U{2029}'
    || c == '\U{202F}' || c == '\U{205F}' || c == '\U{3000}'
  }

  predicate AllSpace(s: string) {
    forall i :: 0 <= i < |s| ==> IsSpace(s[i])
  }

  /** Neither end of `s` is whitespace. */
  predicate IsTrimmed(s: string) {
    s == [] || (!IsSpace(s[0]) && !IsSpace(s[|s| - 1]))
  }

  /** `s.lstrip()`: a suffix of `s`, everything dropped is whitespace. */
  function TrimStart(s: string): (r: string)
    ensures |r| <= |s| && r == s[|s| - |r|..]
    ensures AllSpace(s[..|s| - |r|])
    ensures r != [] ==> !IsSpace(r[0])
  {
    if s != [] && IsSpace(s[0]) then
      var t := s[1..];
      var r := TrimStart(t);
      assert r == s[|s| - |r|..] by { assert t[|t| - |r|..] == s[|s| - |r|..]; }
      assert s[..|s| - |r|] == [s[0]] + t[..|t| - |r|];
      r
    else s
  }

  /** `s.rstrip()`: a prefix of `s`, everything dropped is whitespace. */
  function TrimEnd(s: string): (r: string)
    ensures |r| <= |s| && r == s[..|r|]
    ensures AllSpace(s[|r|..])
    ensures r != [] ==> !IsSpace(r[|r| - 1])
  {
    if s != [] && IsSpace(s[|s| - 1]) then
      var t := s[..|s| - 1];
      var r := TrimEnd(t);
      assert r == s[..|r|] by { assert t[..|r|] == s[..|r|]; }
      assert s[|r|..] == t[|r|..] + [s[|s| - 1]];
      r
    else s
  }

  /** `s.strip()`: whitespace removed from both ends; what is left starts and ends with non-whitespace. */
  function Strip(s: string): (r: string)
    ensures |r| <= |s|
    ensures IsTrimmed(r)
  {
    TrimEnd(TrimStart(s))
  }

  /** A prefix `r` of the suffix `s[i..]`, followed there by whitespace only, sits at `i` in `s`. */
  lemma {:induction false} PrefixOfSuffix(s: string, i: nat, t: string, r: string)
    requires i <= |s| && t == s[i..] && |r| <= |t| && r == t[..|r|] && AllSpace(t[|r|..])
    ensures i + |r| <= |s| && r == s[i..i + |r|] && AllSpace(s[i + |r|..])
  {
    forall k | 0 <= k < |r|
      ensures r[k] == s[i + k]
    {
      assert r[k] == t[k];
    }
    var w, w' := s[i + |r|..], t[|r|..];
    forall k | 0 <= k < |w|
      ensures IsSpace(w[k])
    {
      assert w[k] == w'[k];
    }
  }

  /** What `strip()` keeps is the infix of `s` between a leading and a trailing run of whitespace. */
  lemma {:induction false} StripIsInfix(s: string) returns (i: nat)
    ensures i + |Strip(s)| <= |s| && Strip(s) == s[i..i + |Strip(s)|]
    ensures AllSpace(s[..i]) && AllSpace(s[i + |Strip(s)|..])
  {
    var t := TrimStart(s);
    var r := TrimEnd(t);
    i := |s| - |t|;
    PrefixOfSuffix(s, i, t, r);
  }

  /** Stripping a string that is already trimmed changes nothing. */
  lemma {:induction false} StripTrimmed(s: string)
    requires IsTrimmed(s)
    ensures Strip(s) == s
  {
  }

  /** `strip()` is idempotent. */
  lemma {:induction false} StripIdempotent(s: string)
    ensures Strip(Strip(s)) == Strip(s)
  {
    StripTrimmed(Strip(s));
  }

  /** `p` occurs in `s` at offset `i`. */
  predicate OccursAt(s: string, p: string, i: int) {
    0 <= i && i + |p| <= |s| && s[i..i + |p|] == p
  }

  /** `s.find(p, k)`, as an option: the first occurrence of `p` at or after `k`. */
  function FindFrom(s: string, p: string, k: nat): (r: Option<nat>)
    decreases |s| - k
    ensures r.Some? ==> k <= r.value && OccursAt(s, p, r.value)
    ensures r.Some? ==> forall j :: k <= j < r.value ==> !OccursAt(s, p, j)
    ensures r.None? ==> forall j :: k <= j ==> !OccursAt(s, p, j)
  {
    if k + |p| > |s| then None
    else if s[k..k + |p|] == p then Some(k)
    else FindFrom(s, p, k + 1)
  }

  /** `s.find(p)`, as an option: the offset of the first occurrence of `p`. */
  function Find(s: string, p: string): (r: Option<nat>)
    ensures r.Some? ==> OccursAt(s, p, r.value)
                        && forall j :: 0 <= j < r.value ==> !OccursAt(s, p, j)
    ensures r.None? ==> forall j :: !OccursAt(s, p, j)
  {
    FindFrom(s, p, 0)
  }

  /** Python's `p in s`. */
  predicate Contains(s: string, p: string) {
    Find(s, p).Some?
  }

  /** `p in s` holds exactly when `p` occurs somewhere in `s`. */
  lemma {:induction false} ContainsIff(s: string, p: string)
    ensures Contains(s, p) <==> exists i :: OccursAt(s, p, i)
  {
  }

  /** A string that does not contain `p` has no infix that contains `p`. */
  lemma {:induction false} InfixNotContains(s: string, p: string, a: nat, b: nat)
    requires a <= b <= |s|
    requires !Contains(s, p)
    ensures !Contains(s[a..b], p)
  {
    var t := s[a..b];
    forall i ensures !OccursAt(t, p, i) {
      if 0 <= i && i + |p| <= |t| {
        var u, v := t[i..i + |p|], s[a + i..a + i + |p|];
        forall k | 0 <= k < |p| ensures u[k] == v[k] {
          assert u[k] == t[i + k] == s[a + i + k];
        }
        assert u == v;
        assert !OccursAt(s, p, a + i);
      }
    }
    ContainsIff(t, p);
  }

  /** Stripping cannot create an occurrence. */
  lemma {:induction false} StripNotContains(s: string, p: string)
    requires !Contains(s, p)
    ensures !Contains(Strip(s), p)
  {
    var t := TrimStart(s);
    InfixNotContains(s, p, |s| - |t|, |s|);
    assert s[|s| - |t|..|s|] == t;
    var r := TrimEnd(t);
    InfixNotContains(t, p, 0, |r|);
    assert t[0..|r|] == r;
  }

  /** If `q` contains `p`, a string without `p` cannot contain `q`. */
  lemma {:induction false} NotContainsOuter(s: string, q: string, p: string)
    requires Contains(q, p) && !Contains(s, p)
    ensures !Contains(s, q)
  {
    var j := Find(q, p).value;
    forall i ensures !OccursAt(s, q, i) {
      if 0 <= i && i + |q| <= |s| {
        assert !OccursAt(s, p, i + j);
        var w := s[i..i + |q|];
        var u, v := w[j..j + |p|], s[i + j..i + j + |p|];
        forall k | 0 <= k < |p| ensures u[k] == v[k] {
          assert u[k] == w[j + k] == s[i + j + k];
        }
        assert u == v;
      }
    }
    ContainsIff(s, q);
  }

  /** `s.startswith(p)`. */
  predicate StartsWith(s: string, p: string) {
    |p| <= |s| && s[..|p|] == p
  }

  /** `s.split(p)[0]`: everything before the first occurrence of `p`, or all of `s`. */
  function Before(s: string, p: string): (r: string)
    ensures |r| <= |s| && r == s[..|r|]
    ensures Contains(s, p) ==> OccursAt(s, p, |r|)
    ensures forall j :: 0 <= j < |r| ==> !OccursAt(s, p, j)
    ensures !Contains(s, p) ==> r == s
  {
    match Find(s, p)
    case Some(i) => s[..i]
    case None => s
  }

  /** What is before the first occurrence of a non-empty `p` no longer contains `p`. */
  lemma {:induction false} BeforeNotContains(s: string, p: string)
    requires p != []
    ensures !Contains(Before(s, p), p)
  {
    var r := Before(s, p);
    forall j ensures !OccursAt(r, p, j) {
      if 0 <= j && j + |p| <= |r| {
        assert r[j..j + |p|] == s[j..j + |p|];
        assert !OccursAt(s, p, j);
      }
    }
    ContainsIff(r, p);
  }

  /** `s.split(p, 1)[1]`: everything after the first occurrence of `p`. */
  function After(s: string, p: string): (r: string)
    requires Contains(s, p)
    ensures |r| <= |s| - |p|
    ensures r == s[|s| - |r|..] && OccursAt(s, p, |s| - |r| - |p|)
    ensures forall j :: 0 <= j < |s| - |r| - |p| ==> !OccursAt(s, p, j)
  {
    var i := Find(s, p).value;
    s[i + |p|..]
  }

  /** `Before` and `After` split `s` around the first occurrence of `p`. */
  lemma {:induction false} BeforeAfter(s: string, p: string)
    requires Contains(s, p)
    ensures Before(s, p) + p + After(s, p) == s
  {
    var i := Find(s, p).value;
    assert s == s[..i] + s[i..i + |p|] + s[i + |p|..];
  }

  /** `s.replace(p, "")`: every non-overlapping occurrence of `p`, scanning left to right, removed. */
  function RemoveAll(s: string, p: string): (r: string)
    requires p != []
    ensures |r| <= |s|
    ensures !Contains(s, p) ==> r == s
    decreases |s|
  {
    if |s| < |p| then s
    else if s[..|p|] == p then RemoveAll(s[|p|..], p)
    else
      var rest := s[1..];
      assert !Contains(s, p) ==> !Contains(rest, p) by {
        if Contains(rest, p) {
          var j := Find(rest, p).value;
          var u, v := rest[j..j + |p|], s[j + 1..j + 1 + |p|];
          forall k | 0 <= k < |p| ensures u[k] == v[k] {
            assert u[k] == rest[j + k] == s[j + 1 + k];
          }
          assert u == v;
          assert OccursAt(s, p, j + 1);
        }
      }
      [s[0]] + RemoveAll(rest, p)
  }

  /** When `s` does not start with `p`, its first occurrence in `s[1..]` is one place further left. */
  lemma {:induction false} FindPastFirst(s: string, p: string)
    requires Contains(s, p) && !OccursAt(s, p, 0)
    ensures Contains(s[1..], p) && Find(s[1..], p).value + 1 == Find(s, p).value
  {
    var i := Find(s, p).value;
    var t := s[1..];
    assert t[i - 1..i - 1 + |p|] == s[i..i + |p|];
    assert OccursAt(t, p, i - 1);
    forall j | 0 <= j < i - 1
      ensures !OccursAt(t, p, j)
    {
      if OccursAt(t, p, j) {
        assert t[j..j + |p|] == s[j + 1..j + 1 + |p|];
        assert OccursAt(s, p, j + 1);
      }
    }
  }

  /** Splitting around the first `p` of `s` and of `s[1..]` differ only in `s[0]`. */
  lemma {:induction false} SplitPastFirst(s: string, p: string)
    requires Contains(s, p) && !OccursAt(s, p, 0)
    ensures Contains(s[1..], p)
    ensures Before(s, p) == [s[0]] + Before(s[1..], p)
    ensures After(s, p) == After(s[1..], p)
  {
    FindPastFirst(s, p);
  }

  lemma {:induction false} RemoveAllScanAtStart(s: string, p: string)
    requires p != [] && OccursAt(s, p, 0)
    ensures Contains(s, p)
    ensures RemoveAll(s, p) == Before(s, p) + RemoveAll(After(s, p), p)
  {
    assert Find(s, p).value == 0;
    assert Before(s, p) == [] && After(s, p) == s[|p|..];
  }

  lemma {:induction false} RemoveAllPastFirst(s: string, p: string)
    requires p != [] && |p| <= |s| && !OccursAt(s, p, 0)
    ensures RemoveAll(s, p) == [s[0]] + RemoveAll(s[1..], p)
  {
    assert s[..|p|] != p by { assert s[..|p|] == s[0..|p|]; }
  }

  lemma {:induction false} ConsAppend(c: char, x: string, y: string, b: string, b': string, rest: string)
    requires x == [c] + y && y == b + rest && b' == [c] + b
    ensures x == b' + rest
  {
    assert [c] + (b + rest) == ([c] + b) + rest;
  }

  /** The scan step past a first character that does not start `p`. */
  lemma {:induction false} RemoveAllScanPast(s: string, p: string)
    requires p != [] && Contains(s, p) && !OccursAt(s, p, 0)
    requires Contains(s[1..], p)
    requires RemoveAll(s[1..], p) == Before(s[1..], p) + RemoveAll(After(s[1..], p), p)
    ensures RemoveAll(s, p) == Before(s, p) + RemoveAll(After(s, p), p)
  {
    var t := s[1..];
    SplitPastFirst(s, p);
    RemoveAllPastFirst(s, p);
    ConsAppend(s[0], RemoveAll(s, p), RemoveAll(t, p), Before(t, p), Before(s, p), RemoveAll(After(t, p), p));
  }

  /**
   * `s.replace(p, "")` keeps what precedes the first occurrence of `p`, drops
   * that occurrence and carries on after it.
   */
  lemma {:induction false} RemoveAllScan(s: string, p: string)
    requires p != [] && Contains(s, p)
    ensures RemoveAll(s, p) == Before(s, p) + RemoveAll(After(s, p), p)
    decreases |s|
  {
    if OccursAt(s, p, 0) {
      RemoveAllScanAtStart(s, p);
    } else {
      FindPastFirst(s, p);
      RemoveAllScan(s[1..], p);
      RemoveAllScanPast(s, p);
    }
  }

  /** `s.replace(p, "", 1)`: the first occurrence of `p` removed, if there is one. */
  function RemoveFirst(s: string, p: string): (r: string)
    ensures Contains(s, p) ==> |r| == |s| - |p|
    ensures Contains(s, p) ==> r == Before(s, p) + After(s, p)
    ensures !Contains(s, p) ==> r == s
  {
    match Find(s, p)
    case Some(i) => s[..i] + s[i + |p|..]
    case None => s
  }

  function LowerChar(c: char): char {
    if 'A' <= c <= 'Z' then c - 'A' + 'a' else c
  }

  /** `s.lower()` on ASCII letters; every other code point is kept. */
  function Lower(s: string): (r: string)
    ensures |r| == |s|
    ensures forall i :: 0 <= i < |s| ==> r[i] == LowerChar(s[i])
  {
    seq(|s|, i requires 0 <= i < |s| => LowerChar(s[i]))
  }

  /** The length of the leading run of non-whitespace of `s`. */
  function WordLength(s: string): (n: nat)
    ensures n <= |s|
    ensures forall i :: 0 <= i < n ==> !IsSpace(s[i])
    ensures n < |s| ==> IsSpace(s[n])
  {
    if s == [] || IsSpace(s[0]) then 0 else 1 + WordLength(s[1..])
  }

  /** A non-empty run of non-whitespace. */
  predicate IsWord(s: string) {
    s != [] && forall i :: 0 <= i < |s| ==> !IsSpace(s[i])
  }

  /** `s.split()`: the maximal runs of non-whitespace of `s`, in order. */
  function Words(s: string): seq<string>
    decreases |s|
  {
    var t := TrimStart(s);
    if t == [] then []
    else
      var n := WordLength(t);
      assert n > 0 by { assert !IsSpace(t[0]); }
      [t[..n]] + Words(t[n..])
  }

  /** The non-whitespace characters of `s`, in order. */
  function NonSpace(s: string): string {
    if s == [] then []
    else (if IsSpace(s[0]) then [] else [s[0]]) + NonSpace(s[1..])
  }

  function Concat(ws: seq<string>): string {
    if ws == [] then [] else ws[0] + Concat(ws[1..])
  }

  lemma {:induction false} NonSpaceAppend(a: string, b: string)
    ensures NonSpace(a + b) == NonSpace(a) + NonSpace(b)
    decreases |a|
  {
    if a == [] {
      assert a + b == b;
    } else {
      assert (a + b)[1..] == a[1..] + b;
      NonSpaceAppend(a[1..], b);
    }
  }

  lemma {:induction false} NonSpaceOfSpace(s: string)
    requires AllSpace(s)
    ensures NonSpace(s) == []
    decreases |s|
  {
    if s != [] {
      NonSpaceOfSpace(s[1..]);
    }
  }

  lemma {:induction false} NonSpaceOfWord(s: string)
    requires forall i :: 0 <= i < |s| ==> !IsSpace(s[i])
    ensures NonSpace(s) == s
    decreases |s|
  {
    if s != [] {
      NonSpaceOfWord(s[1..]);
    }
  }

  /** Leading whitespace contributes no non-whitespace. */
  lemma {:induction false} NonSpaceTrimStart(s: string)
    ensures NonSpace(TrimStart(s)) == NonSpace(s)
    decreases |s|
  {
    if s != [] && IsSpace(s[0]) {
      NonSpaceTrimStart(s[1..]);
    }
  }

  /** The leading word of `t` is its first non-whitespace. */
  lemma {:induction false} NonSpaceLeadingWord(t: string)
    ensures NonSpace(t) == t[..WordLength(t)] + NonSpace(t[WordLength(t)..])
  {
    var n := WordLength(t);
    assert t == t[..n] + t[n..];
    NonSpaceAppend(t[..n], t[n..]);
    NonSpaceOfWord(t[..n]);
  }

  /** The words of `s`, run together, are exactly its non-whitespace characters. */
  lemma {:induction false} WordsCoverNonSpace(s: string)
    ensures Concat(Words(s)) == NonSpace(s)
    decreases |s|
  {
    var t := TrimStart(s);
    NonSpaceTrimStart(s);
    if t != [] {
      var n := WordLength(t);
      NonSpaceLeadingWord(t);
      WordsCoverNonSpace(t[n..]);
      assert Words(s) == [t[..n]] + Words(t[n..]);
    }
  }

  /** Every piece `split()` returns is a non-empty run of non-whitespace. */
  lemma {:induction false} WordsAreWords(s: string)
    ensures forall k :: 0 <= k < |Words(s)| ==> IsWord(Words(s)[k])
    decreases |s|
  {
    var t := TrimStart(s);
    if t != [] {
      var n := WordLength(t);
      assert !IsSpace(t[0]);
      var w, rest := t[..n], Words(t[n..]);
      WordsAreWords(t[n..]);
      assert Words(s) == [w] + rest;
      forall k | 0 <= k < |Words(s)|
        ensures IsWord(Words(s)[k])
      {
        if k > 0 {
          assert Words(s)[k] == rest[k - 1];
        }
      }
    }
  }

  /**
   * The number of places where a word starts in `s`: a non-whitespace
   * character that follows whitespace, or that opens `s` when `afterSpace`.
   */
  function WordStarts(s: string, afterSpace: bool): nat
    decreases |s|
  {
    if s == [] then 0
    else (if afterSpace && !IsSpace(s[0]) then 1 else 0) + WordStarts(s[1..], IsSpace(s[0]))
  }

  lemma {:induction false} WordStartsTrimStart(s: string)
    ensures WordStarts(TrimStart(s), true) == WordStarts(s, true)
    decreases |s|
  {
    if s != [] && IsSpace(s[0]) {
      WordStartsTrimStart(s[1..]);
    }
  }

  /** A run of `n` non-whitespace characters holds one word start at most, at its first character. */
  lemma {:induction false} WordStartsOfRun(t: string, n: nat, afterSpace: bool)
    requires 0 < n <= |t| && forall i :: 0 <= i < n ==> !IsSpace(t[i])
    ensures WordStarts(t, afterSpace) == (if afterSpace then 1 else 0) + WordStarts(t[n..], false)
    decreases n
  {
    if n > 1 {
      WordStartsOfRun(t[1..], n - 1, false);
      assert t[1..][n - 1..] == t[n..];
    }
  }

  lemma {:induction false} WordStartsAfterSpace(s: string)
    requires s == [] || IsSpace(s[0])
    ensures WordStarts(s, false) == WordStarts(s, true)
  {
  }

  /** `split()` of a string with some non-whitespace: its leading word, then the words after it. */
  lemma {:induction false} WordsStep(s: string, t: string, n: nat)
    requires t == TrimStart(s) && t != [] && n == WordLength(t)
    ensures IsWord(t[..n]) && Words(s) == [t[..n]] + Words(t[n..])
  {
    assert !IsSpace(t[0]);
  }

  /** `len(s.split())` is the number of places where a word starts in `s`. */
  lemma {:induction false} WordCount(s: string)
    ensures |Words(s)| == WordStarts(s, true)
    decreases |s|
  {
    var t := TrimStart(s);
    WordStartsTrimStart(s);
    if t != [] {
      var n := WordLength(t);
      WordsStep(s, t, n);
      WordStartsOfRun(t, n, true);
      WordStartsAfterSpace(t[n..]);
      WordCount(t[n..]);
    }
  }

  /** A word followed by whitespace or the end of the string is the leading run of non-whitespace. */
  lemma {:induction false} WordLengthOfWord(w: string, rest: string)
    requires IsWord(w) && (rest == [] || IsSpace(rest[0]))
    ensures WordLength(w + rest) == |w|
    decreases |w|
  {
    if |w| > 1 {
      assert (w + rest)[1..] == w[1..] + rest;
      WordLengthOfWord(w[1..], rest);
    } else {
      assert (w + rest)[1..] == rest;
    }
  }

  /** `split()` takes a leading word off as its first piece. */
  lemma {:induction false} WordsCons(w: string, rest: string)
    requires IsWord(w) && (rest == [] || IsSpace(rest[0]))
    ensures Words(w + rest) == [w] + Words(rest)
  {
    var s := w + rest;
    assert TrimStart(s) == s;
    WordLengthOfWord(w, rest);
    assert s[..|w|] == w && s[|w|..] == rest;
  }

  /** `split()` ignores a leading whitespace character. */
  lemma {:induction false} WordsSpaceCons(c: char, rest: string)
    requires IsSpace(c)
    ensures Words([c] + rest) == Words(rest)
  {
    assert ([c] + rest)[1..] == rest;
  }

  /** Two strings with whitespace at the same positions. */
  predicate SameSpacing(s: string, t: string) {
    |s| == |t| && forall i :: 0 <= i < |s| ==> (IsSpace(s[i]) <==> IsSpace(t[i]))
  }

  lemma {:induction false} TrimStartSameSpacing(s: string, t: string)
    requires SameSpacing(s, t)
    ensures SameSpacing(TrimStart(s), TrimStart(t))
    decreases |s|
  {
    if s != [] && IsSpace(s[0]) {
      TrimStartSameSpacing(s[1..], t[1..]);
    }
  }

  lemma {:induction false} WordLengthSameSpacing(s: string, t: string)
    requires SameSpacing(s, t)
    ensures WordLength(s) == WordLength(t)
    decreases |s|
  {
    if s != [] && !IsSpace(s[0]) {
      WordLengthSameSpacing(s[1..], t[1..]);
    }
  }

  /** `split()` counts the same number of words in strings spaced alike. */
  lemma {:induction false} WordCountSameSpacing(s: string, t: string)
    requires SameSpacing(s, t)
    ensures |Words(s)| == |Words(t)|
    decreases |s|
  {
    var s', t' := TrimStart(s), TrimStart(t);
    TrimStartSameSpacing(s, t);
    if s' != [] {
      WordLengthSameSpacing(s', t');
      var n := WordLength(s');
      WordCountSameSpacing(s'[n..], t'[n..]);
    }
  }

  /** `sep.join(xs)`: never empty when its first piece is not. */
  function Join(xs: seq<string>, sep: string): (r: string)
    ensures xs != [] && xs[0] != [] ==> r != []
  {
    if xs == [] then []
    else if |xs| == 1 then xs[0]
    else xs[0] + sep + Join(xs[1..], sep)
  }

  /** A word, a space and more: `split()` gives the word, then the words of the rest. */
  lemma {:induction false} WordsSpaced(w: string, rest: string)
    requires IsWord(w)
    ensures Words(w + ([' '] + rest)) == [w] + Words(rest)
  {
    WordsCons(w, [' '] + rest);
    WordsSpaceCons(' ', rest);
  }

  /** `" ".join` of two or more pieces: the first, a space, then the join of the rest. */
  lemma {:induction false} JoinSpaceCons(ws: seq<string>)
    requires |ws| > 1
    ensures Join(ws, " ") == ws[0] + ([' '] + Join(ws[1..], " "))
  {
  }

  /** `split()` undoes `" ".join` on words: `" ".join(ws).split() == ws`. */
  lemma {:induction false} WordsOfJoin(ws: seq<string>)
    requires forall k :: 0 <= k < |ws| ==> IsWord(ws[k])
    ensures Words(Join(ws, " ")) == ws
    decreases |ws|
  {
    if |ws| == 1 {
      WordsCons(ws[0], []);
      assert ws[0] + [] == ws[0];
    } else if |ws| > 1 {
      var tail := ws[1..];
      WordsOfJoin(tail);
      JoinSpaceCons(ws);
      WordsSpaced(ws[0], Join(tail, " "));
      assert ws == [ws[0]] + tail;
    }
  }
}
