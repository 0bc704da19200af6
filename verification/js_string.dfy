/** The parts of the JavaScript string library that the file-name formatter
    relies on: `split(' ')`, `slice`, `trim`, and `join(' ')` as the inverse
    of `split`.

    A JavaScript string is a sequence of UTF-16 code units and `length`
    counts code units. Here a `string` is a `seq<char>` and a `char` is a
    Unicode scalar value. The two agree on characters of the Basic
    Multilingual Plane; a character outside it is one `char` here where
    JavaScript counts two code units, and a lone surrogate has no `char`. */
module JsString {

  const Space: char := ' '

  function Min(a: int, b: int): (m: int)
    ensures m <= a && m <= b
    ensures m == a || m == b
  {
    if a <= b then a else b
  }

  /** The code points `String.prototype.trim` removes: ECMAScript WhiteSpace
      (tab, vertical tab, form feed, the byte order mark and every space
      separator of Unicode category Zs) and LineTerminator (line feed,
      carriage return, line separator, paragraph separator). */
  const WhiteSpaceChars: set<char> := {
    '\t', '\n', '\U{000B}', '\U{000C}', '\r', ' ', '\U{00A0}', '\U{1680}',
    '\U{2028}', '\U{2029}', '\U{202F}', '\U{205F}', '\U{3000}', '\U{FEFF}'
  }

  predicate IsWhiteSpace(c: char) {
    c in WhiteSpaceChars || '\U{2000}' <= c <= '\U{200A}'
  }

  predicate AllWhiteSpace(s: string) {
    forall i :: 0 <= i < |s| ==> IsWhiteSpace(s[i])
  }

  predicate AllSpaces(s: string) {
    forall i :: 0 <= i < |s| ==> s[i] == Space
  }

  predicate AllEmpty(words: seq<string>) {
    forall i :: 0 <= i < |words| ==> words[i] == ""
  }

  // ---------------------------------------------------------------------------
  // split(' ') and join(' ')
  // ---------------------------------------------------------------------------

  /** `s.split(' ')`: cuts at every single space character. Leading,
      trailing and repeated spaces give empty words, no word contains a
      space, and the result always has at least one word (`"".split(' ')` is
      `[""]`). */
  function Split(s: string): (words: seq<string>)
    ensures |words| >= 1
    ensures forall i :: 0 <= i < |words| ==> Space !in words[i]
  {
    if s == "" then [""]
    else if s[0] == Space then [""] + Split(s[1..])
    else
      var rest := Split(s[1..]);
      [[s[0]] + rest[0]] + rest[1..]
  }

  /** `words.join(' ')` on the non-empty word lists `Split` produces. */
  function Join(words: seq<string>): string
    requires |words| >= 1
  {
    if |words| == 1 then words[0] else words[0] + [Space] + Join(words[1..])
  }

  /** Splitting and joining again gives back the string. */
  lemma {:induction false} JoinSplit(s: string)
    ensures Join(Split(s)) == s
    decreases |s|
  {
    if s == "" {
    } else if s[0] == Space {
      JoinSplit(s[1..]);
      var rest := Split(s[1..]);
      assert ([""] + rest)[1..] == rest;
      assert s == [s[0]] + s[1..];
    } else {
      JoinSplit(s[1..]);
      var rest := Split(s[1..]);
      var words := [[s[0]] + rest[0]] + rest[1..];
      assert Split(s) == words;
      assert s == [s[0]] + s[1..];
      if |rest| > 1 {
        assert words[1..] == rest[1..];
        assert Join(words) == [s[0]] + (rest[0] + [Space] + Join(rest[1..]));
      }
    }
  }

  lemma {:induction false} SplitWord(w: string)
    requires Space !in w
    ensures Split(w) == [w]
    decreases |w|
  {
    if w != "" {
      SplitWord(w[1..]);
      assert w == [w[0]] + w[1..];
    }
  }

  lemma {:induction false} SplitAfterWord(w: string, t: string)
    requires Space !in w
    ensures Split(w + [Space] + t) == [w] + Split(t)
    decreases |w|
  {
    var s := w + [Space] + t;
    if w == "" {
      assert s == [Space] + t;
      assert s[1..] == t;
    } else {
      SplitAfterWord(w[1..], t);
      assert s[0] == w[0];
      assert s[1..] == w[1..] + [Space] + t;
      assert [w[0]] + w[1..] == w;
    }
  }

  /** Joining space-free words and splitting again gives back the words. */
  lemma {:induction false} SplitJoin(words: seq<string>)
    requires |words| >= 1
    requires forall i :: 0 <= i < |words| ==> Space !in words[i]
    ensures Split(Join(words)) == words
    decreases |words|
  {
    if |words| == 1 {
      SplitWord(words[0]);
    } else {
      SplitJoin(words[1..]);
      SplitAfterWord(words[0], Join(words[1..]));
      assert [words[0]] + words[1..] == words;
    }
  }

  /** Every word of `s.split(' ')` is empty exactly when `s` holds nothing
      but spaces. */
  lemma {:induction false} SplitAllEmpty(s: string)
    ensures AllEmpty(Split(s)) <==> AllSpaces(s)
    decreases |s|
  {
    if s != "" {
      SplitAllEmpty(s[1..]);
      var rest := Split(s[1..]);
      if s[0] == Space {
        assert Split(s) == [""] + rest;
        assert AllSpaces(s) <==> AllSpaces(s[1..]) by {
          assert s == [s[0]] + s[1..];
        }
        assert AllEmpty(Split(s)) <==> AllEmpty(rest) by {
          assert forall i :: 0 <= i < |rest| ==> ([""] + rest)[i + 1] == rest[i];
        }
      } else {
        assert Split(s)[0] == [s[0]] + rest[0];
      }
    }
  }

  /** Joining lists one after the other puts one space between them. */
  lemma {:induction false} JoinAppend(a: seq<string>, b: seq<string>)
    requires |a| >= 1 && |b| >= 1
    ensures Join(a + b) == Join(a) + [Space] + Join(b)
    decreases |a|
  {
    if |a| == 1 {
      assert (a + b)[1..] == b;
    } else {
      JoinAppend(a[1..], b);
      assert (a + b)[1..] == a[1..] + b;
    }
  }

  /** `n` empty words join to `n - 1` spaces. */
  lemma {:induction false} JoinAllEmpty(words: seq<string>)
    requires |words| >= 1 && AllEmpty(words)
    ensures |Join(words)| == |words| - 1
    ensures AllSpaces(Join(words))
    decreases |words|
  {
    if |words| > 1 {
      JoinAllEmpty(words[1..]);
    }
  }

  /** The join of the first `k` words is a prefix of the join of all. */
  lemma JoinOfPrefix(words: seq<string>, k: nat)
    requires 0 < k <= |words|
    ensures |Join(words[..k])| <= |Join(words)|
    ensures Join(words)[..|Join(words[..k])|] == Join(words[..k])
  {
    if k < |words| {
      JoinAppend(words[..k], words[k..]);
      assert words[..k] + words[k..] == words;
    } else {
      assert words[..k] == words;
    }
  }

  /** The join of the words from `m` on is a suffix of the join of all. */
  lemma JoinOfSuffix(words: seq<string>, m: nat)
    requires m < |words|
    ensures |Join(words[m..])| <= |Join(words)|
    ensures Join(words)[|Join(words)| - |Join(words[m..])|..] == Join(words[m..])
  {
    if m > 0 {
      JoinAppend(words[..m], words[m..]);
      assert words[..m] + words[m..] == words;
    } else {
      assert words[m..] == words;
    }
  }

  /** After `p` empty words the join holds `p` spaces, then the join of the
      rest. */
  lemma JoinAfterEmpty(words: seq<string>, p: nat)
    requires p < |words| && AllEmpty(words[..p])
    ensures p <= |Join(words)|
    ensures AllSpaces(Join(words)[..p])
    ensures Join(words)[p..] == Join(words[p..])
  {
    if p > 0 {
      JoinAppend(words[..p], words[p..]);
      assert words[..p] + words[p..] == words;
      JoinAllEmpty(words[..p]);
    } else {
      assert words[p..] == words;
    }
  }

  /** Before trailing empty words the join holds the join of the words up to
      them, then only spaces. */
  lemma JoinBeforeEmpty(words: seq<string>, q: nat)
    requires 0 < q <= |words| && AllEmpty(words[q..])
    ensures |Join(words[..q])| <= |Join(words)|
    ensures Join(words)[..|Join(words[..q])|] == Join(words[..q])
    ensures AllSpaces(Join(words)[|Join(words[..q])|..])
  {
    if q < |words| {
      JoinAppend(words[..q], words[q..]);
      assert words[..q] + words[q..] == words;
      JoinAllEmpty(words[q..]);
    } else {
      assert words[..q] == words;
    }
  }

  // ---------------------------------------------------------------------------
  // slice
  // ---------------------------------------------------------------------------

  /** How `slice` resolves one argument against the length: a negative index
      counts back from the end, and the result is clamped to the string. */
  function RelativeIndex(k: int, len: nat): (r: nat)
    ensures r <= len
    ensures k >= 0 ==> r == Min(k, len)
    ensures k < 0 ==> r == len - Min(-k, len)
  {
    if k < 0 then (if len + k < 0 then 0 else len + k)
    else if k > len then len
    else k
  }

  /** `s.slice(start, end)`; the one-argument `s.slice(start)` is
      `Slice(s, start, |s|)`. An empty range gives the empty string. */
  function Slice(s: string, start: int, end: int): (r: string)
    ensures |r| <= |s|
    ensures RelativeIndex(start, |s|) + |r| <= |s|
    ensures r == s[RelativeIndex(start, |s|)..RelativeIndex(start, |s|) + |r|]
    ensures |r| == if RelativeIndex(start, |s|) < RelativeIndex(end, |s|)
                   then RelativeIndex(end, |s|) - RelativeIndex(start, |s|) else 0
  {
    var from := RelativeIndex(start, |s|);
    var to := RelativeIndex(end, |s|);
    if from < to then s[from..to] else ""
  }

  /** `s.slice(0, n)` is the first `n` characters, or all of a shorter
      string. */
  lemma SliceFront(s: string, n: nat)
    ensures Slice(s, 0, n) == s[..Min(n, |s|)]
  {
  }

  /** `s.slice(-n)` is the last `n` characters, or all of a shorter string;
      `s.slice(-0)` is `s.slice(0)`, the whole string. */
  lemma SliceBack(s: string, n: nat)
    ensures n > 0 ==> Slice(s, -(n as int), |s|) == s[|s| - Min(n, |s|)..]
    ensures n == 0 ==> Slice(s, -(n as int), |s|) == s
  {
  }

  // ---------------------------------------------------------------------------
  // trim
  // ---------------------------------------------------------------------------

  /** `r` is `s` with all white space at both ends cut off: a slice of `s`
      that neither starts nor ends with white space, with only white space
      around it. */
  ghost predicate IsTrimOf(r: string, s: string) {
    && (r == "" || (!IsWhiteSpace(r[0]) && !IsWhiteSpace(r[|r| - 1])))
    && exists i :: SitsAt(r, s, i)
  }

  /** `r` occurs in `s` at `i` with only white space before and after it. */
  predicate SitsAt(r: string, s: string, i: int) {
    && 0 <= i <= |s| - |r|
    && AllWhiteSpace(s[..i])
    && r == s[i..i + |r|]
    && AllWhiteSpace(s[i + |r|..])
  }

  function TrimStart(s: string): (r: string)
    ensures |r| <= |s| && r == s[|s| - |r|..]
    ensures AllWhiteSpace(s[..|s| - |r|])
    ensures r == "" || !IsWhiteSpace(r[0])
    decreases |s|
  {
    if s != "" && IsWhiteSpace(s[0]) then
      var r := TrimStart(s[1..]);
      assert s[..|s| - |r|] == [s[0]] + s[1..][..|s| - 1 - |r|];
      assert s[|s| - |r|..] == s[1..][|s| - 1 - |r|..];
      r
    else s
  }

  function TrimEnd(s: string): (r: string)
    ensures |r| <= |s| && r == s[..|r|]
    ensures AllWhiteSpace(s[|r|..])
    ensures r == "" || !IsWhiteSpace(r[|r| - 1])
    decreases |s|
  {
    if s != "" && IsWhiteSpace(s[|s| - 1]) then
      var r := TrimEnd(s[..|s| - 1]);
      assert s[|r|..] == s[..|s| - 1][|r|..] + [s[|s| - 1]];
      assert s[..|r|] == s[..|s| - 1][..|r|];
      r
    else s
  }

  /** Cutting white space off the front and then off the back leaves a
      piece of `s` with only white space around it. */
  lemma CutBothEnds(s: string, t: string, r: string)
    requires |t| <= |s| && t == s[|s| - |t|..] && AllWhiteSpace(s[..|s| - |t|])
    requires |r| <= |t| && r == t[..|r|] && AllWhiteSpace(t[|r|..])
    ensures SitsAt(r, s, |s| - |t|)
  {
  }

  /** `s.trim()`. */
  function Trim(s: string): (r: string)
    ensures IsTrimOf(r, s)
  {
    var t := TrimStart(s);
    var r := TrimEnd(t);
    CutBothEnds(s, t, r);
    r
  }

  /** There is only one way to trim a string. */
  lemma TrimOfUnique(s: string, r1: string, r2: string)
    requires IsTrimOf(r1, s) && IsTrimOf(r2, s)
    ensures r1 == r2
  {
  }

  /** A string with no white space at either end is its own trim. */
  lemma TrimKeeps(s: string)
    requires s == "" || (!IsWhiteSpace(s[0]) && !IsWhiteSpace(s[|s| - 1]))
    ensures Trim(s) == s
  {
  }

  /** Trimming twice is trimming once. */
  lemma TrimIdempotent(s: string)
    ensures Trim(Trim(s)) == Trim(s)
  {
  }
}
