/** `formatPdfName` of the `RecentPdfItem` row: shortens a document's
    display name for a narrow row. Names of at most `ShortLimit` characters
    are shown as they are; a longer name becomes a head built from its
    leading words, an ellipsis, and a tail built from its trailing words. */
module RecentPdfItem {
  import opened Wrappers
  import opened JsString

  const HeadMax: nat := 12
  const TailMax: nat := 10
  /** Names of at most this many characters are returned unchanged. */
  const ShortLimit: nat := HeadMax + TailMax + 3
  const Ellipsis: string := "..."

  // ---------------------------------------------------------------------------
  // The two loops
  // ---------------------------------------------------------------------------

  /** One step of the head loop, `head ? head + ' ' + w : w`: an empty head
      takes the next word without a separator, even when that word is empty
      too. */
  function HeadStep(head: string, w: string): string {
    if head != "" then head + [Space] + w else w
  }

  /** The head step appends the word to the head, with a space between the
      two exactly when the head is non-empty. */
  lemma HeadStepAppends(head: string, w: string)
    ensures |head| <= |HeadStep(head, w)| && HeadStep(head, w)[..|head|] == head
    ensures |w| <= |HeadStep(head, w)| && HeadStep(head, w)[|HeadStep(head, w)| - |w|..] == w
    ensures HeadStep(head, w) == w <==> head == ""
    ensures head != "" ==> |HeadStep(head, w)| == |head| + 1 + |w| && HeadStep(head, w)[|head|] == Space
  {
  }

  /** One step of the tail loop, `tail ? w + ' ' + tail : w`: an empty tail
      takes the word without a separator. */
  function TailStep(w: string, tail: string): string {
    if tail != "" then w + [Space] + tail else w
  }

  /** The tail step prepends the word to the tail, with a space between the
      two exactly when the tail is non-empty. */
  lemma TailStepPrepends(w: string, tail: string)
    ensures |w| <= |TailStep(w, tail)| && TailStep(w, tail)[..|w|] == w
    ensures |tail| <= |TailStep(w, tail)| && TailStep(w, tail)[|TailStep(w, tail)| - |tail|..] == tail
    ensures TailStep(w, tail) == w <==> tail == ""
    ensures tail != "" ==> |TailStep(w, tail)| == |w| + 1 + |tail| && TailStep(w, tail)[|w|] == Space
  {
  }

  /** The `for (const w of words)` loop, given the words still to visit and
      the head built so far: it accepts a word while the candidate stays
      within `HeadMax` and breaks at the first one that does not. */
  function HeadLoop(words: seq<string>, head: string): (r: string)
    ensures |head| <= HeadMax ==> |r| <= HeadMax
    decreases |words|
  {
    if words == [] then head
    else
      var candidate := HeadStep(head, words[0]);
      if |candidate| <= HeadMax then HeadLoop(words[1..], candidate) else head
  }

  /** The `for (let i = words.length - 1; i >= 0; i--)` loop, given the index
      `i` it is at and the tail built so far: it prepends the word first and
      breaks once the tail has reached `TailMax`. */
  function TailLoop(words: seq<string>, i: int, tail: string): (r: string)
    requires -1 <= i < |words|
    ensures |r| >= |tail|
    ensures tail != "" ==> r != ""
    decreases i + 1
  {
    if i < 0 then tail
    else
      var next := TailStep(words[i], tail);
      if |next| >= TailMax then next else TailLoop(words, i - 1, next)
  }

  // ---------------------------------------------------------------------------
  // The formatter
  // ---------------------------------------------------------------------------

  /** The head after the loop, or the first `HeadMax` characters when the loop
      left it empty. */
  function Head(name: string): (head: string)
    ensures |head| <= HeadMax
    ensures name != "" ==> head != ""
  {
    var h := HeadLoop(Split(name), "");
    if h == "" then Slice(name, 0, HeadMax) else h
  }

  /** The tail after the loop, or the last `TailMax` characters when the loop
      left it empty. */
  function Tail(name: string): (tail: string)
    ensures name != "" ==> tail != ""
  {
    var words := Split(name);
    var t := TailLoop(words, |words| - 1, "");
    if t == "" then Slice(name, -(TailMax as int), |name|) else t
  }

  /** `formatPdfName(name)`. `None` is a missing name (`null` or
      `undefined`); it and the empty name are falsy and give `""`. A long
      name always comes out as the head with white space cut off both ends
      (so at most `HeadMax` characters), the ellipsis, and the tail with
      white space cut off both ends. */
  function FormatPdfName(name: Option<string>): (r: string)
    ensures name == None || name == Some("") ==> r == ""
    ensures name.Some? && |name.value| <= ShortLimit ==> r == name.value
    ensures name.Some? && |name.value| > ShortLimit ==>
              exists h, t ::
                && IsTrimOf(h, Head(name.value)) && |h| <= HeadMax
                && IsTrimOf(t, Tail(name.value))
                && r == h + Ellipsis + t
  {
    match name
    case None => ""
    case Some(s) =>
      if s == "" then ""
      else if |s| <= ShortLimit then s
      else Trim(Head(s)) + Ellipsis + Trim(Tail(s))
  }

  // ---------------------------------------------------------------------------
  // What the loops build: folds over the accepted words
  // ---------------------------------------------------------------------------

  /** The head that accepting all of `words` in order builds. */
  function JoinLeft(words: seq<string>): string {
    if words == [] then ""
    else HeadStep(JoinLeft(words[..|words| - 1]), words[|words| - 1])
  }

  /** The tail that prepending all of `words`, last first, builds. */
  function JoinRight(words: seq<string>): string {
    if words == [] then "" else TailStep(words[0], JoinRight(words[1..]))
  }

  /** The head loop accepts exactly the first `k` words: every leading run up
      to `k` words fits in `HeadMax`, and the run of `k + 1` words does not. */
  predicate IsHeadRun(words: seq<string>, k: nat) {
    && k <= |words|
    && (forall j :: 0 <= j <= k ==> |JoinLeft(words[..j])| <= HeadMax)
    && (k < |words| ==> |JoinLeft(words[..k + 1])| > HeadMax)
  }

  /** The tail loop takes exactly `words[m..]`: every shorter trailing run is
      below `TailMax`, and unless the loop ran out of words the run from `m`
      has reached it. */
  predicate IsTailStart(words: seq<string>, m: nat) {
    && m <= |words|
    && (forall i :: m < i < |words| ==> |JoinRight(words[i..])| < TailMax)
    && (m > 0 ==> m < |words| && |JoinRight(words[m..])| >= TailMax)
  }

  lemma {:induction false} HeadLoopFrom(words: seq<string>, j: nat) returns (k: nat)
    requires j <= |words|
    requires forall j' :: 0 <= j' <= j ==> |JoinLeft(words[..j'])| <= HeadMax
    ensures IsHeadRun(words, k)
    ensures HeadLoop(words[j..], JoinLeft(words[..j])) == JoinLeft(words[..k])
    decreases |words| - j
  {
    if j == |words| {
      k := j;
    } else {
      assert words[..j + 1][..j] == words[..j];
      assert JoinLeft(words[..j + 1]) == HeadStep(JoinLeft(words[..j]), words[j]);
      assert words[j..][0] == words[j] && words[j..][1..] == words[j + 1..];
      if |JoinLeft(words[..j + 1])| <= HeadMax {
        k := HeadLoopFrom(words, j + 1);
      } else {
        k := j;
      }
    }
  }

  /** The head loop builds the head of the longest leading run that fits. */
  lemma HeadLoopTakesLongestRun(words: seq<string>) returns (k: nat)
    ensures IsHeadRun(words, k)
    ensures HeadLoop(words, "") == JoinLeft(words[..k])
  {
    assert words[..0] == [] && words[0..] == words;
    k := HeadLoopFrom(words, 0);
  }

  /** Only one run length meets the head loop's stopping rule. */
  lemma HeadRunUnique(words: seq<string>, k1: nat, k2: nat)
    requires IsHeadRun(words, k1) && IsHeadRun(words, k2)
    ensures k1 == k2
  {
  }

  /** Accepting one more word never makes the head shorter. */
  lemma {:induction false} JoinLeftGrows(words: seq<string>, i: nat, j: nat)
    requires i <= j <= |words|
    ensures |JoinLeft(words[..i])| <= |JoinLeft(words[..j])|
    decreases j - i
  {
    if i < j {
      JoinLeftGrows(words, i, j - 1);
      assert words[..j][..j - 1] == words[..j - 1];
    }
  }

  /** The head loop never skips ahead: once one word overflows the head, every
      longer leading run overflows it too. */
  lemma HeadRunStopsAtFirstOverflow(words: seq<string>, k: nat)
    requires IsHeadRun(words, k)
    ensures forall j :: k < j <= |words| ==> |JoinLeft(words[..j])| > HeadMax
  {
    forall j | k < j <= |words|
      ensures |JoinLeft(words[..j])| > HeadMax
    {
      JoinLeftGrows(words, k + 1, j);
    }
  }

  lemma {:induction false} TailLoopFrom(words: seq<string>, i: int) returns (m: nat)
    requires -1 <= i < |words|
    requires forall i' :: i < i' < |words| ==> |JoinRight(words[i'..])| < TailMax
    ensures IsTailStart(words, m)
    ensures TailLoop(words, i, JoinRight(words[i + 1..])) == JoinRight(words[m..])
    decreases i + 1
  {
    if i < 0 {
      m := 0;
    } else {
      assert words[i..][0] == words[i] && words[i..][1..] == words[i + 1..];
      if |JoinRight(words[i..])| >= TailMax {
        m := i;
      } else {
        m := TailLoopFrom(words, i - 1);
      }
    }
  }

  /** The tail loop builds the tail of the shortest trailing run that reaches
      `TailMax`, or of all the words when none does. */
  lemma TailLoopTakesShortestRun(words: seq<string>) returns (m: nat)
    ensures IsTailStart(words, m)
    ensures TailLoop(words, |words| - 1, "") == JoinRight(words[m..])
  {
    assert words[|words|..] == [];
    m := TailLoopFrom(words, |words| - 1);
  }

  /** Only one start meets the tail loop's stopping rule. */
  lemma TailStartUnique(words: seq<string>, m1: nat, m2: nat)
    requires IsTailStart(words, m1) && IsTailStart(words, m2)
    ensures m1 == m2
  {
  }

  // ---------------------------------------------------------------------------
  // The folds against join(' ')
  // ---------------------------------------------------------------------------

  function FirstNonEmpty(words: seq<string>): (p: nat)
    ensures p <= |words|
    ensures AllEmpty(words[..p])
    ensures p < |words| ==> words[p] != ""
  {
    if words == [] || words[0] != "" then 0
    else
      var p' := FirstNonEmpty(words[1..]);
      assert words[..p' + 1] == [words[0]] + words[1..][..p'];
      1 + p'
  }

  function EndOfLastNonEmpty(words: seq<string>): (q: nat)
    ensures q <= |words|
    ensures AllEmpty(words[q..])
    ensures q > 0 ==> words[q - 1] != ""
  {
    if words == [] || words[|words| - 1] != "" then |words|
    else
      var q := EndOfLastNonEmpty(words[..|words| - 1]);
      assert words[q..] == words[..|words| - 1][q..] + [words[|words| - 1]];
      q
  }

  /** The head is empty exactly when every accepted word is. */
  lemma {:induction false} JoinLeftEmpty(words: seq<string>)
    ensures JoinLeft(words) == "" <==> AllEmpty(words)
    decreases |words|
  {
    if words != [] {
      var init := words[..|words| - 1];
      JoinLeftEmpty(init);
      assert forall i :: 0 <= i < |init| ==> init[i] == words[i];
    }
  }

  /** The tail is empty exactly when every taken word is. */
  lemma {:induction false} JoinRightEmpty(words: seq<string>)
    ensures JoinRight(words) == "" <==> AllEmpty(words)
    decreases |words|
  {
    if words != [] {
      JoinRightEmpty(words[1..]);
      assert forall i :: 0 < i < |words| ==> words[i] == words[1..][i - 1];
    }
  }

  /** Because an empty head takes the next word without a separator, leading
      empty words leave no trace in the head. */
  lemma {:induction false} JoinLeftSkipsLeadingEmpty(words: seq<string>, p: nat)
    requires p <= |words| && AllEmpty(words[..p])
    ensures JoinLeft(words) == JoinLeft(words[p..])
    decreases |words|
  {
    if |words| == p {
      assert words[..p] == words;
      JoinLeftEmpty(words);
    } else {
      var init := words[..|words| - 1];
      assert init[..p] == words[..p];
      JoinLeftSkipsLeadingEmpty(init, p);
      assert words[p..][..|words[p..]| - 1] == init[p..];
    }
  }

  /** Symmetrically, trailing empty words leave no trace in the tail. */
  lemma {:induction false} JoinRightSkipsTrailingEmpty(words: seq<string>, q: nat)
    requires q <= |words| && AllEmpty(words[q..])
    ensures JoinRight(words) == JoinRight(words[..q])
    decreases |words|
  {
    if q == 0 {
      assert words[q..] == words;
      JoinRightEmpty(words);
    } else {
      assert words[1..][q - 1..] == words[q..];
      JoinRightSkipsTrailingEmpty(words[1..], q - 1);
      assert words[..q][1..] == words[1..][..q - 1];
    }
  }

  /** From a non-empty first word on, the head is the words joined by
      spaces. */
  lemma {:induction false} JoinLeftIsJoin(words: seq<string>)
    requires |words| >= 1 && words[0] != ""
    ensures JoinLeft(words) == Join(words)
    decreases |words|
  {
    if |words| > 1 {
      var init := words[..|words| - 1];
      JoinLeftIsJoin(init);
      JoinLeftEmpty(init);
      JoinAppend(init, [words[|words| - 1]]);
      assert init + [words[|words| - 1]] == words;
    }
  }

  /** Up to a non-empty last word, the tail is the words joined by spaces. */
  lemma {:induction false} JoinRightIsJoin(words: seq<string>)
    requires |words| >= 1 && words[|words| - 1] != ""
    ensures JoinRight(words) == Join(words)
    decreases |words|
  {
    if |words| > 1 {
      JoinRightIsJoin(words[1..]);
      JoinRightEmpty(words[1..]);
    }
  }

  /** The words `p..k`, after `p` empty words, sit in the join right after
      `p` spaces. */
  lemma JoinRunFromFront(words: seq<string>, p: nat, k: nat)
    requires p < k <= |words| && AllEmpty(words[..p])
    ensures p + |Join(words[p..k])| <= |Join(words)|
    ensures AllSpaces(Join(words)[..p])
    ensures Join(words)[p..p + |Join(words[p..k])|] == Join(words[p..k])
  {
    JoinAfterEmpty(words, p);
    var rest := words[p..];
    JoinOfPrefix(rest, k - p);
    assert rest[..k - p] == words[p..k];
  }

  /** The words `m..q`, followed only by empty words, sit in the join right
      before its trailing spaces. */
  lemma JoinRunFromBack(words: seq<string>, m: nat, q: nat) returns (j: nat)
    requires m < q <= |words| && AllEmpty(words[q..])
    ensures |Join(words[m..q])| <= j <= |Join(words)|
    ensures AllSpaces(Join(words)[j..])
    ensures Join(words)[j - |Join(words[m..q])|..j] == Join(words[m..q])
  {
    JoinBeforeEmpty(words, q);
    var upto := words[..q];
    JoinOfSuffix(upto, m);
    assert upto[m..] == words[m..q];
    j := |Join(upto)|;
  }

  // ---------------------------------------------------------------------------
  // Properties of the formatter
  // ---------------------------------------------------------------------------

  /** The first non-empty word, if there is one, is longer than `HeadMax`:
      no leading word fits in the head. */
  predicate FirstWordOverflows(words: seq<string>) {
    forall j :: 0 <= j < |words| && words[j] != "" && AllEmpty(words[..j]) ==> |words[j]| > HeadMax
  }

  /** After only empty words, the next word becomes the head as it is. */
  lemma JoinLeftAfterEmpty(words: seq<string>, p: nat)
    requires p < |words| && AllEmpty(words[..p])
    ensures JoinLeft(words[..p + 1]) == words[p]
  {
    assert words[..p + 1][..p] == words[..p];
    JoinLeftEmpty(words[..p]);
  }

  /** A non-empty word after only empty words cannot sit inside a run of
      empty words, and nothing between the two is non-empty. */
  lemma NonEmptyAfterEmptyRun(words: seq<string>, k: nat, j: nat)
    requires k <= |words| && AllEmpty(words[..k])
    requires j < |words| && words[j] != "" && AllEmpty(words[..j])
    ensures k <= j
    ensures k < j ==> words[k] == ""
  {
  }

  lemma HeadLoopEmptyOnlyIfOverflow(words: seq<string>)
    requires HeadLoop(words, "") == ""
    ensures FirstWordOverflows(words)
  {
    var k := HeadLoopTakesLongestRun(words);
    JoinLeftEmpty(words[..k]);
    if k < |words| {
      JoinLeftAfterEmpty(words, k);
    }
    forall j | 0 <= j < |words| && words[j] != "" && AllEmpty(words[..j])
      ensures |words[j]| > HeadMax
    {
      NonEmptyAfterEmptyRun(words, k, j);
    }
  }

  lemma HeadLoopEmptyIfOverflow(words: seq<string>)
    requires FirstWordOverflows(words)
    ensures HeadLoop(words, "") == ""
  {
    var k := HeadLoopTakesLongestRun(words);
    var p := FirstNonEmpty(words);
    if p < |words| {
      JoinLeftAfterEmpty(words, p);
      assert |JoinLeft(words[..p + 1])| > HeadMax;
      assert k <= p;
    } else {
      assert words[..p] == words;
    }
    assert words[..k] == words[..p][..k];
    JoinLeftEmpty(words[..k]);
  }

  /** The head loop leaves the head empty exactly when no leading word fits,
      and then the head is the first `HeadMax` characters of the name. */
  lemma HeadFallback(name: string)
    ensures HeadLoop(Split(name), "") == "" <==> FirstWordOverflows(Split(name))
    ensures HeadLoop(Split(name), "") == "" ==> Head(name) == name[..Min(HeadMax, |name|)]
  {
    var words := Split(name);
    if HeadLoop(words, "") == "" {
      HeadLoopEmptyOnlyIfOverflow(words);
    }
    if FirstWordOverflows(words) {
      HeadLoopEmptyIfOverflow(words);
    }
    SliceFront(name, HeadMax);
  }

  /** The tail loop leaves the tail empty exactly when every word is empty. */
  lemma TailLoopEmpty(words: seq<string>)
    ensures TailLoop(words, |words| - 1, "") == "" <==> AllEmpty(words)
  {
    var m := TailLoopTakesShortestRun(words);
    JoinRightEmpty(words[m..]);
    if AllEmpty(words) {
      assert AllEmpty(words[m..]) by {
        assert forall i :: 0 <= i < |words| - m ==> words[m..][i] == words[m + i];
      }
    }
    if m == 0 {
      assert words[m..] == words;
    }
  }

  /** The tail loop leaves the tail empty exactly when the name is nothing
      but spaces, and then the tail is the last `TailMax` characters. */
  lemma TailFallback(name: string)
    ensures TailLoop(Split(name), |Split(name)| - 1, "") == "" <==> AllSpaces(name)
    ensures AllSpaces(name) ==> Tail(name) == name[|name| - Min(TailMax, |name|)..]
  {
    TailLoopEmpty(Split(name));
    SplitAllEmpty(name);
    SliceBack(name, TailMax);
  }

  /** A non-empty head is its words joined by spaces, once the leading
      empty words are dropped. */
  lemma JoinLeftNonEmpty(run: seq<string>) returns (p: nat)
    requires JoinLeft(run) != ""
    ensures p < |run| && AllEmpty(run[..p])
    ensures JoinLeft(run) == Join(run[p..])
  {
    JoinLeftEmpty(run);
    p := FirstNonEmpty(run);
    assert run[..|run|] == run;
    JoinLeftSkipsLeadingEmpty(run, p);
    JoinLeftIsJoin(run[p..]);
  }

  /** A non-empty tail is its words joined by spaces, once the trailing
      empty words are dropped. */
  lemma JoinRightNonEmpty(run: seq<string>) returns (q: nat)
    requires JoinRight(run) != ""
    ensures 0 < q <= |run| && AllEmpty(run[q..])
    ensures JoinRight(run) == Join(run[..q])
  {
    JoinRightEmpty(run);
    q := EndOfLastNonEmpty(run);
    assert run[0..] == run;
    JoinRightSkipsTrailingEmpty(run, q);
    JoinRightIsJoin(run[..q]);
  }

  /** A non-empty head from the loop is the longest leading run that fits,
      `words[..k]`, joined by spaces once its `p` leading empty words are
      dropped. */
  lemma HeadLoopIsJoinedRun(words: seq<string>) returns (p: nat, k: nat)
    requires HeadLoop(words, "") != ""
    ensures IsHeadRun(words, k)
    ensures p < k <= |words| && AllEmpty(words[..p])
    ensures HeadLoop(words, "") == Join(words[p..k])
  {
    k := HeadLoopTakesLongestRun(words);
    var run := words[..k];
    p := JoinLeftNonEmpty(run);
    assert run[p..] == words[p..k];
    assert run[..p] == words[..p];
  }

  /** A non-empty tail from the loop is the shortest trailing run that
      reaches `TailMax`, `words[m..]`, joined by spaces once its trailing
      empty words (from `q` on) are dropped. */
  lemma TailLoopIsJoinedRun(words: seq<string>) returns (m: nat, q: nat)
    requires TailLoop(words, |words| - 1, "") != ""
    ensures IsTailStart(words, m)
    ensures m < q <= |words| && AllEmpty(words[q..])
    ensures TailLoop(words, |words| - 1, "") == Join(words[m..q])
  {
    m := TailLoopTakesShortestRun(words);
    var run := words[m..];
    var q' := JoinRightNonEmpty(run);
    q := m + q';
    assert run[..q'] == words[m..q];
    assert run[q'..] == words[q..];
  }

  /** The head is a piece of the name found right after its leading
      spaces (or at the very start). */
  lemma HeadFromFront(name: string) returns (i: nat)
    ensures i + |Head(name)| <= |name|
    ensures AllSpaces(name[..i])
    ensures Head(name) == name[i..i + |Head(name)|]
  {
    var words := Split(name);
    SliceFront(name, HeadMax);
    if HeadLoop(words, "") == "" {
      i := 0;
    } else {
      var k;
      i, k := HeadLoopIsJoinedRun(words);
      JoinSplit(name);
      JoinRunFromFront(words, i, k);
    }
  }

  /** The tail is a piece of the name found right before its trailing
      spaces (or at the very end). */
  lemma TailFromBack(name: string) returns (j: nat)
    ensures |Tail(name)| <= j <= |name|
    ensures AllSpaces(name[j..])
    ensures Tail(name) == name[j - |Tail(name)|..j]
  {
    var words := Split(name);
    SliceBack(name, TailMax);
    if TailLoop(words, |words| - 1, "") == "" {
      j := |name|;
    } else {
      var m, q := TailLoopIsJoinedRun(words);
      JoinSplit(name);
      j := JoinRunFromBack(words, m, q);
    }
  }

  /** A long name made of one word with no white space comes out as its first
      `HeadMax` characters, the ellipsis, and the whole name: the tail is not
      bounded by `TailMax`, and the result is longer than the name. */
  lemma SingleWordGrows(name: string)
    requires |name| > ShortLimit
    requires forall i :: 0 <= i < |name| ==> !IsWhiteSpace(name[i])
    ensures FormatPdfName(Some(name)) == name[..HeadMax] + Ellipsis + name
    ensures |FormatPdfName(Some(name))| > |name|
  {
    assert Space !in name by {
      assert forall i :: 0 <= i < |name| ==> name[i] != Space;
    }
    SplitWord(name);
    assert HeadLoop([name], "") == "";
    SliceFront(name, HeadMax);
    assert Head(name) == name[..HeadMax];
    assert TailLoop([name], 0, "") == name;
    assert Tail(name) == name;
    TrimKeeps(name[..HeadMax]);
    TrimKeeps(name);
  }
}
