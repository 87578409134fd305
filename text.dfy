/**
 * The pieces of Python's `str` that the bot's command handlers rely on:
 * `isspace`, `strip`, `split()`, `split(maxsplit=1)`, `replace(token, '')`,
 * `int()` and the decimal rendering of a positive `int` in an f-string.
 */
module Text {
  import opened Options

  /** `str.isspace()` for one character: the whitespace set of CPython's str type. */
  predicate IsSpace(c: char) {
    c == ' ' || c == '\t' || c == '\n' || c == '\r' || c == '\U{000B}' || c == '\U{000C}'
    || ('\U{001C}' <= c && c <= '\U{001F}') || c == '\U{0085}' || c == '\U{00A0}'
    || c == '\U{1680}' || ('\U{2000}' <= c && c <= '\U{200A}') || c == '\U{2028}'
    || c == '\U{2029}' || c == '\U{202F}' || c == '\U{205F}' || c == '\U{3000}'
  }

  predicate AllSpace(s: string) {
    forall i :: 0 <= i < |s| ==> IsSpace(s[i])
  }

  predicate NoSpace(s: string) {
    forall i :: 0 <= i < |s| ==> !IsSpace(s[i])
  }

  /** Regrouping a concatenation. Called where a proof needs the step on large
      terms (the `/list` loop, the `/done` replies); inline there, the solver runs
      out of resource. */
  lemma ConcatAssoc(a: string, b: string, c: string)
    ensures (a + b) + c == a + (b + c)
  {
  }

  /** `a` is a final segment of `b`. */
  predicate IsSuffix(a: string, b: string) {
    |a| <= |b| && a == b[|b| - |a|..]
  }

  /** The first index at or after `i` that does not hold whitespace, or `|s|`:
      the skip loop at the start of CPython's whitespace splitter and of `strip`. */
  function SkipSpace(s: string, i: nat): (j: nat)
    requires i <= |s|
    ensures i <= j <= |s|
    ensures forall k :: i <= k < j ==> IsSpace(s[k])
    ensures j == |s| || !IsSpace(s[j])
    decreases |s| - i
  {
    if i < |s| && IsSpace(s[i]) then SkipSpace(s, i + 1) else i
  }

  /** The first index at or after `i` that holds whitespace, or `|s|`: the end of
      the word starting at `i`. */
  function SkipWord(s: string, i: nat): (j: nat)
    requires i <= |s|
    ensures i <= j <= |s|
    ensures forall k :: i <= k < j ==> !IsSpace(s[k])
    ensures j == |s| || IsSpace(s[j])
    decreases |s| - i
  {
    if i < |s| && !IsSpace(s[i]) then SkipWord(s, i + 1) else i
  }

  /** Walking back from `j`, but not past `lo`, over whitespace: the index just
      after the last non-whitespace character of `s[lo..j]`, or `lo`. */
  function SkipSpaceBack(s: string, lo: nat, j: nat): (k: nat)
    requires lo <= j <= |s|
    ensures lo <= k <= j
    ensures forall m :: k <= m < j ==> IsSpace(s[m])
    ensures k == lo || !IsSpace(s[k - 1])
    decreases j
  {
    if lo < j && IsSpace(s[j - 1]) then SkipSpaceBack(s, lo, j - 1) else j
  }

  /** The three scans are determined by their contracts: any index with the
      stated properties is the one they return. */
  lemma SkipSpaceAt(s: string, i: nat, j: nat)
    requires i <= j <= |s|
    requires forall k :: i <= k < j ==> IsSpace(s[k])
    requires j == |s| || !IsSpace(s[j])
    ensures SkipSpace(s, i) == j
  {
  }

  lemma SkipWordAt(s: string, i: nat, j: nat)
    requires i <= j <= |s|
    requires forall k :: i <= k < j ==> !IsSpace(s[k])
    requires j == |s| || IsSpace(s[j])
    ensures SkipWord(s, i) == j
  {
  }

  lemma SkipSpaceBackAt(s: string, lo: nat, j: nat, k: nat)
    requires lo <= k <= j <= |s|
    requires forall m :: k <= m < j ==> IsSpace(s[m])
    requires k == lo || !IsSpace(s[k - 1])
    ensures SkipSpaceBack(s, lo, j) == k
  {
  }

  /** `s.strip()`: a slice of `s` that neither starts nor ends with whitespace,
      obtained by removing whitespace only. */
  function Strip(s: string): (r: string)
    ensures exists i :: StrippedAt(s, r, i)
    ensures r == [] || (!IsSpace(r[0]) && !IsSpace(r[|r| - 1]))
    ensures r == [] <==> AllSpace(s)
  {
    var i := SkipSpace(s, 0);
    var j := SkipSpaceBack(s, i, |s|);
    StripSlice(s, i, j);
    s[i..j]
  }

  /** `r` is `s` with `i` whitespace characters removed in front and the rest of
      the removed characters, all whitespace, at the back. */
  predicate StrippedAt(s: string, r: string, i: int) {
    0 <= i <= |s| - |r| && r == s[i..i + |r|] && AllSpace(s[..i]) && AllSpace(s[i + |r|..])
  }

  lemma StripSlice(s: string, i: nat, j: nat)
    requires i <= j <= |s|
    requires forall k :: 0 <= k < i ==> IsSpace(s[k])
    requires i == |s| || !IsSpace(s[i])
    requires forall m :: j <= m < |s| ==> IsSpace(s[m])
    requires j == i || !IsSpace(s[j - 1])
    ensures StrippedAt(s, s[i..j], i)
    ensures s[i..j] == [] || (!IsSpace(s[i..j][0]) && !IsSpace(s[i..j][j - i - 1]))
    ensures s[i..j] == [] <==> AllSpace(s)
  {
    assert AllSpace(s[..i]) by {
      forall k | 0 <= k < i ensures IsSpace(s[..i][k]) { assert s[..i][k] == s[k]; }
    }
    assert AllSpace(s[j..]) by {
      forall k | 0 <= k < |s| - j ensures IsSpace(s[j..][k]) { assert s[j..][k] == s[j + k]; }
    }
    assert i < |s| ==> !AllSpace(s);
  }

  /** Whitespace around a text whose ends are not whitespace is exactly what
      `strip` removes. */
  lemma StripAround(a: string, w: string, b: string)
    requires AllSpace(a) && AllSpace(b)
    requires w != [] && !IsSpace(w[0]) && !IsSpace(w[|w| - 1])
    ensures Strip(a + w + b) == w
  {
    var s := a + w + b;
    var i, j := |a|, |a| + |w|;
    assert s[i] == w[0] && s[j - 1] == w[|w| - 1];
    forall k | 0 <= k < i ensures IsSpace(s[k]) { assert s[k] == a[k]; }
    forall m | j <= m < |s| ensures IsSpace(s[m]) { assert s[m] == b[m - j]; }
    SkipSpaceAt(s, 0, i);
    SkipSpaceBackAt(s, i, |s|, j);
    assert s[i..j] == w;
  }

  /** `s[a..b]` holds no whitespace when none of its positions in `s` does. */
  lemma SliceNoSpace(s: string, a: nat, b: nat)
    requires a <= b <= |s|
    requires forall k :: a <= k < b ==> !IsSpace(s[k])
    ensures NoSpace(s[a..b])
  {
    forall k | 0 <= k < b - a ensures !IsSpace(s[a..b][k]) { assert s[a..b][k] == s[a + k]; }
  }

  /** Every word is non-empty and holds no whitespace. */
  predicate WellFormedWords(ws: seq<string>) {
    forall k :: 0 <= k < |ws| ==> ws[k] != [] && NoSpace(ws[k])
  }

  lemma ConsWords(w: string, rest: seq<string>)
    requires w != [] && NoSpace(w) && WellFormedWords(rest)
    ensures WellFormedWords([w] + rest)
  {
    forall k | 1 <= k < |rest| + 1 ensures ([w] + rest)[k] == rest[k - 1] { }
  }

  /** `s.split()`: the maximal runs of non-whitespace, in order. */
  function Words(s: string): (ws: seq<string>)
    ensures WellFormedWords(ws)
    ensures ws == [] <==> AllSpace(s)
  {
    WordScanFacts(s);
    WordScan(s)
  }

  /** CPython's whitespace splitter: skip whitespace, take the word up to the
      next whitespace, and go on with what is left after it. */
  function WordScan(s: string): seq<string>
    decreases |s|
  {
    var a := SkipSpace(s, 0);
    if a == |s| then []
    else
      var b := SkipWord(s, a);
      [s[a..b]] + WordScan(s[b..])
  }

  /** The scanned words are non-empty and free of whitespace, and there are none
      exactly when the text is all whitespace. */
  lemma {:induction false} WordScanFacts(s: string)
    ensures WellFormedWords(WordScan(s))
    ensures WordScan(s) == [] <==> AllSpace(s)
    decreases |s|
  {
    var a := SkipSpace(s, 0);
    if a < |s| {
      var b := SkipWord(s, a);
      SliceNoSpace(s, a, b);
      assert s[a..b][0] == s[a];
      WordScanFacts(s[b..]);
      ConsWords(s[a..b], WordScan(s[b..]));
    }
  }

  /** `s.split(maxsplit=1)`: at most two parts; the second is the rest of the
      string after the first word and the whitespace that follows it. */
  function SplitOnce(s: string): (parts: seq<string>)
    ensures |parts| <= 2
    ensures |parts| == 2 ==> parts[1] != [] && !IsSpace(parts[1][0]) && IsSuffix(parts[1], s)
  {
    var a := SkipSpace(s, 0);
    if a == |s| then []
    else
      var b := SkipWord(s, a);
      var c := SkipSpace(s, b);
      if c == |s| then [s[a..b]] else [s[a..b], s[c..]]
  }

  /** One step of the scan: the first word, then the words of what follows it. */
  lemma WordScanStep(s: string, a: nat, b: nat)
    requires a == SkipSpace(s, 0) && a < |s| && b == SkipWord(s, a)
    ensures WordScan(s) == [s[a..b]] + WordScan(s[b..])
  {
  }

  /** Scanning `s[k..]` from `j` finds the boundaries that scanning `s` from
      `j + k` finds, moved by `k`. */
  lemma DropScan(s: string, k: nat, i: nat, j: nat)
    requires j + k == i <= |s|
    ensures SkipSpace(s[k..], j) + k == SkipSpace(s, i)
    ensures SkipWord(s[k..], j) + k == SkipWord(s, i)
  {
    var u, a, b := s[k..], SkipSpace(s, i), SkipWord(s, i);
    SkipSpaceAt(u, j, a - k);
    SkipWordAt(u, j, b - k);
  }

  /** When `s[..k]` is whitespace, scanning `s[k..]` finds the first word of
      `s` and then the same rest. */
  lemma DropFirstWord(s: string, k: nat, a: nat, b: nat) returns (a2: nat, b2: nat)
    requires k <= |s| && a == SkipSpace(s, k) && a < |s| && b == SkipWord(s, a)
    ensures a2 == SkipSpace(s[k..], 0) && a2 < |s[k..]| && b2 == SkipWord(s[k..], a2)
    ensures s[k..][a2..b2] == s[a..b] && s[k..][b2..] == s[b..]
  {
    a2, b2 := a - k, b - k;
    DropScan(s, k, k, 0);
    DropScan(s, k, a, a2);
    DropSlices(s, k, a, b, a2, b2);
  }

  /** The pieces of `s[k..]` at boundaries moved by `k` are those of `s`. Stated
      apart from `DropFirstWord`, whose proof is many times costlier with it inline. */
  lemma DropSlices<T>(s: seq<T>, k: nat, a: nat, b: nat, a2: nat, b2: nat)
    requires a2 + k == a && b2 + k == b && a <= b <= |s|
    ensures s[k..][a2..b2] == s[a..b] && s[k..][b2..] == s[b..]
  {
  }

  /** Two texts whose scans find the same first word and the same rest have the
      same words. */
  lemma SameFirstWord(s: string, a: nat, b: nat, u: string, a2: nat, b2: nat)
    requires a == SkipSpace(s, 0) && a < |s| && b == SkipWord(s, a)
    requires a2 == SkipSpace(u, 0) && a2 < |u| && b2 == SkipWord(u, a2)
    requires u[a2..b2] == s[a..b] && u[b2..] == s[b..]
    ensures WordScan(u) == WordScan(s)
  {
    WordScanStep(s, a, b);
    WordScanStep(u, a2, b2);
  }

  /** Leading whitespace does not change the words. */
  lemma DropLeadingSpace(s: string, k: nat)
    requires k <= |s| && forall m :: 0 <= m < k ==> IsSpace(s[m])
    ensures WordScan(s[k..]) == WordScan(s)
  {
    var u := s[k..];
    var a := SkipSpace(s, k);
    SkipSpaceAt(s, 0, a);
    DropScan(s, k, k, 0);
    if a < |s| {
      var b := SkipWord(s, a);
      var a2, b2 := DropFirstWord(s, k, a, b);
      SameFirstWord(s, a, b, u, a2, b2);
    }
  }

  /** `split(maxsplit=1)` agrees with `split()`: it has fewer than two parts exactly
      when `split()` does, its first part is the first word, and splitting its second
      part yields the remaining words. */
  lemma SplitOnceAgreesWithWords(s: string)
    ensures |SplitOnce(s)| == (if |Words(s)| < 2 then |Words(s)| else 2)
    ensures |Words(s)| >= 1 ==> SplitOnce(s)[0] == Words(s)[0]
    ensures |SplitOnce(s)| == 2 ==> Words(SplitOnce(s)[1]) == Words(s)[1..]
  {
    var a := SkipSpace(s, 0);
    if a < |s| {
      var b := SkipWord(s, a);
      var c := SkipSpace(s, b);
      if c < |s| {
        AgreeOnTwoParts(s, a, b, c);
      } else {
        AgreeOnOneWord(s, a, b, c);
      }
    }
  }

  /** `SplitOnceAgreesWithWords` when a second part follows the first word. */
  lemma AgreeOnTwoParts(s: string, a: nat, b: nat, c: nat)
    requires a == SkipSpace(s, 0) && a < |s| && b == SkipWord(s, a)
    requires c == SkipSpace(s, b) && c < |s|
    ensures |SplitOnce(s)| == (if |Words(s)| < 2 then |Words(s)| else 2)
    ensures |Words(s)| >= 1 ==> SplitOnce(s)[0] == Words(s)[0]
    ensures |SplitOnce(s)| == 2 ==> Words(SplitOnce(s)[1]) == Words(s)[1..]
  {
    SplitOnceTwo(s, a, b, c);
    WordsTwoParts(s, a, b, c);
    assert Words(s)[1..] == Words(s[c..]);
  }

  /** The two parts of `split(maxsplit=1)`: the first word, and the rest from the
      next non-whitespace character on. */
  lemma SplitOnceTwo(s: string, a: nat, b: nat, c: nat)
    requires a == SkipSpace(s, 0) && a < |s| && b == SkipWord(s, a)
    requires c == SkipSpace(s, b) && c < |s|
    ensures SplitOnce(s) == [s[a..b], s[c..]]
  {
  }

  /** The words of `s` are its first word followed by the (non-empty) words of
      what starts at the next non-whitespace character. */
  lemma WordsTwoParts(s: string, a: nat, b: nat, c: nat)
    requires a == SkipSpace(s, 0) && a < |s| && b == SkipWord(s, a)
    requires c == SkipSpace(s, b) && c < |s|
    ensures Words(s) == [s[a..b]] + Words(s[c..]) && Words(s[c..]) != []
  {
    var r, d := s[b..], c - b;
    WordScanStep(s, a, b);
    DropSpaces(s, b, c, d);
    DropLeadingSpace(r, d);
    assert s[b..][d..] == s[c..];
    assert s[c..][0] == s[c];
  }

  /** `SplitOnceAgreesWithWords` when only whitespace follows the first word. */
  lemma AgreeOnOneWord(s: string, a: nat, b: nat, c: nat)
    requires a == SkipSpace(s, 0) && a < |s| && b == SkipWord(s, a)
    requires c == SkipSpace(s, b) && c == |s|
    ensures |SplitOnce(s)| == (if |Words(s)| < 2 then |Words(s)| else 2)
    ensures |Words(s)| >= 1 ==> SplitOnce(s)[0] == Words(s)[0]
    ensures |SplitOnce(s)| == 2 ==> Words(SplitOnce(s)[1]) == Words(s)[1..]
  {
    var r := s[b..];
    WordScanStep(s, a, b);
    DropSpaces(s, b, c, c - b);
    WordScanFacts(r);
  }

  /** The whitespace run `s[b..c]` is the first `k` characters of `s[b..]`. */
  lemma DropSpaces(s: string, b: nat, c: nat, k: nat)
    requires b <= c <= |s| && k + b == c
    requires forall m :: b <= m < c ==> IsSpace(s[m])
    ensures forall m :: 0 <= m < k ==> IsSpace(s[b..][m])
  {
    forall m | 0 <= m < k ensures IsSpace(s[b..][m]) { assert s[b..][m] == s[m + b]; }
  }

  /** `split()` takes the words off the front one at a time: after leading
      whitespace, a run of non-whitespace that ends at whitespace or at the end of
      the text is the first word, and the rest splits on its own. With
      `Words(s) == [] <==> AllSpace(s)` this fixes `split()` on every text. */
  lemma WordsCons(sp: string, w: string, rest: string)
    requires AllSpace(sp) && w != [] && NoSpace(w) && (rest == [] || IsSpace(rest[0]))
    ensures Words(sp + w + rest) == [w] + Words(rest)
  {
    var s := sp + w + rest;
    var a, b := |sp|, |sp| + |w|;
    ThreeParts(sp, w, rest, s);
    SkipSpaceAt(s, 0, a);
    SkipWordAt(s, a, b);
    WordScanStep(s, a, b);
  }

  /** Where the three parts of `sp + w + rest` sit, and which of their
      characters are whitespace. */
  lemma ThreeParts(sp: string, w: string, rest: string, s: string)
    requires s == sp + w + rest
    requires AllSpace(sp) && w != [] && NoSpace(w) && (rest == [] || IsSpace(rest[0]))
    ensures |s| == |sp| + |w| + |rest|
    ensures forall k :: 0 <= k < |sp| ==> IsSpace(s[k])
    ensures forall k :: |sp| <= k < |sp| + |w| ==> !IsSpace(s[k])
    ensures !IsSpace(s[|sp|])
    ensures |sp| + |w| == |s| || IsSpace(s[|sp| + |w|])
    ensures s[|sp|..|sp| + |w|] == w && s[|sp| + |w|..] == rest
  {
    forall k | 0 <= k < |sp| ensures IsSpace(s[k]) { assert s[k] == sp[k]; }
    forall k | |sp| <= k < |sp| + |w| ensures !IsSpace(s[k]) { assert s[k] == w[k - |sp|]; }
    assert s[|sp|] == w[0];
    assert |sp| + |w| < |s| ==> s[|sp| + |w|] == rest[0];
  }

  /** `(cmd + " " + arg).split() == [cmd, arg]` for two words. */
  lemma WordsOfCommand(cmd: string, arg: string)
    requires cmd != [] && NoSpace(cmd) && arg != [] && NoSpace(arg)
    ensures Words(cmd + " " + arg) == [cmd, arg]
  {
    var s := cmd + " " + arg;
    var n := |cmd|;
    CommandShape(cmd, arg);
    WordScanStep(s, 0, n);
    var r := s[n..];
    assert r[0] == ' ' && r[1..] == arg;
    DropLeadingSpace(r, 1);
    SingleWord(arg);
  }

  /** A text without whitespace is one word. */
  lemma SingleWord(w: string)
    requires w != [] && NoSpace(w)
    ensures WordScan(w) == [w]
  {
    SkipSpaceAt(w, 0, 0);
    SkipWordAt(w, 0, |w|);
    WordScanStep(w, 0, |w|);
    assert w[0..|w|] == w;
    assert WordScan(w[|w|..]) == [];
  }

  /** `(cmd + " " + arg).split(maxsplit=1) == [cmd, arg]` when `arg` starts with
      a non-space character. */
  lemma SplitOnceOfCommand(cmd: string, arg: string)
    requires cmd != [] && NoSpace(cmd) && arg != [] && !IsSpace(arg[0])
    ensures SplitOnce(cmd + " " + arg) == [cmd, arg]
  {
    var s := cmd + " " + arg;
    CommandShape(cmd, arg);
    assert s[|cmd| + 1..] == arg;
  }

  /** The scans over `cmd + " " + arg`: the first word is `cmd`, followed by one
      space, and the next word starts at `arg`. */
  lemma CommandShape(cmd: string, arg: string)
    requires cmd != [] && NoSpace(cmd) && arg != [] && !IsSpace(arg[0])
    ensures var s := cmd + " " + arg;
            SkipSpace(s, 0) == 0 && SkipWord(s, 0) == |cmd| && s[0..|cmd|] == cmd
            && SkipSpace(s, |cmd|) == |cmd| + 1
  {
    var s := cmd + " " + arg;
    var n := |cmd|;
    assert s[0] == cmd[0] && s[n] == ' ' && s[n + 1] == arg[0];
    SkipSpaceAt(s, 0, 0);
    SkipWordAt(s, 0, n) by {
      forall k | 0 <= k < n ensures !IsSpace(s[k]) { assert s[k] == cmd[k]; }
    }
    SkipSpaceAt(s, n, n + 1);
    assert s[0..n] == cmd;
  }

  /** There is an occurrence of `tok` in `s`. */
  ghost predicate Occurs(s: string, tok: string) {
    exists i :: OccursAt(s, tok, i)
  }

  /** `tok` occurs in `s` starting at index `i`. */
  predicate OccursAt(s: string, tok: string, i: int) {
    0 <= i <= |s| - |tok| && s[i..i + |tok|] == tok
  }

  /** `s.replace(tok, '')`: scans left to right and deletes every non-overlapping
      occurrence of `tok`. */
  function RemoveAll(s: string, tok: string): (r: string)
    requires tok != []
    ensures |r| <= |s|
    ensures !Occurs(s, tok) ==> r == s
    ensures Occurs(s, tok) ==> |r| + |tok| <= |s|
    decreases |s|
  {
    if |s| < |tok| then s
    else if s[..|tok|] == tok then
      assert OccursAt(s, tok, 0);
      RemoveAll(s[|tok|..], tok)
    else
      OccursInTail(s, tok);
      [s[0]] + RemoveAll(s[1..], tok)
  }

  /** When `tok` is not a prefix of `s`, it occurs in `s` exactly when it occurs in `s[1..]`. */
  lemma OccursInTail(s: string, tok: string)
    requires tok != [] && |s| >= |tok| && s[..|tok|] != tok
    ensures Occurs(s, tok) <==> Occurs(s[1..], tok)
  {
    if Occurs(s, tok) {
      var i :| OccursAt(s, tok, i);
      assert i != 0;
      assert s[1..][i - 1..i - 1 + |tok|] == tok;
      assert OccursAt(s[1..], tok, i - 1);
    }
    if Occurs(s[1..], tok) {
      var i :| OccursAt(s[1..], tok, i);
      assert s[i + 1..i + 1 + |tok|] == tok;
      assert OccursAt(s, tok, i + 1);
    }
  }

  /** `replace` at the first occurrence: everything before it is kept, the
      occurrence is deleted, and the scan goes on after it. With the
      no-occurrence case of `RemoveAll`, this fixes the result on every text. */
  lemma {:induction false} RemoveFirstOccurrence(a: string, tok: string, b: string)
    requires tok != []
    requires forall i :: 0 <= i < |a| ==> !OccursAt(a + tok + b, tok, i)
    ensures RemoveAll(a + tok + b, tok) == a + RemoveAll(b, tok)
    decreases |a|
  {
    var s := a + tok + b;
    if a == [] {
      assert s == tok + b && s[..|tok|] == tok && s[|tok|..] == b;
    } else {
      assert !OccursAt(s, tok, 0);
      assert s[1..] == a[1..] + tok + b;
      forall i | 0 <= i < |a[1..]| ensures !OccursAt(a[1..] + tok + b, tok, i) {
        assert !OccursAt(s, tok, i + 1);
        assert s[i + 1..i + 1 + |tok|] == s[1..][i..i + |tok|];
      }
      assert s[0..|tok|] == s[..|tok|];
      assert RemoveAll(s, tok) == [s[0]] + RemoveAll(s[1..], tok);
      RemoveFirstOccurrence(a[1..], tok, b);
      ConsAppend(a, RemoveAll(b, tok));
    }
  }

  /** `a == [a[0]] + a[1..]`, with `r` appended; stated apart to keep the
      unfolding of `RemoveAll` above free of sequence extensionality. */
  lemma ConsAppend<T>(a: seq<T>, r: seq<T>)
    requires a != []
    ensures [a[0]] + (a[1..] + r) == a + r
  {
  }

  predicate IsDigit(c: char) {
    '0' <= c <= '9'
  }

  function DigitChar(d: nat): (c: char)
    requires d < 10
    ensures IsDigit(c)
  {
    ('0' as int + d) as char
  }

  function DigitValue(c: char): (d: nat)
    requires IsDigit(c)
    ensures d < 10 && DigitChar(d) == c
  {
    c as int - '0' as int
  }

  /** The value of a string of decimal digits (leading zeros allowed). */
  function DigitsValue(s: string): nat
    requires forall i :: 0 <= i < |s| ==> IsDigit(s[i])
  {
    if s == [] then 0 else DigitsValue(s[..|s| - 1]) * 10 + DigitValue(s[|s| - 1])
  }

  /** `f"{n}"` for a natural number: its decimal digits without leading zeros. */
  function DecimalString(n: nat): (s: string)
    ensures s != [] && forall i :: 0 <= i < |s| ==> IsDigit(s[i])
    ensures s[0] == '0' ==> s == "0"
  {
    if n < 10 then [DigitChar(n)] else DecimalString(n / 10) + [DigitChar(n % 10)]
  }

  predicate AllDigits(s: string) {
    s != [] && forall i :: 0 <= i < |s| ==> IsDigit(s[i])
  }

  /** `int(s)` for a whitespace-free argument: an optional sign and decimal digits;
      anything else is the ValueError path (`None`). */
  function ParseInt(s: string): (r: Option<int>)
    ensures r.Some? <==> AllDigits(s) || (|s| >= 2 && (s[0] == '-' || s[0] == '+') && AllDigits(s[1..]))
    ensures r.Some? && AllDigits(s) ==> r.value >= 0
  {
    if AllDigits(s) then Some(DigitsValue(s))
    else if |s| >= 2 && s[0] == '+' && AllDigits(s[1..]) then Some(DigitsValue(s[1..]))
    else if |s| >= 2 && s[0] == '-' && AllDigits(s[1..]) then Some(-(DigitsValue(s[1..]) as int))
    else None
  }

  /** Reading back the decimal rendering of `n` gives `n`. */
  lemma {:induction false} DecimalRoundTrip(n: nat)
    ensures DigitsValue(DecimalString(n)) == n
  {
    if n >= 10 {
      DecimalRoundTrip(n / 10);
      var s := DecimalString(n);
      assert s[..|s| - 1] == DecimalString(n / 10);
    }
  }

  /** `int(f"{n}") == n`: the number the bot prints is the number `int()` reads. */
  lemma ParseDecimal(n: nat)
    ensures ParseInt(DecimalString(n)) == Some(n)
  {
    DecimalRoundTrip(n);
  }

  /** `int(f"{-m}") == -m` for a positive `m`; the sign and the digits form one word. */
  lemma ParseNegative(m: nat)
    requires m > 0
    ensures ParseInt("-" + DecimalString(m)) == Some(-(m as int))
    ensures NoSpace("-" + DecimalString(m))
  {
    var d := DecimalString(m);
    var s := "-" + d;
    DecimalRoundTrip(m);
    DigitsHaveNoSpace(d);
    assert s[0] == '-' && s[1..] == d;
    assert !AllDigits(s);
    forall i | 0 <= i < |s| ensures !IsSpace(s[i]) {
      if i > 0 { assert s[i] == d[i - 1]; }
    }
  }

  lemma DigitsHaveNoSpace(d: string)
    requires forall i :: 0 <= i < |d| ==> IsDigit(d[i])
    ensures NoSpace(d)
  {
    forall i | 0 <= i < |d| ensures !IsSpace(d[i]) { assert IsDigit(d[i]); }
  }
}
