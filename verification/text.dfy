/** Python string semantics used by the pipeline: whitespace stripping,
    `str.split(sep)`, `str.split()`, `sep.join(xs)`, `str.startswith` and
    `str.replace`. Strings are sequences of characters. */
module Text {

  type String = seq<char>

  datatype Option<+T> = None | Some(value: T)

  /** The characters Python's `str.isspace` accepts (ASCII controls 9-13 and
      28-31, the space, and the Unicode separators). */
  predicate IsSpace(c: char) {
    || c == ' '
    || ('\t' <= c <= '\r')
    || ('\U{1C}' <= c <= '\U{1F}')
    || c == '\U{85}' || c == '\U{A0}' || c == '\U{1680}'
    || ('\U{2000}' <= c <= '\U{200A}')
    || c == '\U{2028}' || c == '\U{2029}' || c == '\U{202F}'
    || c == '\U{205F}' || c == '\U{3000}'
  }

  predicate AllSpace(s: String) {
    forall i :: 0 <= i < |s| ==> IsSpace(s[i])
  }

  /** Every character of `s` in positions `lo` up to `hi` is whitespace. */
  predicate SpaceBetween(s: String, lo: int, hi: int) {
    forall i :: lo <= i < hi && 0 <= i < |s| ==> IsSpace(s[i])
  }

  predicate NoSpace(s: String) {
    forall i :: 0 <= i < |s| ==> !IsSpace(s[i])
  }

  /** The index of the first non-whitespace character at or after `i`, or
      `|s|` when there is none. */
  function SkipSpace(s: String, i: nat): (j: nat)
    requires i <= |s|
    ensures i <= j <= |s| && SpaceBetween(s, i, j)
    ensures j == |s| || !IsSpace(s[j])
    decreases |s| - i
  {
    if i == |s| || !IsSpace(s[i]) then i else SkipSpace(s, i + 1)
  }

  /** The index just after the last non-whitespace character before `j`, or
      0 when there is none. */
  function BackSpace(s: String, j: nat): (i: nat)
    requires j <= |s|
    ensures i <= j && SpaceBetween(s, i, j)
    ensures i == 0 || !IsSpace(s[i - 1])
    decreases j
  {
    if j == 0 || !IsSpace(s[j - 1]) then j else BackSpace(s, j - 1)
  }

  /** Python `s.strip()`: the result is empty exactly for blank input, and
      otherwise begins and ends with a non-whitespace character. */
  function Strip(s: String): (r: String)
    ensures |r| <= |s|
    ensures r == [] <==> AllSpace(s)
    ensures r != [] ==> !IsSpace(r[0]) && !IsSpace(r[|r| - 1])
  {
    var lo := SkipSpace(s, 0);
    var hi := BackSpace(s, |s|);
    if lo < hi then s[lo..hi] else []
  }

  /** Scanning back from `j` stops after the last non-whitespace character. */
  lemma {:induction false} BackSpaceStopsAt(s: String, j: nat, k: nat)
    requires k < j <= |s| && !IsSpace(s[k]) && SpaceBetween(s, k + 1, j)
    ensures BackSpace(s, j) == k + 1
    decreases j
  {
    if j > k + 1 {
      assert IsSpace(s[j - 1]);
      BackSpaceStopsAt(s, j - 1, k);
    }
  }

  /** Stripping a string whose last non-whitespace character sits at `k`
      keeps the slice that starts after the leading whitespace and ends at
      `k`. */
  lemma StripIsSlice(s: String, k: nat) returns (lo: nat)
    requires k < |s| && !IsSpace(s[k]) && SpaceBetween(s, k + 1, |s|)
    ensures lo <= k && Strip(s) == s[lo..k + 1] && SpaceBetween(s, 0, lo)
  {
    lo := SkipSpace(s, 0);
    BackSpaceStopsAt(s, |s|, k);
  }

  // ---------------------------------------------------------------------
  // Joining

  /** Python `sep.join(xs)`. */
  function Join(xs: seq<String>, sep: String): String
    decreases |xs|
  {
    if |xs| == 0 then [] else if |xs| == 1 then xs[0] else xs[0] + sep + Join(xs[1..], sep)
  }

  function JoinSpace(xs: seq<String>): String {
    Join(xs, " ")
  }

  /** Concatenation of a sequence of sequences. */
  function Flatten<T>(xss: seq<seq<T>>): (r: seq<T>)
    decreases |xss|
  {
    if xss == [] then [] else xss[0] + Flatten(xss[1..])
  }

  lemma {:induction false} FlattenAppend<T>(a: seq<seq<T>>, b: seq<seq<T>>)
    ensures Flatten(a + b) == Flatten(a) + Flatten(b)
    decreases |a|
  {
    if a == [] {
      assert a + b == b;
    } else {
      assert (a + b)[1..] == a[1..] + b;
      FlattenAppend(a[1..], b);
    }
  }

  /** Closing the current group `cur` of a greedy packer and moving on to
      `rest` neither loses nor reorders an element. */
  lemma FlattenClose<T>(done: seq<seq<T>>, cur: seq<T>, rest: seq<T>)
    ensures rest == [] ==> Flatten(done + [cur]) == Flatten(done) + cur + rest
    ensures rest != [] ==> Flatten(done + [cur]) + [rest[0]] + rest[1..] == Flatten(done) + cur + rest
  {
    FlattenAppend(done, [cur]);
    assert Flatten([cur]) == cur + Flatten<T>([]);
    if rest != [] {
      assert [rest[0]] + rest[1..] == rest;
    }
  }

  lemma {:induction false} JoinAppend(a: seq<String>, b: seq<String>, sep: String)
    requires a != [] && b != []
    ensures Join(a + b, sep) == Join(a, sep) + sep + Join(b, sep)
    decreases |a|
  {
    if |a| == 1 {
      assert (a + b)[1..] == b;
    } else {
      assert (a + b)[1..] == a[1..] + b;
      JoinAppend(a[1..], b, sep);
    }
  }

  // ---------------------------------------------------------------------
  // Searching and splitting on a separator

  predicate StartsWith(s: String, p: String) {
    |p| <= |s| && s[..|p|] == p
  }

  /** `pat` occurs in `s` at position `i`. */
  predicate OccursAt(s: String, pat: String, i: int) {
    0 <= i && i + |pat| <= |s| && s[i..i + |pat|] == pat
  }

  ghost predicate Contains(s: String, pat: String) {
    exists i :: OccursAt(s, pat, i)
  }

  /** Leftmost occurrence of `pat` in `s` (Python `s.find(pat)`). */
  function Find(s: String, pat: String): (r: Option<nat>)
    requires |pat| > 0
    ensures r.Some? ==> OccursAt(s, pat, r.value)
    ensures r.Some? ==> forall j :: 0 <= j < r.value ==> !OccursAt(s, pat, j)
    ensures r.None? ==> !Contains(s, pat)
    decreases |s|
  {
    if |s| < |pat| then None
    else if s[..|pat|] == pat then Some(0)
    else
      match Find(s[1..], pat)
      case None =>
        assert forall j :: OccursAt(s, pat, j) ==> j == 0 || OccursAt(s[1..], pat, j - 1) by {
          forall j | OccursAt(s, pat, j) && j != 0 ensures OccursAt(s[1..], pat, j - 1) {
            assert s[1..][j - 1..j - 1 + |pat|] == s[j..j + |pat|];
          }
        }
        None
      case Some(i) =>
        assert s[1..][i..i + |pat|] == s[i + 1..i + 1 + |pat|];
        assert forall j :: 0 < j < i + 1 && OccursAt(s, pat, j) ==> OccursAt(s[1..], pat, j - 1) by {
          forall j | 0 < j < i + 1 && OccursAt(s, pat, j) ensures OccursAt(s[1..], pat, j - 1) {
            assert s[1..][j - 1..j - 1 + |pat|] == s[j..j + |pat|];
          }
        }
        Some(i + 1)
  }

  /** Python `s.split(sep)` for a non-empty separator: the pieces between the
      leftmost non-overlapping occurrences of `sep`. The contract below fixes
      the pieces only for a separator that cannot overlap itself, as "\n",
      "," and ". " cannot; for one like "aa" the leftmost choice is the
      body's. */
  function SplitOn(s: String, sep: String): (r: seq<String>)
    requires |sep| > 0
    ensures |r| >= 1
    ensures Join(r, sep) == s
    ensures forall k :: 0 <= k < |r| ==> !Contains(r[k], sep)
    decreases |s|
  {
    match Find(s, sep)
    case None => [s]
    case Some(i) =>
      var head := s[..i];
      var rest := SplitOn(s[i + |sep|..], sep);
      assert !Contains(head, sep) by {
        forall j | OccursAt(head, sep, j) ensures OccursAt(s, sep, j) && j < i {
          assert s[..i][j..j + |sep|] == s[j..j + |sep|];
        }
      }
      assert ([head] + rest)[1..] == rest;
      assert s == head + sep + s[i + |sep|..];
      [head] + rest
  }

  /** Python `s.replace(pat, rep)`: every leftmost non-overlapping occurrence
      of `pat`, scanning left to right, is replaced by `rep`. */
  function ReplaceAll(s: String, pat: String, rep: String): (r: String)
    requires |pat| > 0
    ensures !Contains(s, pat) ==> r == s
    decreases |s|
  {
    if |s| < |pat| then s
    else if s[..|pat|] == pat then
      assert OccursAt(s, pat, 0);
      rep + ReplaceAll(s[|pat|..], pat, rep)
    else
      ContainsShift(s, pat);
      assert [s[0]] + s[1..] == s;
      [s[0]] + ReplaceAll(s[1..], pat, rep)
  }

  /** Replacing a pattern that does not occur leaves the string unchanged. */
  lemma {:induction false} ReplaceAbsent(s: String, pat: String, rep: String)
    requires |pat| > 0 && !Contains(s, pat)
    ensures ReplaceAll(s, pat, rep) == s
    decreases |s|
  {
    if |s| >= |pat| {
      assert !OccursAt(s, pat, 0);
      ContainsShift(s, pat);
      ReplaceAbsent(s[1..], pat, rep);
      assert [s[0]] + s[1..] == s;
    }
  }

  /** An occurrence in the tail of `s` is an occurrence in `s`. */
  lemma ContainsShift(s: String, pat: String)
    requires s != []
    ensures Contains(s[1..], pat) ==> Contains(s, pat)
  {
    if Contains(s[1..], pat) {
      var j :| OccursAt(s[1..], pat, j);
      assert s[1..][j..j + |pat|] == s[j + 1..j + 1 + |pat|];
      assert OccursAt(s, pat, j + 1);
    }
  }

  /** Python's identity `s.replace(a, b) == b.join(s.split(a))`: the
      character scan of ReplaceAll agrees with the split-based definition. */
  lemma {:induction false} ReplaceIsJoinOfSplit(s: String, pat: String, rep: String)
    requires |pat| > 0
    ensures ReplaceAll(s, pat, rep) == Join(SplitOn(s, pat), rep)
    decreases |s|
  {
    if |s| < |pat| {
      assert Find(s, pat) == None;
    } else if s[..|pat|] == pat {
      ReplaceIsJoinOfSplit(s[|pat|..], pat, rep);
      JoinSplitAtMatch(s, pat, rep);
    } else {
      ReplaceIsJoinOfSplit(s[1..], pat, rep);
      JoinSplitNoMatch(s, pat, rep);
    }
  }

  lemma JoinSplitAtMatch(s: String, pat: String, rep: String)
    requires |pat| > 0 && |s| >= |pat| && s[..|pat|] == pat
    ensures Join(SplitOn(s, pat), rep) == rep + Join(SplitOn(s[|pat|..], pat), rep)
  {
    assert Find(s, pat) == Some(0);
    var rest := SplitOn(s[|pat|..], pat);
    var parts := SplitOn(s, pat);
    assert parts == [s[..0]] + rest;
    assert parts[1..] == rest;
  }

  lemma JoinSplitNoMatch(s: String, pat: String, rep: String)
    requires |pat| > 0 && |s| >= |pat| && s[..|pat|] != pat
    ensures Join(SplitOn(s, pat), rep) == [s[0]] + Join(SplitOn(s[1..], pat), rep)
  {
    SplitOnNoMatchAtHead(s, pat);
    var tail := SplitOn(s[1..], pat);
    JoinConsHead([s[0]], tail, rep);
  }

  /** Prepending to the first piece prepends to the join. */
  lemma JoinConsHead(c: String, xs: seq<String>, sep: String)
    requires |xs| >= 1
    ensures Join([c + xs[0]] + xs[1..], sep) == c + Join(xs, sep)
  {
    var ys := [c + xs[0]] + xs[1..];
    assert ys[1..] == xs[1..];
  }

  /** When `s` does not start with `pat`, its first character joins the first
      piece of the split of the rest. */
  lemma SplitOnNoMatchAtHead(s: String, pat: String)
    requires |pat| > 0 && |s| >= |pat| && s[..|pat|] != pat
    ensures var tail := SplitOn(s[1..], pat);
            SplitOn(s, pat) == [[s[0]] + tail[0]] + tail[1..]
  {
    FindPastHead(s, pat);
    match Find(s[1..], pat)
    case None =>
      assert [s[0]] + s[1..] == s;
    case Some(i) =>
      SplitOnPastHead(s, pat, i);
  }

  /** A search that fails at the head continues one character on. */
  lemma FindPastHead(s: String, pat: String)
    requires |pat| > 0 && |s| >= |pat| && s[..|pat|] != pat
    ensures Find(s[1..], pat).None? ==> Find(s, pat).None?
    ensures Find(s[1..], pat).Some? ==> Find(s, pat) == Some(Find(s[1..], pat).value + 1)
  {
  }

  lemma SplitOnPastHead(s: String, pat: String, i: nat)
    requires |pat| > 0 && |s| >= |pat| && Find(s, pat) == Some(i + 1) && Find(s[1..], pat) == Some(i)
    ensures var tail := SplitOn(s[1..], pat);
            SplitOn(s, pat) == [[s[0]] + tail[0]] + tail[1..]
  {
    SlicePastHead(s, i, |pat|);
    var rest := SplitOn(s[i + 1 + |pat|..], pat);
    assert SplitOn(s, pat) == [s[..i + 1]] + rest;
    assert SplitOn(s[1..], pat) == [s[1..][..i]] + rest;
  }

  lemma SlicePastHead(s: String, i: nat, m: nat)
    requires i + 1 + m <= |s|
    ensures s[..i + 1] == [s[0]] + s[1..][..i]
    ensures s[i + 1 + m..] == s[1..][i + m..]
  {
  }

  // ---------------------------------------------------------------------
  // Whitespace-separated words (Python `s.split()` with no argument)

  /** The longest prefix of `s` without whitespace. */
  function TakeWord(s: String): (w: String)
    ensures |w| <= |s| && w == s[..|w|] && NoSpace(w)
    ensures |w| == |s| || IsSpace(s[|w|])
    decreases |s|
  {
    if s == [] || IsSpace(s[0]) then [] else [s[0]] + TakeWord(s[1..])
  }

  /** A proper word: non-empty and free of whitespace. */
  predicate IsWord(w: String) { w != [] && NoSpace(w) }

  /** Python `s.split()`: the maximal runs of non-whitespace characters. */
  function Words(s: String): (r: seq<String>)
    ensures r == [] <==> AllSpace(s)
    decreases |s|
  {
    if s == [] then []
    else if IsSpace(s[0]) then Words(s[1..])
    else
      var w := TakeWord(s);
      [w] + Words(s[|w|..])
  }

  /** Every piece of `s.split()` is a proper word. */
  lemma {:induction false} WordsAreWords(s: String)
    ensures forall k :: 0 <= k < |Words(s)| ==> IsWord(Words(s)[k])
    decreases |s|
  {
    if s != [] {
      if IsSpace(s[0]) {
        WordsAreWords(s[1..]);
      } else {
        var w := TakeWord(s);
        var rest := Words(s[|w|..]);
        WordsAreWords(s[|w|..]);
        assert Words(s) == [w] + rest;
        forall k | 0 <= k < |Words(s)| ensures IsWord(Words(s)[k]) {
          if k > 0 {
            assert Words(s)[k] == rest[k - 1];
          }
        }
      }
    }
  }

  /** The characters of `s` that are not whitespace, in order. */
  function NonSpace(s: String): String
    decreases |s|
  {
    if s == [] then [] else (if IsSpace(s[0]) then [] else [s[0]]) + NonSpace(s[1..])
  }

  lemma {:induction false} NonSpaceAppend(a: String, b: String)
    ensures NonSpace(a + b) == NonSpace(a) + NonSpace(b)
    decreases |a|
  {
    if a != [] {
      assert (a + b)[1..] == a[1..] + b;
      NonSpaceAppend(a[1..], b);
    } else {
      assert a + b == b;
    }
  }

  lemma {:induction false} NonSpaceOfWord(s: String)
    requires NoSpace(s)
    ensures NonSpace(s) == s
    decreases |s|
  {
    if s != [] {
      NonSpaceOfWord(s[1..]);
      assert [s[0]] + s[1..] == s;
    }
  }

  /** `s.split()` loses exactly the whitespace: the words concatenated are the
      non-whitespace characters of `s` in their original order. */
  lemma {:induction false} WordsKeepNonSpace(s: String)
    ensures Flatten(Words(s)) == NonSpace(s)
    decreases |s|
  {
    if s != [] {
      if IsSpace(s[0]) {
        WordsKeepNonSpace(s[1..]);
      } else {
        var w := TakeWord(s);
        var rest := s[|w|..];
        assert s == w + rest;
        NonSpaceAppend(w, rest);
        NonSpaceOfWord(w);
        WordsKeepNonSpace(rest);
        var ws := Words(s);
        assert ws[1..] == Words(rest);
      }
    }
  }

  /** `s.split()` gives `[]` exactly when `s` is empty or all whitespace. */
  lemma {:induction false} WordsEmptyIffBlank(s: String)
    ensures Words(s) == [] <==> AllSpace(s)
    decreases |s|
  {
    if s != [] {
      WordsEmptyIffBlank(s[1..]);
    }
  }

  /** Round trip: splitting the single-space join of proper words gives the
      words back. */
  lemma {:induction false} WordsOfJoinSpace(ws: seq<String>)
    requires forall k :: 0 <= k < |ws| ==> IsWord(ws[k])
    ensures Words(JoinSpace(ws)) == ws
    decreases |ws|
  {
    if |ws| == 1 {
      var w := ws[0];
      TakeWordOf(w, []);
      assert w + [] == w;
      assert w[|w|..] == [];
      WordsCons(w);
    } else if |ws| > 1 {
      var w := ws[0];
      var rest := JoinSpace(ws[1..]);
      var s := JoinSpace(ws);
      assert s == w + (" " + rest);
      assert s[0] == w[0];
      TakeWordOf(w, " " + rest);
      assert s[|w|..] == " " + rest;
      assert (" " + rest)[1..] == rest;
      assert Words(" " + rest) == Words(rest);
      WordsOfJoinSpace(ws[1..]);
      WordsCons(s);
    }
  }

  lemma WordsCons(s: String)
    requires s != [] && !IsSpace(s[0])
    ensures Words(s) == [TakeWord(s)] + Words(s[|TakeWord(s)|..])
  {
  }

  lemma {:induction false} TakeWordOf(w: String, tail: String)
    requires NoSpace(w) && (tail == [] || IsSpace(tail[0]))
    ensures TakeWord(w + tail) == w
    decreases |w|
  {
    if w != [] {
      assert (w + tail)[1..] == w[1..] + tail;
      TakeWordOf(w[1..], tail);
      assert [w[0]] + w[1..] == w;
    } else {
      assert w + tail == tail;
    }
  }

  /** A join is at least as long as each of its pieces. */
  lemma {:induction false} JoinAtLeastPiece(xs: seq<String>, sep: String, j: nat)
    requires j < |xs|
    ensures |Join(xs, sep)| >= |xs[j]|
    decreases |xs|
  {
    if j > 0 {
      JoinAtLeastPiece(xs[1..], sep, j - 1);
    }
  }

  lemma JoinStartsWithFirst(xs: seq<String>, sep: String)
    requires |xs| >= 1 && xs[0] != []
    ensures Join(xs, sep) != [] && Join(xs, sep)[0] == xs[0][0]
  {
  }

  // ---------------------------------------------------------------------
  // Decimal numbers

  function DigitChar(d: nat): char
    requires d < 10
  {
    "0123456789"[d]
  }

  predicate IsDigit(c: char) {
    '0' <= c <= '9'
  }

  /** Python `str(n)` for a natural number. */
  function NatToString(n: nat): (r: String)
    ensures r != [] && forall i :: 0 <= i < |r| ==> IsDigit(r[i])
    decreases n
  {
    if n < 10 then [DigitChar(n)] else NatToString(n / 10) + [DigitChar(n % 10)]
  }

  /** Python `f"{n:0{w}d}"`: the decimal digits of `n`, left-padded with
      zeros to at least `w` characters. */
  function ZeroPad(n: nat, w: nat): (r: String)
    ensures |r| >= w && forall i :: 0 <= i < |r| ==> IsDigit(r[i])
  {
    var d := NatToString(n);
    if |d| >= w then d else seq(w - |d|, _ => '0') + d
  }

  /** Reads a run of decimal digits (leading zeros allowed). */
  function ParseDigits(s: String): nat
    decreases |s|
  {
    if s == [] then 0
    else ParseDigits(s[..|s| - 1]) * 10 + (if IsDigit(s[|s| - 1]) then (s[|s| - 1] as int - '0' as int) else 0)
  }

  lemma {:induction false} ParseNatToString(n: nat)
    ensures ParseDigits(NatToString(n)) == n
    decreases n
  {
    if n >= 10 {
      var s := NatToString(n);
      assert s[..|s| - 1] == NatToString(n / 10);
      ParseNatToString(n / 10);
    }
  }

  lemma {:induction false} ParseLeadingZeros(k: nat, d: String)
    ensures ParseDigits(seq(k, _ => '0') + d) == ParseDigits(d)
    decreases |d|, k
  {
    var z := seq(k, _ => '0');
    if d == [] {
      assert z + d == z;
      if k > 0 {
        assert z[..k - 1] == seq(k - 1, _ => '0');
        ParseLeadingZeros(k - 1, []);
        assert seq(k - 1, _ => '0') + [] == seq(k - 1, _ => '0');
      }
    } else {
      assert (z + d)[..|z + d| - 1] == z + d[..|d| - 1];
      ParseLeadingZeros(k, d[..|d| - 1]);
    }
  }

  /** Zero padding does not change the value that the digits denote. */
  lemma ParseZeroPad(n: nat, w: nat)
    ensures ParseDigits(ZeroPad(n, w)) == n
  {
    ParseNatToString(n);
    var d := NatToString(n);
    if |d| < w {
      ParseLeadingZeros(w - |d|, d);
    }
  }

  lemma ZeroPadSmall(n: nat, w: nat)
    requires 1 <= w && n < 10
    ensures |ZeroPad(n, w)| == w
  {
  }

  lemma {:induction false} NatToStringLength(n: nat, w: nat)
    requires 1 <= w
    requires n < Pow10(w)
    ensures |NatToString(n)| <= w
    decreases w
  {
    if n >= 10 {
      assert Pow10(1) == 10;
      assert n / 10 < Pow10(w - 1);
      NatToStringLength(n / 10, w - 1);
    }
  }

  function Pow10(w: nat): (r: nat)
    ensures r >= 1
  {
    if w == 0 then 1 else 10 * Pow10(w - 1)
  }

  /** A number below 10^w pads to exactly w characters. */
  lemma ZeroPadExact(n: nat, w: nat)
    requires 1 <= w && n < Pow10(w)
    ensures |ZeroPad(n, w)| == w
  {
    NatToStringLength(n, w);
  }
}
