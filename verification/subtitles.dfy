/** Subtitle generation for the video renderer: the per-language subtitle
    settings, the greedy word wrapper that cuts a script into subtitle
    lines, the SRT timestamp format, and the SRT document whose cues share
    the video's duration evenly. Times are integer milliseconds. */
module Subtitles {
  import opened Text
  import opened Arith

  // ---------------------------------------------------------------------
  // Settings

  /** One row of the subtitle settings table; `lineHeight` is data only. */
  datatype SubtitleSetting = SubtitleSetting(fontSize: nat, lineHeight: real, maxCharsPerLine: nat)

  /** The table of subtitle settings, keyed by language code. */
  function SubtitleEntry(lang: String): Option<SubtitleSetting> {
    if lang == "en" then Some(SubtitleSetting(48, 1.2, 25))
    else if lang == "de" then Some(SubtitleSetting(44, 1.3, 22))
    else if lang == "ko" then Some(SubtitleSetting(52, 1.1, 20))
    else if lang == "zh" then Some(SubtitleSetting(50, 1.1, 18))
    else None
  }

  /** `subtitle_settings.get(language, subtitle_settings['en'])`. */
  function SubtitleSettingsFor(lang: String): (r: SubtitleSetting)
    ensures SubtitleEntry(lang).Some? ==> r == SubtitleEntry(lang).value
    ensures SubtitleEntry(lang).None? ==> r == SubtitleEntry("en").value
    ensures 18 <= r.maxCharsPerLine <= 25 && 44 <= r.fontSize <= 52
  {
    match SubtitleEntry(lang)
    case Some(s) => s
    case None => SubtitleSetting(48, 1.2, 25)
  }

  /** Exactly four languages have their own subtitle settings; every other
      code (Japanese, say) is rendered with the English ones. */
  lemma SubtitleLanguages(lang: String)
    ensures SubtitleEntry(lang).Some? <==> lang in {"en", "de", "ko", "zh"}
    ensures SubtitleSettingsFor("ja") == SubtitleSetting(48, 1.2, 25)
  {
  }

  // ---------------------------------------------------------------------
  // Word wrapping

  /** The wrapper's test before adding word `w` to the open line made of the
      words `cur`: it measures `line + " " + w`, with the space counted even
      while the line is still empty. */
  predicate LineFits(cur: seq<String>, w: String, maxChars: int) {
    |JoinSpace(cur) + " " + w| <= maxChars
  }

  /** Greedy wrapping of words into groups, one group per subtitle line:
      `done` holds the closed lines, `cur` the open one. A word that does not
      fit closes the open line (if there is one) and starts the next. */
  function Wrap(rest: seq<String>, maxChars: int, done: seq<seq<String>>, cur: seq<String>): seq<seq<String>>
    decreases |rest|
  {
    if rest == [] then (if cur == [] then done else done + [cur])
    else if LineFits(cur, rest[0], maxChars) then Wrap(rest[1..], maxChars, done, cur + [rest[0]])
    else Wrap(rest[1..], maxChars, if cur == [] then done else done + [cur], [rest[0]])
  }

  function LineGroups(text: String, maxChars: int): seq<seq<String>> {
    Wrap(Words(text), maxChars, [], [])
  }

  function Lines(gs: seq<seq<String>>): (r: seq<String>)
    ensures |r| == |gs|
  {
    seq(|gs|, k requires 0 <= k < |gs| => JoinSpace(gs[k]))
  }

  /** `_split_text_for_subtitles`: the wrapped lines of `text`. */
  function SplitTextForSubtitles(text: String, maxChars: int): (lines: seq<String>)
    ensures |lines| == |LineGroups(text, maxChars)|
  {
    Lines(LineGroups(text, maxChars))
  }

  /** The wrapper loop as the source writes it, over strings, with the
      Python truthiness test on the open line. It computes exactly the group
      model. */
  method SplitTextForSubtitlesLoop(text: String, maxChars: int) returns (lines: seq<String>)
    ensures lines == SplitTextForSubtitles(text, maxChars)
  {
    var words := Words(text);
    WordsAreWords(text);
    lines := [];
    var current: String := "";
    ghost var done: seq<seq<String>> := [];
    ghost var cur: seq<String> := [];
    var i := 0;
    while i < |words|
      invariant 0 <= i <= |words|
      invariant current == JoinSpace(cur)
      invariant current == [] <==> cur == []
      invariant lines == Lines(done)
      invariant Wrap(words[i..], maxChars, done, cur) == LineGroups(text, maxChars)
    {
      var word := words[i];
      ghost var rest := words[i..];
      assert rest[0] == word && rest[1..] == words[i + 1..];
      WrapStep(rest, maxChars, done, cur);
      if |current + " " + word| <= maxChars {
        JoinSpaceAppend(cur, word);
        if current != "" {
          current := current + " " + word;
        } else {
          current := word;
        }
        cur := cur + [word];
      } else {
        if current != "" {
          lines := lines + [current];
          LinesAppend(done, cur);
          done := done + [cur];
        }
        current := word;
        cur := [word];
      }
      i := i + 1;
    }
    if current != "" {
      lines := lines + [current];
      LinesAppend(done, cur);
      done := done + [cur];
    }
  }

  /** Adding a word to a line of words appends a space and the word, except
      to the empty line. */
  lemma JoinSpaceAppend(cur: seq<String>, w: String)
    ensures cur == [] ==> JoinSpace(cur + [w]) == w
    ensures cur != [] ==> JoinSpace(cur + [w]) == JoinSpace(cur) + " " + w
  {
    if cur == [] {
      assert cur + [w] == [w];
    } else {
      JoinAppend(cur, [w], " ");
    }
  }

  lemma WrapStep(rest: seq<String>, maxChars: int, done: seq<seq<String>>, cur: seq<String>)
    requires rest != []
    ensures LineFits(cur, rest[0], maxChars) ==> Wrap(rest, maxChars, done, cur) == Wrap(rest[1..], maxChars, done, cur + [rest[0]])
    ensures !LineFits(cur, rest[0], maxChars) ==>
              Wrap(rest, maxChars, done, cur) == Wrap(rest[1..], maxChars, if cur == [] then done else done + [cur], [rest[0]])
  {
  }

  lemma LinesAppend(done: seq<seq<String>>, cur: seq<String>)
    ensures Lines(done + [cur]) == Lines(done) + [JoinSpace(cur)]
  {
  }

  // ---------------------------------------------------------------------
  // Properties of the wrapping

  /** Consecutive lines `a`, `b`: `a` was closed only because the first word
      of `b` did not fit after it. */
  predicate ClosedGreedily(a: seq<String>, b: seq<String>, maxChars: int)
    requires b != []
  {
    !LineFits(a, b[0], maxChars)
  }

  /** The shape of a wrapping: no empty line, only a one-word line may be
      longer than the limit, and every line but the last was closed
      greedily. */
  predicate WellWrapped(gs: seq<seq<String>>, maxChars: int) {
    && (forall k :: 0 <= k < |gs| ==> gs[k] != [])
    && (forall k :: 0 <= k < |gs| && |gs[k]| >= 2 ==> |JoinSpace(gs[k])| <= maxChars)
    && (forall k :: 1 <= k < |gs| ==> ClosedGreedily(gs[k - 1], gs[k], maxChars))
  }

  lemma {:induction false} WrapInvariant(rest: seq<String>, maxChars: int, done: seq<seq<String>>, cur: seq<String>)
    requires WellWrapped(done, maxChars)
    requires cur == [] ==> done == []
    requires |cur| >= 2 ==> |JoinSpace(cur)| <= maxChars
    requires done != [] && cur != [] ==> ClosedGreedily(done[|done| - 1], cur, maxChars)
    ensures WellWrapped(Wrap(rest, maxChars, done, cur), maxChars)
    ensures Flatten(Wrap(rest, maxChars, done, cur)) == Flatten(done) + cur + rest
    decreases |rest|
  {
    if rest == [] {
      if cur != [] {
        CloseLine(done, cur, maxChars);
        FlattenClose(done, cur, []);
      } else {
        assert Flatten(done) + cur + rest == Flatten(done);
      }
    } else if LineFits(cur, rest[0], maxChars) {
      var cur' := cur + [rest[0]];
      JoinSpaceAppend(cur, rest[0]);
      assert cur' + rest[1..] == cur + rest;
      assert done != [] && cur != [] ==> cur'[0] == cur[0];
      WrapInvariant(rest[1..], maxChars, done, cur');
    } else if cur == [] {
      WrapInvariant(rest[1..], maxChars, done, [rest[0]]);
      assert [rest[0]] + rest[1..] == rest;
    } else {
      CloseLine(done, cur, maxChars);
      var done' := done + [cur];
      assert done'[|done'| - 1] == cur;
      WrapInvariant(rest[1..], maxChars, done', [rest[0]]);
      FlattenClose(done, cur, rest);
    }
  }

  lemma CloseLine(done: seq<seq<String>>, cur: seq<String>, maxChars: int)
    requires WellWrapped(done, maxChars)
    requires cur != []
    requires |cur| >= 2 ==> |JoinSpace(cur)| <= maxChars
    requires done != [] ==> ClosedGreedily(done[|done| - 1], cur, maxChars)
    ensures WellWrapped(done + [cur], maxChars)
  {
    var gs := done + [cur];
    assert forall k :: 0 <= k < |done| ==> gs[k] == done[k];
    assert gs[|done|] == cur;
  }

  /** The subtitle lines are the space-joined groups of a well-formed
      wrapping that lists every whitespace-separated word of the text exactly
      once, in order. */
  lemma SubtitleLinesCoverWords(text: String, maxChars: int)
    ensures var gs := LineGroups(text, maxChars);
            && Flatten(gs) == Words(text)
            && WellWrapped(gs, maxChars)
            && SplitTextForSubtitles(text, maxChars) == Lines(gs)
  {
    WrapInvariant(Words(text), maxChars, [], []);
    assert Flatten<String>([]) + [] + Words(text) == Words(text);
  }

  /** Joining the lines of a wrapping with spaces gives the words joined with
      spaces. */
  lemma {:induction false} JoinLines(gs: seq<seq<String>>)
    requires forall k :: 0 <= k < |gs| ==> gs[k] != []
    ensures JoinSpace(Lines(gs)) == JoinSpace(Flatten(gs))
    decreases |gs|
  {
    if |gs| == 1 {
      assert Flatten(gs) == gs[0] + Flatten(gs[1..]);
      assert gs[0] + Flatten<String>([]) == gs[0];
    } else if |gs| > 1 {
      var rest := gs[1..];
      JoinLines(rest);
      assert Lines(gs)[1..] == Lines(rest);
      assert Flatten(rest) == rest[0] + Flatten(rest[1..]);
      JoinAppend(gs[0], Flatten(rest), " ");
    }
  }

  /** Wrapping neither loses, reorders nor changes a word: the lines joined
      with single spaces are the text's words joined with single spaces, and
      splitting them again gives back the text's words. */
  lemma WrappedLinesKeepWords(text: String, maxChars: int)
    ensures JoinSpace(SplitTextForSubtitles(text, maxChars)) == JoinSpace(Words(text))
    ensures Words(JoinSpace(SplitTextForSubtitles(text, maxChars))) == Words(text)
  {
    SubtitleLinesCoverWords(text, maxChars);
    JoinLines(LineGroups(text, maxChars));
    WordsAreWords(text);
    WordsOfJoinSpace(Words(text));
  }

  /** No subtitle line is empty or starts with whitespace; a blank text has
      no lines at all, and any other text has at least one. */
  lemma WrappedLinesShape(text: String, maxChars: int, k: nat)
    ensures SplitTextForSubtitles(text, maxChars) == [] <==> AllSpace(text)
    ensures k < |SplitTextForSubtitles(text, maxChars)| ==>
              var line := SplitTextForSubtitles(text, maxChars)[k];
              line != [] && !IsSpace(line[0])
  {
    SubtitleLinesCoverWords(text, maxChars);
    WordsEmptyIffBlank(text);
    WordsAreWords(text);
    var gs := LineGroups(text, maxChars);
    var ws := Words(text);
    if ws != [] {
      assert gs != [];
    }
    if k < |gs| {
      var g := gs[k];
      assert g != [] && g[0] != [] && NoSpace(g[0]) by {
        FlattenHas(gs, k);
      }
      JoinStartsWithFirst(g, " ");
    }
  }

  /** Every word of every group is a word of the flattened wrapping. */
  lemma {:induction false} FlattenHas(gs: seq<seq<String>>, k: nat)
    requires k < |gs| && gs[k] != []
    ensures exists j :: 0 <= j < |Flatten(gs)| && Flatten(gs)[j] == gs[k][0]
    decreases k
  {
    if k == 0 {
      assert Flatten(gs)[0] == gs[0][0];
    } else {
      FlattenHas(gs[1..], k - 1);
      var j :| 0 <= j < |Flatten(gs[1..])| && Flatten(gs[1..])[j] == gs[k][0];
      assert Flatten(gs)[|gs[0]| + j] == gs[k][0];
    }
  }

  /** A line of two or more words respects the limit, and a line was closed
      only because the next word would have overflowed it. */
  lemma WrappedLineBounds(text: String, maxChars: int, k: nat)
    requires k < |SplitTextForSubtitles(text, maxChars)|
    ensures |LineGroups(text, maxChars)[k]| >= 2 ==> |SplitTextForSubtitles(text, maxChars)[k]| <= maxChars
    ensures k + 1 < |SplitTextForSubtitles(text, maxChars)| ==>
              var lines := SplitTextForSubtitles(text, maxChars);
              var next := LineGroups(text, maxChars)[k + 1];
              next != [] && |lines[k] + " " + next[0]| > maxChars
  {
    SubtitleLinesCoverWords(text, maxChars);
    var gs := LineGroups(text, maxChars);
    if k + 1 < |gs| {
      assert ClosedGreedily(gs[k], gs[k + 1], maxChars);
    }
  }

  /** A word longer than the limit is not cut: wherever it occurs in the
      text, its line holds that word alone, and so exceeds the limit. */
  lemma LongWordOverflows(text: String, maxChars: int, k: nat, w: String)
    requires k < |LineGroups(text, maxChars)|
    requires w in LineGroups(text, maxChars)[k] && |w| > maxChars
    ensures LineGroups(text, maxChars)[k] == [w]
    ensures SplitTextForSubtitles(text, maxChars)[k] == w
  {
    SubtitleLinesCoverWords(text, maxChars);
    var g := LineGroups(text, maxChars)[k];
    var j :| 0 <= j < |g| && g[j] == w;
    JoinAtLeastPiece(g, " ", j);
    assert |g| == 1;
  }

  // ---------------------------------------------------------------------
  // SRT timestamps

  /** `_seconds_to_srt_time` on a time given in whole milliseconds:
      `HH:MM:SS,mmm`, hours padded to at least two digits. */
  function SrtTime(ms: nat): (r: String)
    ensures |r| >= 12 && r[|r| - 10] == ':' && r[|r| - 7] == ':' && r[|r| - 4] == ','
    ensures ms < 360_000_000 ==> |r| == 12
  {
    var hours := ms / 3_600_000;
    var minutes := (ms % 3_600_000) / 60_000;
    var secs := (ms % 60_000) / 1000;
    var millis := ms % 1000;
    ZeroPadExact(minutes, 2);
    ZeroPadExact(secs, 2);
    ZeroPadExact(millis, 3);
    SrtSeparators(ZeroPad(hours, 2), ZeroPad(minutes, 2), ZeroPad(secs, 2), ZeroPad(millis, 3));
    assert ms < 360_000_000 ==> |ZeroPad(hours, 2)| == 2 by {
      if ms < 360_000_000 {
        ZeroPadExact(hours, 2);
      }
    }
    ZeroPad(hours, 2) + ":" + ZeroPad(minutes, 2) + ":" + ZeroPad(secs, 2) + "," + ZeroPad(millis, 3)
  }

  /** Reads an SRT timestamp back into milliseconds; `None` when the
      separators are not where `HH:MM:SS,mmm` puts them. */
  function ParseSrtTime(t: String): Option<nat> {
    if |t| < 12 || t[|t| - 10] != ':' || t[|t| - 7] != ':' || t[|t| - 4] != ',' then None
    else
      Some(ParseDigits(t[..|t| - 10]) * 3_600_000
           + ParseDigits(t[|t| - 9..|t| - 7]) * 60_000
           + ParseDigits(t[|t| - 6..|t| - 4]) * 1000
           + ParseDigits(t[|t| - 3..]))
  }

  /** The fields of a timestamp: minutes and seconds below 60, milliseconds
      below 1000, every field made of digits, and together they give back the
      time. */
  lemma SrtTimeRoundTrip(ms: nat)
    ensures var t := SrtTime(ms);
            && (forall i :: 0 <= i < |t| && i != |t| - 10 && i != |t| - 7 && i != |t| - 4 ==> IsDigit(t[i]))
            && ParseDigits(t[|t| - 9..|t| - 7]) < 60
            && ParseDigits(t[|t| - 6..|t| - 4]) < 60
            && ParseDigits(t[|t| - 3..]) < 1000
            && ParseSrtTime(t) == Some(ms)
  {
    SrtTimeDigits(ms);
    SrtTimeBounds(ms);
    SrtTimeParses(ms);
  }

  lemma SrtTimeDigits(ms: nat)
    ensures var t := SrtTime(ms);
            forall i :: 0 <= i < |t| && i != |t| - 10 && i != |t| - 7 && i != |t| - 4 ==> IsDigit(t[i])
  {
    SrtDigitsOf(SrtTime(ms), ms / 3_600_000, (ms % 3_600_000) / 60_000, (ms % 60_000) / 1000, ms % 1000);
  }

  lemma SrtTimeBounds(ms: nat)
    ensures var t := SrtTime(ms);
            && ParseDigits(t[|t| - 9..|t| - 7]) < 60
            && ParseDigits(t[|t| - 6..|t| - 4]) < 60
            && ParseDigits(t[|t| - 3..]) < 1000
  {
    SrtOfFields(SrtTime(ms), ms / 3_600_000, (ms % 3_600_000) / 60_000, (ms % 60_000) / 1000, ms % 1000);
  }

  /** The timestamp of given field values: digits apart from the separators,
      each field read back as written. */
  lemma SrtOfFields(t: String, hours: nat, minutes: nat, secs: nat, millis: nat)
    requires minutes < 60 && secs < 60 && millis < 1000
    requires t == ZeroPad(hours, 2) + ":" + ZeroPad(minutes, 2) + ":" + ZeroPad(secs, 2) + "," + ZeroPad(millis, 3)
    ensures ParseDigits(t[|t| - 9..|t| - 7]) == minutes
    ensures ParseDigits(t[|t| - 6..|t| - 4]) == secs
    ensures ParseDigits(t[|t| - 3..]) == millis
    ensures ParseSrtTime(t) == Some(hours * 3_600_000 + minutes * 60_000 + secs * 1000 + millis)
  {
    FieldWidths(minutes, secs, millis);
    var h, m, sc, f := ZeroPad(hours, 2), ZeroPad(minutes, 2), ZeroPad(secs, 2), ZeroPad(millis, 3);
    SrtSeparators(h, m, sc, f);
    ParseZeroPad(hours, 2);
    ParseZeroPad(minutes, 2);
    ParseZeroPad(secs, 2);
    ParseZeroPad(millis, 3);
    assert ParseDigits(t[..|t| - 10]) == hours;
    assert ParseDigits(t[|t| - 9..|t| - 7]) == minutes;
    assert ParseDigits(t[|t| - 6..|t| - 4]) == secs;
    assert ParseDigits(t[|t| - 3..]) == millis;
    ParseSrtFields(t, hours, minutes, secs, millis);
  }

  /** A timestamp joined from padded fields is all digits apart from its
      separators. */
  lemma SrtDigitsOf(t: String, hours: nat, minutes: nat, secs: nat, millis: nat)
    requires minutes < 60 && secs < 60 && millis < 1000
    requires t == ZeroPad(hours, 2) + ":" + ZeroPad(minutes, 2) + ":" + ZeroPad(secs, 2) + "," + ZeroPad(millis, 3)
    ensures forall i :: 0 <= i < |t| && i != |t| - 10 && i != |t| - 7 && i != |t| - 4 ==> IsDigit(t[i])
  {
    FieldWidths(minutes, secs, millis);
    SrtLayout(ZeroPad(hours, 2), ZeroPad(minutes, 2), ZeroPad(secs, 2), ZeroPad(millis, 3));
  }

  /** Minutes, seconds and milliseconds pad to exactly 2, 2 and 3 digits. */
  lemma FieldWidths(minutes: nat, secs: nat, millis: nat)
    requires minutes < 60 && secs < 60 && millis < 1000
    ensures |ZeroPad(minutes, 2)| == 2 && |ZeroPad(secs, 2)| == 2 && |ZeroPad(millis, 3)| == 3
  {
    assert Pow10(2) == 100 && Pow10(3) == 1000;
    ZeroPadExact(minutes, 2);
    ZeroPadExact(secs, 2);
    ZeroPadExact(millis, 3);
  }

  /** Where the fields and separators of `H:MM:SS,mmm` sit in the joined
      string: the separators 10, 7 and 4 places from the end. */
  lemma SrtSeparators(h: String, m: String, s: String, f: String)
    requires |m| == 2 && |s| == 2 && |f| == 3
    ensures var t := h + ":" + m + ":" + s + "," + f;
            && |t| == |h| + 10 && t[|t| - 10] == ':' && t[|t| - 7] == ':' && t[|t| - 4] == ','
            && t[..|t| - 10] == h && t[|t| - 9..|t| - 7] == m
            && t[|t| - 6..|t| - 4] == s && t[|t| - 3..] == f
  {
    var t := h + ":" + m + ":" + s + "," + f;
    var n := |h|;
    assert t[n] == ':' && t[n + 3] == ':' && t[n + 6] == ',';
    assert t[..n] == h;
    assert t[n + 1..n + 3] == m;
    assert t[n + 4..n + 6] == s;
    assert t[n + 7..] == f;
  }

  /** A timestamp whose separators sit in place reads as its four fields. */
  lemma ParseSrtFields(t: String, hours: nat, minutes: nat, secs: nat, millis: nat)
    requires |t| >= 12 && t[|t| - 10] == ':' && t[|t| - 7] == ':' && t[|t| - 4] == ','
    requires ParseDigits(t[..|t| - 10]) == hours && ParseDigits(t[|t| - 9..|t| - 7]) == minutes
    requires ParseDigits(t[|t| - 6..|t| - 4]) == secs && ParseDigits(t[|t| - 3..]) == millis
    ensures ParseSrtTime(t) == Some(hours * 3_600_000 + minutes * 60_000 + secs * 1000 + millis)
  {
  }

  /** A timestamp joined from digit fields is all digits apart from its
      separators. */
  lemma SrtLayout(h: String, m: String, s: String, f: String)
    requires |m| == 2 && |s| == 2 && |f| == 3
    requires forall i :: 0 <= i < |h| ==> IsDigit(h[i])
    requires forall i :: 0 <= i < |m| ==> IsDigit(m[i])
    requires forall i :: 0 <= i < |s| ==> IsDigit(s[i])
    requires forall i :: 0 <= i < |f| ==> IsDigit(f[i])
    ensures var t := h + ":" + m + ":" + s + "," + f;
            forall i :: 0 <= i < |t| && i != |t| - 10 && i != |t| - 7 && i != |t| - 4 ==> IsDigit(t[i])
  {
    var t := h + ":" + m + ":" + s + "," + f;
    var n := |h|;
    forall i | 0 <= i < |t| && i != n && i != n + 3 && i != n + 6 ensures IsDigit(t[i]) {
      if i < n {
        assert t[i] == h[i];
      } else if i < n + 3 {
        assert t[i] == m[i - n - 1];
      } else if i < n + 6 {
        assert t[i] == s[i - n - 4];
      } else {
        assert t[i] == f[i - n - 7];
      }
    }
  }

  lemma SrtTimeParses(ms: nat)
    ensures ParseSrtTime(SrtTime(ms)) == Some(ms)
  {
    SrtOfFields(SrtTime(ms), ms / 3_600_000, (ms % 3_600_000) / 60_000, (ms % 60_000) / 1000, ms % 1000);
    SrtFieldsRecombine(ms);
  }

  lemma SrtFieldsRecombine(ms: nat)
    ensures (ms / 3_600_000) * 3_600_000 + ((ms % 3_600_000) / 60_000) * 60_000
            + ((ms % 60_000) / 1000) * 1000 + ms % 1000 == ms
  {
    assert ms % 60_000 == (ms % 3_600_000) % 60_000;
  }

  // ---------------------------------------------------------------------
  // SRT cues

  /** One cue of the subtitle file. */
  datatype Cue = Cue(index: nat, startMs: nat, endMs: nat, text: String)

  /** Time at which cue `i` of `n` starts when `n` cues share `duration`
      seconds evenly, truncated to the millisecond. */
  function CueTime(i: nat, n: nat, duration: nat): (ms: nat)
    requires n > 0
    ensures ms * n <= i * duration * 1000 < (ms + 1) * n
  {
    (i * duration * 1000) / n
  }

  /** The cues for the wrapped lines: cue `i` shows line `i`, numbered from
      one, from `i * d / n` to `(i + 1) * d / n` seconds. */
  function Cues(lines: seq<String>, duration: nat): (cs: seq<Cue>)
    ensures |cs| == |lines|
  {
    if lines == [] then []
    else seq(|lines|, i requires 0 <= i < |lines| =>
           Cue(i + 1, CueTime(i, |lines|, duration), CueTime(i + 1, |lines|, duration), lines[i]))
  }

  /** The cues number the lines 1..n in order, start at zero, follow each
      other without gap or overlap, never run backwards, and the last ends at
      the full duration. */
  lemma CueTiming(lines: seq<String>, duration: nat)
    ensures var cs := Cues(lines, duration);
            && (forall i :: 0 <= i < |cs| ==> cs[i].index == i + 1 && cs[i].text == lines[i])
            && (forall i :: 0 <= i < |cs| ==> cs[i].startMs <= cs[i].endMs)
            && (forall i :: 1 <= i < |cs| ==> cs[i].startMs == cs[i - 1].endMs)
            && (forall i :: 0 <= i < |cs| ==>
                  cs[i].startMs == CueTime(i, |lines|, duration) && cs[i].endMs == CueTime(i + 1, |lines|, duration))
            && (cs != [] ==> cs[0].startMs == 0 && cs[|cs| - 1].endMs == duration * 1000)
  {
    var cs := Cues(lines, duration);
    var n := |lines|;
    forall i | 0 <= i < |cs|
      ensures cs[i] == Cue(i + 1, CueTime(i, n, duration), CueTime(i + 1, n, duration), lines[i])
      ensures cs[i].startMs <= cs[i].endMs
    {
      CueAt(lines, duration, i);
      CueTimeMonotone(i, i + 1, n, duration);
    }
    if cs != [] {
      assert cs[0].startMs == CueTime(0, n, duration) == 0;
      assert cs[n - 1].endMs == CueTime(n, n, duration);
      CueTimeFull(n, duration);
    }
  }

  lemma CueAt(lines: seq<String>, duration: nat, i: nat)
    requires i < |lines|
    ensures Cues(lines, duration)[i]
            == Cue(i + 1, CueTime(i, |lines|, duration), CueTime(i + 1, |lines|, duration), lines[i])
  {
  }

  /** The cues are evenly spaced: each lasts `duration / n` seconds, which
      truncation to the millisecond shortens or lengthens by at most one
      millisecond. */
  lemma CuesEvenlySpaced(lines: seq<String>, duration: nat, i: nat)
    requires i < |lines|
    ensures var cs := Cues(lines, duration);
            (duration * 1000) / |lines| <= cs[i].endMs - cs[i].startMs <= (duration * 1000) / |lines| + 1
  {
    CueLength(i, |lines|, duration);
  }

  lemma CueLength(i: nat, n: nat, duration: nat)
    requires n > 0
    ensures (duration * 1000) / n <= CueTime(i + 1, n, duration) - CueTime(i, n, duration) <= (duration * 1000) / n + 1
  {
    assert (i + 1) * duration * 1000 == i * duration * 1000 + duration * 1000;
    DivAddBetween(i * duration * 1000, duration * 1000, n);
  }

  /** The last cue ends exactly at the duration. */
  lemma CueTimeFull(n: nat, duration: nat)
    requires n > 0
    ensures CueTime(n, n, duration) == duration * 1000
  {
    var c := duration * 1000;
    assert n * duration * 1000 == c * n;
    MulDivCancel(c, n);
  }

  lemma CueTimeMonotone(i: nat, j: nat, n: nat, duration: nat)
    requires n > 0 && i <= j
    ensures CueTime(i, n, duration) <= CueTime(j, n, duration)
  {
    var c := duration * 1000;
    MulMono(i, j, c);
    assert i * duration * 1000 == i * c && j * duration * 1000 == j * c;
    DivMonotone(i * c, j * c, n);
  }

  /** The timing line of a cue, without its newline. */
  function TimingLine(startMs: nat, endMs: nat): String {
    SrtTime(startMs) + " --> " + SrtTime(endMs)
  }

  /** The text of one cue block: number, timing line, text, blank line. */
  function CueBlock(c: Cue): String {
    NatToString(c.index) + "\n" + TimingLine(c.startMs, c.endMs) + "\n" + c.text + "\n\n"
  }

  /** The SRT document for a list of cues: their blocks in order. */
  function SrtDocument(cs: seq<Cue>): (r: String)
    ensures r == [] <==> cs == []
    decreases |cs|
  {
    if cs == [] then [] else CueBlock(cs[0]) + SrtDocument(cs[1..])
  }

  /** The content `_create_subtitle_file` writes for a script, a language
      and a duration in seconds (the file itself is not modelled). */
  function SubtitleFile(content: String, lang: String, duration: nat): (r: String)
    ensures r == [] <==> AllSpace(content)
  {
    var lines := SplitTextForSubtitles(content, SubtitleSettingsFor(lang).maxCharsPerLine);
    WrappedLinesShape(content, SubtitleSettingsFor(lang).maxCharsPerLine, 0);
    SrtDocument(Cues(lines, duration))
  }

  /** The timing line of a cue reads back as the cue's start and end. */
  lemma TimingLineRoundTrip(startMs: nat, endMs: nat)
    ensures var s := SrtTime(startMs);
            var l := TimingLine(startMs, endMs);
            && |l| >= |s| + 5
            && l[|s|..|s| + 5] == " --> "
            && ParseSrtTime(l[..|s|]) == Some(startMs)
            && ParseSrtTime(l[|s| + 5..]) == Some(endMs)
  {
    var s := SrtTime(startMs);
    var e := SrtTime(endMs);
    SrtTimeParses(startMs);
    SrtTimeParses(endMs);
    ThreeParts(s, " --> ", e);
  }

  lemma ThreeParts(s: String, m: String, e: String)
    ensures var l := s + m + e;
            l[..|s|] == s && l[|s|..|s| + |m|] == m && l[|s| + |m|..] == e
  {
  }

  /** A document is the concatenation of its cue blocks: documents of two
      cue lists append. */
  lemma {:induction false} SrtDocumentAppend(a: seq<Cue>, b: seq<Cue>)
    ensures SrtDocument(a + b) == SrtDocument(a) + SrtDocument(b)
    decreases |a|
  {
    if a == [] {
      assert a + b == b;
    } else {
      assert (a + b)[1..] == a[1..] + b;
      SrtDocumentAppend(a[1..], b);
    }
  }

  /** A blank script gives an empty subtitle file; any other script gives a
      file that starts with cue number 1 at time zero. */
  lemma SubtitleFileShape(content: String, lang: String, duration: nat)
    ensures SubtitleFile(content, lang, duration) == [] <==> AllSpace(content)
    ensures !AllSpace(content) ==>
              var n := |SplitTextForSubtitles(content, SubtitleSettingsFor(lang).maxCharsPerLine)|;
              StartsWith(SubtitleFile(content, lang, duration), "1\n" + TimingLine(0, CueTime(1, n, duration)))
  {
    var lines := SplitTextForSubtitles(content, SubtitleSettingsFor(lang).maxCharsPerLine);
    WrappedLinesShape(content, SubtitleSettingsFor(lang).maxCharsPerLine, 0);
    SrtDocumentShape(lines, duration);
  }

  /** The document for a list of lines is empty exactly when there are no
      lines, and otherwise opens with cue 1 starting at time zero. */
  lemma SrtDocumentShape(lines: seq<String>, duration: nat)
    ensures SrtDocument(Cues(lines, duration)) == [] <==> lines == []
    ensures lines != [] ==>
              StartsWith(SrtDocument(Cues(lines, duration)), "1\n" + TimingLine(0, CueTime(1, |lines|, duration)))
  {
    if lines != [] {
      var cs := Cues(lines, duration);
      FirstCue(lines, duration);
      FirstBlock(cs);
    }
  }

  lemma FirstCue(lines: seq<String>, duration: nat)
    requires lines != []
    ensures var c := Cues(lines, duration)[0];
            NatToString(c.index) + "\n" + TimingLine(c.startMs, c.endMs)
            == "1\n" + TimingLine(0, CueTime(1, |lines|, duration))
  {
    var c := Cues(lines, duration)[0];
    assert c == Cue(1, CueTime(0, |lines|, duration), CueTime(1, |lines|, duration), lines[0]);
    assert c.startMs == 0;
    FirstNumber(TimingLine(c.startMs, c.endMs));
  }

  lemma FirstNumber(rest: String)
    ensures NatToString(1) + "\n" + rest == "1\n" + rest
  {
    assert NatToString(1) == "1";
  }

  /** A non-empty cue list gives a document opening with its first cue's
      number and timing line. */
  lemma FirstBlock(cs: seq<Cue>)
    requires cs != []
    ensures StartsWith(SrtDocument(cs), NatToString(cs[0].index) + "\n" + TimingLine(cs[0].startMs, cs[0].endMs))
  {
    var c := cs[0];
    var p := NatToString(c.index) + "\n" + TimingLine(c.startMs, c.endMs);
    StartsWithExtend(p, p, "\n");
    StartsWithExtend(p + "\n", p, c.text);
    StartsWithExtend(p + "\n" + c.text, p, "\n\n");
    StartsWithExtend(CueBlock(c), p, SrtDocument(cs[1..]));
  }

  lemma StartsWithExtend(s: String, p: String, t: String)
    requires StartsWith(s, p)
    ensures StartsWith(s + t, p)
  {
    assert (s + t)[..|p|] == s[..|p|];
  }
}
