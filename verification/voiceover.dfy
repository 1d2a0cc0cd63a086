/** The voice-synthesis component: the greedy sentence splitter that feeds
    the primary text-to-speech provider, the per-language voice settings
    (including the style presets that overwrite them in place), and the
    fallback cascade primary provider -> merge -> offline TTS -> silent
    track -> "". Every provider call is an oracle: its outcome is part of
    the input, so the cascade is a total function of text, settings and
    outcomes. */
module Voiceover {
  import opened Text

  /** Default `max_chars` of the splitter. */
  const MaxTtsChars := 2500

  /** Separator the splitter splits on and re-appends after every sentence. */
  const SentenceSep: String := ". "

  /** Length in seconds of the silent last-resort track. */
  const SilentSeconds := 30

  // ---------------------------------------------------------------------
  // Text chunking

  /** The buffer built from a group of sentences: each sentence followed by
      ". ". The splitter's `current_chunk` is always the render of the
      sentences collected since the last chunk was closed. */
  function Render(g: seq<String>): (r: String)
    ensures g != [] ==> |r| >= |g[0]| + 2 && r[|g[0]|] == '.'
    ensures g == [] ==> r == []
    decreases |g|
  {
    if g == [] then [] else g[0] + SentenceSep + Render(g[1..])
  }

  lemma {:induction false} RenderAppend(g: seq<String>, s: String)
    ensures Render(g + [s]) == Render(g) + s + SentenceSep
    decreases |g|
  {
    if g == [] {
      assert [] + [s] == [s];
      assert Render([s]) == s + SentenceSep + Render([]);
    } else {
      assert (g + [s])[1..] == g[1..] + [s];
      RenderAppend(g[1..], s);
    }
  }

  /** The test the splitter applies before adding `s` to the open chunk. */
  predicate Fits(cur: seq<String>, s: String, maxChars: int) {
    |Render(cur) + s + SentenceSep| <= maxChars
  }

  /** Greedy packing of sentences into groups, one group per chunk: `done`
      holds the closed groups, `cur` the open one. A sentence joins the open
      group when the grown buffer still fits; otherwise the open group (if
      any) is closed and the sentence starts a new one. */
  function Pack(rest: seq<String>, maxChars: int, done: seq<seq<String>>, cur: seq<String>): seq<seq<String>>
    decreases |rest|
  {
    if rest == [] then (if cur == [] then done else done + [cur])
    else if Fits(cur, rest[0], maxChars) then Pack(rest[1..], maxChars, done, cur + [rest[0]])
    else Pack(rest[1..], maxChars, if cur == [] then done else done + [cur], [rest[0]])
  }

  function Sentences(text: String): seq<String> {
    SplitOn(text, SentenceSep)
  }

  function TtsGroups(text: String, maxChars: int): seq<seq<String>> {
    Pack(Sentences(text), maxChars, [], [])
  }

  /** The chunk sent to the provider for one group: its render, stripped. */
  function ChunkText(g: seq<String>): String {
    Strip(Render(g))
  }

  function Chunks(gs: seq<seq<String>>): (r: seq<String>)
    ensures |r| == |gs|
  {
    seq(|gs|, k requires 0 <= k < |gs| => ChunkText(gs[k]))
  }

  /** `_split_text_for_tts`: short text is one chunk; longer text is split on
      ". " and packed greedily. */
  function SplitTextForTts(text: String, maxChars: int): (chunks: seq<String>)
    ensures |text| <= maxChars ==> chunks == [text]
    ensures |text| > maxChars ==> |chunks| == |TtsGroups(text, maxChars)|
  {
    if |text| <= maxChars then [text] else Chunks(TtsGroups(text, maxChars))
  }

  /** The splitter loop as the source writes it, over strings: the buffer
      `current` and the Python truthiness test `if current_chunk`. It
      computes exactly the group model. */
  method SplitTextForTtsLoop(text: String, maxChars: int) returns (chunks: seq<String>)
    ensures chunks == SplitTextForTts(text, maxChars)
  {
    if |text| <= maxChars {
      return [text];
    }
    var sentences := Sentences(text);
    chunks := [];
    var current: String := "";
    ghost var done: seq<seq<String>> := [];
    ghost var cur: seq<String> := [];
    var i := 0;
    while i < |sentences|
      invariant 0 <= i <= |sentences|
      invariant current == Render(cur)
      invariant chunks == Chunks(done)
      invariant Pack(sentences[i..], maxChars, done, cur) == TtsGroups(text, maxChars)
    {
      var sentence := sentences[i];
      ghost var rest := sentences[i..];
      assert rest[0] == sentence && rest[1..] == sentences[i + 1..];
      PackStep(rest, maxChars, done, cur);
      if |current + sentence + SentenceSep| <= maxChars {
        current := current + sentence + SentenceSep;
        RenderAppend(cur, sentence);
        cur := cur + [sentence];
      } else {
        if current != "" {
          chunks := chunks + [Strip(current)];
          ChunksAppend(done, cur);
          done := done + [cur];
        }
        current := sentence + SentenceSep;
        RenderOne(sentence);
        cur := [sentence];
      }
      i := i + 1;
    }
    PackEnd(sentences[i..], maxChars, done, cur);
    if current != "" {
      chunks := chunks + [Strip(current)];
      ChunksAppend(done, cur);
      done := done + [cur];
    }
  }

  lemma RenderOne(s: String)
    ensures Render([s]) == s + SentenceSep
  {
    assert Render([s]) == s + SentenceSep + Render([]);
  }

  lemma PackEnd(rest: seq<String>, maxChars: int, done: seq<seq<String>>, cur: seq<String>)
    requires rest == []
    ensures Pack(rest, maxChars, done, cur) == if cur == [] then done else done + [cur]
  {
  }

  /** One step of the packing, as the loop takes it. */
  lemma PackStep(rest: seq<String>, maxChars: int, done: seq<seq<String>>, cur: seq<String>)
    requires rest != []
    ensures Fits(cur, rest[0], maxChars) ==> Pack(rest, maxChars, done, cur) == Pack(rest[1..], maxChars, done, cur + [rest[0]])
    ensures !Fits(cur, rest[0], maxChars) ==>
              Pack(rest, maxChars, done, cur) == Pack(rest[1..], maxChars, if cur == [] then done else done + [cur], [rest[0]])
  {
  }

  lemma ChunksAppend(done: seq<seq<String>>, cur: seq<String>)
    ensures Chunks(done + [cur]) == Chunks(done) + [Strip(Render(cur))]
  {
  }

  // ---------------------------------------------------------------------
  // Properties of the packing

  /** Consecutive groups `a`, `b`: `a` was closed only because adding the
      first sentence of `b` would overflow. */
  predicate ClosedGreedily(a: seq<String>, b: seq<String>, maxChars: int)
    requires b != []
  {
    !Fits(a, b[0], maxChars)
  }

  /** The shape of a packing: no empty group, only a single-sentence group
      may exceed the limit, and every group but the last was closed
      greedily. */
  predicate WellPacked(gs: seq<seq<String>>, maxChars: int) {
    && (forall k :: 0 <= k < |gs| ==> gs[k] != [])
    && (forall k :: 0 <= k < |gs| && |gs[k]| >= 2 ==> |Render(gs[k])| <= maxChars)
    && (forall k :: 1 <= k < |gs| ==> ClosedGreedily(gs[k - 1], gs[k], maxChars))
  }

  lemma {:induction false} PackInvariant(rest: seq<String>, maxChars: int, done: seq<seq<String>>, cur: seq<String>)
    requires WellPacked(done, maxChars)
    requires cur == [] ==> done == []
    requires |cur| >= 2 ==> |Render(cur)| <= maxChars
    requires done != [] && cur != [] ==> ClosedGreedily(done[|done| - 1], cur, maxChars)
    ensures WellPacked(Pack(rest, maxChars, done, cur), maxChars)
    decreases |rest|
  {
    if rest == [] {
      if cur != [] {
        CloseGroup(done, cur, maxChars);
      }
    } else if Fits(cur, rest[0], maxChars) {
      var cur' := cur + [rest[0]];
      RenderAppend(cur, rest[0]);
      assert done != [] && cur != [] ==> cur'[0] == cur[0];
      PackInvariant(rest[1..], maxChars, done, cur');
    } else if cur == [] {
      PackInvariant(rest[1..], maxChars, done, [rest[0]]);
    } else {
      CloseGroup(done, cur, maxChars);
      var done' := done + [cur];
      assert done'[|done'| - 1] == cur;
      PackInvariant(rest[1..], maxChars, done', [rest[0]]);
    }
  }

  /** Packing neither drops, repeats nor reorders a sentence. */
  lemma {:induction false} PackFlatten(rest: seq<String>, maxChars: int, done: seq<seq<String>>, cur: seq<String>)
    ensures Flatten(Pack(rest, maxChars, done, cur)) == Flatten(done) + cur + rest
    decreases |rest|
  {
    if rest == [] {
      if cur != [] {
        FlattenClose(done, cur, []);
      } else {
        assert Flatten(done) + cur + rest == Flatten(done);
      }
    } else if Fits(cur, rest[0], maxChars) {
      PackFlatten(rest[1..], maxChars, done, cur + [rest[0]]);
      ShiftFirst(Flatten(done), cur, rest);
    } else if cur == [] {
      PackFlatten(rest[1..], maxChars, done, [rest[0]]);
      ShiftFirst(Flatten(done), [], rest);
    } else {
      PackFlatten(rest[1..], maxChars, done + [cur], [rest[0]]);
      FlattenClose(done, cur, rest);
    }
  }

  lemma ShiftFirst(f: seq<String>, cur: seq<String>, rest: seq<String>)
    requires rest != []
    ensures f + (cur + [rest[0]]) + rest[1..] == f + cur + rest
  {
    assert [rest[0]] + rest[1..] == rest;
  }

  lemma CloseGroup(done: seq<seq<String>>, cur: seq<String>, maxChars: int)
    requires WellPacked(done, maxChars)
    requires cur != []
    requires |cur| >= 2 ==> |Render(cur)| <= maxChars
    requires done != [] ==> ClosedGreedily(done[|done| - 1], cur, maxChars)
    ensures WellPacked(done + [cur], maxChars)
  {
    var gs := done + [cur];
    forall k | 0 <= k < |gs| ensures gs[k] != [] && (|gs[k]| >= 2 ==> |Render(gs[k])| <= maxChars) {
      if k < |done| {
        assert gs[k] == done[k];
      }
    }
    forall k | 1 <= k < |gs| ensures ClosedGreedily(gs[k - 1], gs[k], maxChars) {
      assert gs[k - 1] == done[k - 1];
      if k < |done| {
        assert gs[k] == done[k];
      }
    }
  }

  /** For text longer than the limit the chunks are the stripped renders of a
      well-formed packing that lists every ". "-separated sentence exactly
      once, in the original order. */
  lemma TtsChunksCoverSentences(text: String, maxChars: int)
    requires |text| > maxChars
    ensures var gs := TtsGroups(text, maxChars);
            && Flatten(gs) == Sentences(text)
            && WellPacked(gs, maxChars)
            && SplitTextForTts(text, maxChars) == Chunks(gs)
  {
    PackInvariant(Sentences(text), maxChars, [], []);
    PackFlatten(Sentences(text), maxChars, [], []);
    assert Flatten<String>([]) + [] + Sentences(text) == Sentences(text);
  }

  /** Every chunk of a long text is non-empty, and a chunk built from two or
      more sentences respects the limit. */
  lemma TtsChunkBounds(text: String, maxChars: int, k: nat)
    requires |text| > maxChars
    requires k < |SplitTextForTts(text, maxChars)|
    ensures SplitTextForTts(text, maxChars)[k] != []
    ensures |TtsGroups(text, maxChars)[k]| >= 2 ==> |SplitTextForTts(text, maxChars)[k]| <= maxChars
  {
    TtsChunksCoverSentences(text, maxChars);
    var g := TtsGroups(text, maxChars)[k];
    assert g != [];
    assert !IsSpace(Render(g)[|g[0]|]);
  }

  /** The splitter is not lossless: a long text ending in a word followed by
      "." yields a last chunk ending in that character and TWO periods, since
      the last sentence keeps its "." and gains the re-appended one. */
  lemma {:induction false} LastChunkGainsPeriod(text: String, maxChars: int)
    requires |text| > maxChars && |text| >= 2
    requires text[|text| - 1] == '.' && !IsSpace(text[|text| - 2])
    ensures var cs := SplitTextForTts(text, maxChars);
            && |cs| >= 1
            && |cs[|cs| - 1]| >= 3
            && cs[|cs| - 1][|cs[|cs| - 1]| - 3..] == [text[|text| - 2], '.', '.']
  {
    var ss := Sentences(text);
    var last := ss[|ss| - 1];
    LastPieceEnds(text, ss);
    assert |last| >= 2 && last[|last| - 2..] == text[|text| - 2..];
    TtsChunksCoverSentences(text, maxChars);
    var gs := TtsGroups(text, maxChars);
    FlattenLast(gs);
    var g := gs[|gs| - 1];
    assert g[|g| - 1] == last;
    GroupChunkTail(g);
    assert SplitTextForTts(text, maxChars)[|gs| - 1] == ChunkText(g);
  }

  /** A group whose last sentence ends in a non-space character and "."
      renders to a chunk ending in that character and "..". */
  lemma GroupChunkTail(g: seq<String>)
    requires |g| >= 1 && |g[|g| - 1]| >= 2
    requires g[|g| - 1][|g[|g| - 1]| - 1] == '.' && !IsSpace(g[|g| - 1][|g[|g| - 1]| - 2])
    ensures var t := ChunkText(g);
            |t| >= 3 && t[|t| - 3..] == [g[|g| - 1][|g[|g| - 1]| - 2], '.', '.']
  {
    var last := g[|g| - 1];
    var init := g[..|g| - 1];
    assert init + [last] == g;
    RenderAppend(init, last);
    var r := Render(g);
    var k := |Render(init)| + |last|;
    assert r[k] == '.' && r[k - 1] == last[|last| - 1] && r[k - 2] == last[|last| - 2];
    assert SpaceBetween(r, k + 1, |r|);
    assert r[k - 2..k + 1] == [last[|last| - 2], '.', '.'];
    StripKeepsTail(r, k - 2, k);
    assert ChunkText(g) == Strip(r);
  }

  /** The last piece of a ". "-split text ending in a non-space character
      and "." carries those two characters. */
  lemma LastPieceEnds(text: String, ss: seq<String>)
    requires ss != [] && Join(ss, SentenceSep) == text
    requires |text| >= 2 && text[|text| - 1] == '.' && !IsSpace(text[|text| - 2])
    ensures |ss[|ss| - 1]| >= 2 && ss[|ss| - 1][|ss[|ss| - 1]| - 2..] == text[|text| - 2..]
  {
    var last := ss[|ss| - 1];
    if |ss| == 1 {
      assert Join(ss, SentenceSep) == last;
    } else {
      var pre := Join(ss[..|ss| - 1], SentenceSep) + SentenceSep;
      JoinAppend(ss[..|ss| - 1], [last], SentenceSep);
      assert ss[..|ss| - 1] + [last] == ss;
      assert text == pre + last;
      TailAfterSpace(pre, last);
    }
  }

  /** After a piece that ends in a space, the last two characters of the
      whole can be a non-space character and "." only when they both lie in
      `last`. */
  lemma TailAfterSpace(pre: String, last: String)
    requires pre != [] && pre[|pre| - 1] == ' '
    ensures var t := pre + last;
            |t| >= 2 && t[|t| - 1] == '.' && !IsSpace(t[|t| - 2]) ==>
              |last| >= 2 && last[|last| - 2..] == t[|t| - 2..]
  {
    var t := pre + last;
    if |last| >= 2 {
      assert t[|t| - 2..] == last[|last| - 2..];
    } else if |last| == 1 {
      assert t[|t| - 2] == ' ';
    } else {
      assert t[|t| - 1] == ' ';
    }
  }

  lemma {:induction false} FlattenLast<T>(gs: seq<seq<T>>)
    requires gs != [] && gs[|gs| - 1] != []
    ensures Flatten(gs) != [] && Flatten(gs)[|Flatten(gs)| - 1] == gs[|gs| - 1][|gs[|gs| - 1]| - 1]
    decreases |gs|
  {
    if |gs| > 1 {
      FlattenLast(gs[1..]);
    } else {
      assert Flatten(gs) == gs[0] + Flatten<T>([]);
    }
  }

  /** Stripping keeps the run `s[j..k+1]` of non-space characters that is
      followed only by whitespace. */
  lemma StripKeepsTail(s: String, j: nat, k: nat)
    requires j <= k < |s| && !IsSpace(s[j]) && !IsSpace(s[k]) && SpaceBetween(s, k + 1, |s|)
    ensures var t := Strip(s); |t| >= k + 1 - j && t[|t| - (k + 1 - j)..] == s[j..k + 1]
  {
    var lo := StripIsSlice(s, k);
    assert lo <= j;
    var t := Strip(s);
    assert t[|t| - (k + 1 - j)..] == s[lo..k + 1][j - lo..];
  }

  // ---------------------------------------------------------------------
  // Voice settings

  datatype Setting = Num(x: real) | Str(s: String) | Flag(b: bool)

  /** The setting names the generator uses; any other name a caller passes
      to `update_voice_config` is kept under its own text. */
  datatype Key = VoiceId | ModelId | Stability | SimilarityBoost | StyleWeight | SpeakerBoost | OtherKey(name: String)

  /** One language's voice settings, keyed like the source's dictionary. */
  type VoiceConfig = map<Key, Setting>

  type VoiceConfigs = map<String, VoiceConfig>

  function Voice(id: String, stability: real, similarity: real, style: real): VoiceConfig {
    map[VoiceId := Str(id), ModelId := Str("eleven_multilingual_v2"),
        Stability := Num(stability), SimilarityBoost := Num(similarity),
        StyleWeight := Num(style), SpeakerBoost := Flag(true)]
  }

  /** The settings the generator starts with. */
  function InitialVoiceConfigs(): (c: VoiceConfigs)
    ensures "en" in c
  {
    map["en" := Voice("21m00Tcm4TlvDq8ikWAM", 0.5, 0.8, 0.0),
        "de" := Voice("pNInz6obpgDQGcFmaJgB", 0.6, 0.7, 0.1),
        "ko" := Voice("Xb7hH8MSUJpSbSDYk0k2", 0.4, 0.9, 0.2),
        "zh" := Voice("pMsXgVXv3BLzUgSXRplE", 0.5, 0.8, 0.1)]
  }

  function Preset(stability: real, similarity: real, style: real): VoiceConfig {
    map[Stability := Num(stability), SimilarityBoost := Num(similarity), StyleWeight := Num(style)]
  }

  /** The named style presets; each one sets exactly stability, similarity
      boost and style. */
  function StylePreset(style: String): (r: Option<VoiceConfig>)
    ensures r.Some? ==> r.value.Keys == {Stability, SimilarityBoost, StyleWeight}
  {
    if style == "professional" then Some(Preset(0.6, 0.8, 0.0))
    else if style == "energetic" then Some(Preset(0.4, 0.9, 0.3))
    else if style == "calm" then Some(Preset(0.8, 0.6, 0.1))
    else if style == "friendly" then Some(Preset(0.5, 0.7, 0.2))
    else if style == "formal" then Some(Preset(0.7, 0.8, 0.0))
    else None
  }

  /** The key whose settings a language uses: its own, or "en". */
  function ConfigKey(configs: VoiceConfigs, lang: String): String {
    if lang in configs then lang else "en"
  }

  /** `get_voice_config`: the language's settings, or the English ones. */
  function GetVoiceConfig(configs: VoiceConfigs, lang: String): (c: VoiceConfig)
    requires "en" in configs
    ensures lang in configs ==> c == configs[lang]
    ensures lang !in configs ==> c == configs["en"]
  {
    configs[ConfigKey(configs, lang)]
  }

  /** `update_voice_config`: a known language's settings are merged with the
      given keys (new values win); an unknown language is inserted. */
  function UpdateVoiceConfig(configs: VoiceConfigs, lang: String, config: VoiceConfig): (r: VoiceConfigs)
    ensures r.Keys == configs.Keys + {lang} && lang in r
    ensures forall l :: l in configs && l != lang ==> r[l] == configs[l]
    ensures lang in configs ==> r[lang].Keys == configs[lang].Keys + config.Keys
    ensures forall key :: key in config ==> key in r[lang] && r[lang][key] == config[key]
    ensures lang in configs ==> forall key :: key in configs[lang] && key !in config ==> r[lang][key] == configs[lang][key]
    ensures lang !in configs ==> r[lang] == config
  {
    if lang in configs then configs[lang := configs[lang] + config] else configs[lang := config]
  }

  /** Reading back after an update: the updated language answers with its
      own merged settings and every other language reads as before. */
  lemma UpdateThenGet(configs: VoiceConfigs, lang: String, config: VoiceConfig, other: String)
    requires "en" in configs
    ensures var r := UpdateVoiceConfig(configs, lang, config);
            && "en" in r
            && GetVoiceConfig(r, lang) == (if lang in configs then configs[lang] + config else config)
            && (other != lang && other in configs ==> GetVoiceConfig(r, other) == GetVoiceConfig(configs, other))
  {
  }

  /** The first step of the cascade: the settings object fetched for the
      language IS the stored one (the English one for unknown languages), so
      a custom voice id and a known style preset overwrite the stored
      settings and the change persists. */
  function ApplyVoiceSettings(configs: VoiceConfigs, lang: String, style: String, customVoiceId: String): (r: VoiceConfigs)
    requires "en" in configs
    ensures r.Keys == configs.Keys && ConfigKey(configs, lang) in r
    ensures forall l :: l in configs && l != ConfigKey(configs, lang) ==> r[l] == configs[l]
    ensures StylePreset(style).Some? ==>
              forall key :: key in StylePreset(style).value ==>
                key in r[ConfigKey(configs, lang)] && r[ConfigKey(configs, lang)][key] == StylePreset(style).value[key]
    ensures customVoiceId != [] ==>
              VoiceId in r[ConfigKey(configs, lang)] && r[ConfigKey(configs, lang)][VoiceId] == Str(customVoiceId)
    ensures customVoiceId == [] && StylePreset(style).None? ==> r == configs
  {
    var key := ConfigKey(configs, lang);
    var withVoice := if customVoiceId != [] then configs[key][VoiceId := Str(customVoiceId)] else configs[key];
    var styled := match StylePreset(style) case Some(preset) => withVoice + preset case None => withVoice;
    configs[key := styled]
  }

  // ---------------------------------------------------------------------
  // The provider cascade

  /** Outcome of the ffmpeg concatenation of several chunk files. */
  datatype MergeOutcome = Merged(path: String) | MergeFailed | MergeRaised

  /** What each external provider does when called: the primary provider
      saves a file for chunk i (`chunkFile(i)`) or fails (None), the merge
      succeeds or not, the offline TTS saves a file or raises (None), and
      the silent-track writer returns its path or raises (None). */
  datatype Providers = Providers(
    hasApiKey: bool,
    chunkFile: nat -> Option<String>,
    merge: MergeOutcome,
    offline: Option<String>,
    silent: Option<String>)

  /** A provider invocation, in the order the cascade makes them. */
  datatype Call =
    | PrimaryChunk(index: nat, text: String)
    | MergeFiles(count: nat)
    | OfflineTts(lang: String, text: String)
    | SilentTrack(lang: String, seconds: nat)

  /** The path handed back, the voice settings afterwards, and the calls
      made. */
  datatype Voiced = Voiced(path: String, configs: VoiceConfigs, calls: seq<Call>)

  /** The offline provider's language code: the four supported languages map
      to themselves, anything else to "en". */
  function OfflineLanguage(lang: String): (r: String)
    ensures r in {"en", "de", "ko", "zh"}
    ensures lang in {"en", "de", "ko", "zh"} ==> r == lang
  {
    if lang in {"en", "de", "ko", "zh"} then lang else "en"
  }

  /** The files the primary provider produced for the chunks, in chunk order
      (failed chunks are dropped). */
  function ChunkFiles(n: nat, p: Providers): (files: seq<String>)
    ensures |files| <= n
    ensures forall f :: f in files ==> exists i :: 0 <= i < n && p.chunkFile(i) == Some(f)
    ensures files == [] <==> forall i :: 0 <= i < n ==> p.chunkFile(i).None?
    decreases n
  {
    if n == 0 then []
    else
      var prev := ChunkFiles(n - 1, p);
      match p.chunkFile(n - 1)
      case Some(f) => prev + [f]
      case None => prev
  }

  lemma ChunkFilesFirst(n: nat, p: Providers, i: nat)
    requires i < n && p.chunkFile(i).Some?
    requires forall j :: 0 <= j < i ==> p.chunkFile(j).None?
    ensures ChunkFiles(n, p) != [] && ChunkFiles(n, p)[0] == p.chunkFile(i).value
    decreases n
  {
    if n - 1 > i {
      ChunkFilesFirst(n - 1, p, i);
    } else {
      assert ChunkFiles(n - 1, p) == [];
    }
  }

  /** Indices of the chunks the primary provider produced a file for, in
      chunk order. */
  function SuccessfulChunks(n: nat, p: Providers): (ix: seq<nat>)
    ensures forall k :: 0 <= k < |ix| ==> ix[k] < n && p.chunkFile(ix[k]).Some?
    decreases n
  {
    if n == 0 then []
    else
      var pre := SuccessfulChunks(n - 1, p);
      if p.chunkFile(n - 1).Some? then pre + [n - 1] else pre
  }

  /** The successful chunk indices are increasing and miss none. */
  lemma {:induction false} SuccessfulChunksSpec(n: nat, p: Providers)
    ensures var ix := SuccessfulChunks(n, p);
            && (forall k, k' :: 0 <= k < k' < |ix| ==> ix[k] < ix[k'])
            && (forall i :: 0 <= i < n && p.chunkFile(i).Some? ==> i in ix)
    decreases n
  {
    if n > 0 {
      SuccessfulChunksSpec(n - 1, p);
      var pre := SuccessfulChunks(n - 1, p);
      if p.chunkFile(n - 1).Some? {
        var ix := pre + [n - 1];
        assert forall k :: 0 <= k < |pre| ==> ix[k] == pre[k];
      }
    }
  }

  /** The kept files are the files of the successful chunks, one each, in
      chunk order. */
  lemma {:induction false} ChunkFilesInOrder(n: nat, p: Providers, k: nat)
    ensures |ChunkFiles(n, p)| == |SuccessfulChunks(n, p)|
    ensures k < |SuccessfulChunks(n, p)| ==>
              ChunkFiles(n, p)[k] == p.chunkFile(SuccessfulChunks(n, p)[k]).value
    decreases n
  {
    if n > 0 {
      ChunkFilesInOrder(n - 1, p, k);
    }
  }

  /** Every chunk the primary provider produced a file for contributes that
      file. */
  lemma ChunkFilesKeepAll(n: nat, p: Providers, i: nat)
    requires i < n && p.chunkFile(i).Some?
    ensures p.chunkFile(i).value in ChunkFiles(n, p)
  {
    SuccessfulChunksSpec(n, p);
    var ix := SuccessfulChunks(n, p);
    var k :| 0 <= k < |ix| && ix[k] == i;
    ChunkFilesInOrder(n, p, k);
  }

  /** Two successful chunks give at least two files, so the merge step is
      reached. */
  lemma TwoSuccessesMerge(n: nat, p: Providers, i: nat, j: nat)
    requires i < j < n && p.chunkFile(i).Some? && p.chunkFile(j).Some?
    ensures |ChunkFiles(n, p)| >= 2
  {
    SuccessfulChunksSpec(n, p);
    var ix := SuccessfulChunks(n, p);
    var a :| 0 <= a < |ix| && ix[a] == i;
    var b :| 0 <= b < |ix| && ix[b] == j;
    assert a != b;
    ChunkFilesInOrder(n, p, 0);
  }

  /** `final_audio` after the merge step: one file is used as is; several
      are merged, and a failed or raising merge falls back to the first. */
  function MergeStep(files: seq<String>, m: MergeOutcome): (r: Option<String>)
    ensures r.None? <==> files == []
    ensures |files| == 1 ==> r == Some(files[0])
    ensures |files| > 1 ==> r == Some(if m.Merged? then m.path else files[0])
  {
    if files == [] then None
    else if |files| == 1 then Some(files[0])
    else match m
      case Merged(path) => Some(path)
      case MergeFailed => Some(files[0])
      case MergeRaised => Some(files[0])
  }

  /** `_create_fallback_audio` with `_create_silent_audio`: offline TTS,
      else the silent track, else "". */
  function FallbackAudio(text: String, lang: String, p: Providers): (r: (String, seq<Call>))
    ensures r.1 != [] && r.1[0] == OfflineTts(OfflineLanguage(lang), text)
    ensures |r.1| <= 2
  {
    match p.offline
    case Some(path) => (path, [OfflineTts(OfflineLanguage(lang), text)])
    case None =>
      var tail := [OfflineTts(OfflineLanguage(lang), text), SilentTrack(lang, SilentSeconds)];
      match p.silent
      case Some(path) => (path, tail)
      case None => ("", tail)
  }

  function PrimaryCalls(chunks: seq<String>): (cs: seq<Call>)
    ensures |cs| == |chunks|
    ensures forall i :: 0 <= i < |chunks| ==> cs[i] == PrimaryChunk(i, chunks[i])
  {
    seq(|chunks|, i requires 0 <= i < |chunks| => PrimaryChunk(i, chunks[i]))
  }

  /** `create_voiceover`. Without an API key the settings are untouched and
      only the fallback runs. With a key the settings are overwritten as
      above, every chunk goes to the primary provider, the produced files
      are merged, and only when no chunk produced a file does the fallback
      run. It never fails: the worst outcome is the path "". */
  function CreateVoiceover(configs: VoiceConfigs, text: String, lang: String, style: String,
                           customVoiceId: String, p: Providers): (r: Voiced)
    requires "en" in configs
    ensures "en" in r.configs && r.configs.Keys == configs.Keys
    ensures !p.hasApiKey ==> r.configs == configs
    ensures p.hasApiKey ==> r.configs == ApplyVoiceSettings(configs, lang, style, customVoiceId)
    ensures !p.hasApiKey ==> forall c :: c in r.calls ==> !c.PrimaryChunk?
  {
    if !p.hasApiKey then
      var (path, calls) := FallbackAudio(text, lang, p);
      Voiced(path, configs, calls)
    else
      var configs' := ApplyVoiceSettings(configs, lang, style, customVoiceId);
      var chunks := SplitTextForTts(text, MaxTtsChars);
      var files := ChunkFiles(|chunks|, p);
      var primary := PrimaryCalls(chunks) + (if |files| > 1 then [MergeFiles(|files|)] else []);
      match MergeStep(files, p.merge)
      case Some(path) => Voiced(path, configs', primary)
      case None =>
        var (path, calls) := FallbackAudio(text, lang, p);
        Voiced(path, configs', primary + calls)
  }

  // ---------------------------------------------------------------------
  // Properties of the cascade

  /** The tier outcomes in priority order, each as the path it would hand
      back: the primary tier (absent without a key or without any chunk
      file), the offline TTS, the silent track. */
  function PrimaryOutcome(text: String, p: Providers): Option<String> {
    if !p.hasApiKey then None
    else MergeStep(ChunkFiles(|SplitTextForTts(text, MaxTtsChars)|, p), p.merge)
  }

  /** Reference definition: the first tier that yields a path wins; when
      none does the answer is "". */
  function FirstSuccess(tiers: seq<Option<String>>): String
    decreases |tiers|
  {
    if tiers == [] then "" else if tiers[0].Some? then tiers[0].value else FirstSuccess(tiers[1..])
  }

  /** The cascade returns the first successful tier's path in the order
      primary, offline TTS, silent track, and "" when all three fail. */
  lemma CascadeIsFirstSuccess(configs: VoiceConfigs, text: String, lang: String, style: String,
                              customVoiceId: String, p: Providers)
    requires "en" in configs
    ensures CreateVoiceover(configs, text, lang, style, customVoiceId, p).path
            == FirstSuccess([PrimaryOutcome(text, p), p.offline, p.silent])
  {
    var tiers := [PrimaryOutcome(text, p), p.offline, p.silent];
    assert tiers[1..] == [p.offline, p.silent];
    assert tiers[1..][1..] == [p.silent];
    assert tiers[1..][1..][1..] == [];
    var fallback := FallbackAudio(text, lang, p).0;
    assert FirstSuccess([p.silent]) == if p.silent.Some? then p.silent.value else FirstSuccess([]);
    assert fallback == FirstSuccess(tiers[1..]);
    if p.hasApiKey {
      var chunks := SplitTextForTts(text, MaxTtsChars);
      var files := ChunkFiles(|chunks|, p);
      assert PrimaryOutcome(text, p) == MergeStep(files, p.merge);
    }
  }

  /** With a key, every chunk is sent to the primary provider exactly once,
      in order, before anything else happens. */
  lemma PrimaryCallsComeFirst(configs: VoiceConfigs, text: String, lang: String, style: String,
                              customVoiceId: String, p: Providers)
    requires "en" in configs && p.hasApiKey
    ensures var chunks := SplitTextForTts(text, MaxTtsChars);
            var calls := CreateVoiceover(configs, text, lang, style, customVoiceId, p).calls;
            |calls| >= |chunks| && forall i :: 0 <= i < |chunks| ==> calls[i] == PrimaryChunk(i, chunks[i])
  {
  }

  /** Partial success counts: one chunk file among failed chunks is enough
      for the primary tier, and the offline and silent providers are then
      never called. */
  lemma OneChunkFileSuffices(configs: VoiceConfigs, text: String, lang: String, style: String,
                             customVoiceId: String, p: Providers, i: nat)
    requires "en" in configs && p.hasApiKey
    requires i < |SplitTextForTts(text, MaxTtsChars)| && p.chunkFile(i).Some?
    ensures var r := CreateVoiceover(configs, text, lang, style, customVoiceId, p);
            && r.path == PrimaryOutcome(text, p).value
            && forall c :: c in r.calls ==> !c.OfflineTts? && !c.SilentTrack?
  {
    var chunks := SplitTextForTts(text, MaxTtsChars);
    var files := ChunkFiles(|chunks|, p);
    assert files != [];
  }

  /** A failed or raising merge of several chunk files hands back the first
      chunk file instead of failing the tier. */
  lemma MergeFailureKeepsFirstFile(configs: VoiceConfigs, text: String, lang: String, style: String,
                                   customVoiceId: String, p: Providers)
    requires "en" in configs && p.hasApiKey && !p.merge.Merged?
    requires |ChunkFiles(|SplitTextForTts(text, MaxTtsChars)|, p)| > 1
    ensures CreateVoiceover(configs, text, lang, style, customVoiceId, p).path
            == ChunkFiles(|SplitTextForTts(text, MaxTtsChars)|, p)[0]
  {
  }

  /** The fallback runs exactly when the primary tier produced nothing, and
      then the offline provider is tried first and the silent track only
      after it raised. */
  lemma FallbackOrder(configs: VoiceConfigs, text: String, lang: String, style: String,
                      customVoiceId: String, p: Providers)
    requires "en" in configs
    ensures var r := CreateVoiceover(configs, text, lang, style, customVoiceId, p);
            && (OfflineTts(OfflineLanguage(lang), text) in r.calls <==> PrimaryOutcome(text, p).None?)
            && (SilentTrack(lang, SilentSeconds) in r.calls <==> PrimaryOutcome(text, p).None? && p.offline.None?)
            && (r.path == "" <== PrimaryOutcome(text, p).None? && p.offline.None? && p.silent.None?)
  {
    var r := CreateVoiceover(configs, text, lang, style, customVoiceId, p);
    if p.hasApiKey && PrimaryOutcome(text, p).Some? {
      var chunks := SplitTextForTts(text, MaxTtsChars);
      var files := ChunkFiles(|chunks|, p);
      assert r.calls == PrimaryCalls(chunks) + (if |files| > 1 then [MergeFiles(|files|)] else []);
      assert forall c :: c in r.calls ==> c.PrimaryChunk? || c.MergeFiles?;
    }
  }

  /** With a key and a known style the stored settings of the language (or
      of English, for an unknown language) carry the preset afterwards,
      whatever voice id was given, together with that voice id when one was
      given; the settings of every other language are left alone. The
      change outlives the call. */
  lemma StylePresetPersists(configs: VoiceConfigs, text: String, lang: String, style: String,
                            customVoiceId: String, p: Providers)
    requires "en" in configs && p.hasApiKey && StylePreset(style).Some?
    ensures var r := CreateVoiceover(configs, text, lang, style, customVoiceId, p);
            && (customVoiceId != [] ==> GetVoiceConfig(r.configs, lang)[VoiceId] == Str(customVoiceId))
            && (forall l :: l in configs && l != ConfigKey(configs, lang) ==> r.configs[l] == configs[l])
    ensures var r := CreateVoiceover(configs, text, lang, style, customVoiceId, p);
            var preset := StylePreset(style).value;
            && "en" in r.configs
            && GetVoiceConfig(r.configs, lang)[Stability] == preset[Stability]
            && GetVoiceConfig(r.configs, lang)[SimilarityBoost] == preset[SimilarityBoost]
            && GetVoiceConfig(r.configs, lang)[StyleWeight] == preset[StyleWeight]
            && (lang !in configs ==> r.configs["en"][Stability] == preset[Stability])
  {
  }
}
