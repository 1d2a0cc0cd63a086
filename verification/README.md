# seal-video-automation in Dafny

A model of the sequential core of the SEAL video automation system. Given a
topic, the system produces short videos in several languages. For each
language it runs a fixed chain of stages: a script generated by a language
model, optional affiliate links, a voiceover, a rendered video, and an
upload. The model covers the deterministic logic around those stages:

- **Text** (`text.dfy`): the Python string operations the code relies on.
  These are `str.strip()`, `str.split(sep)`, `str.split()`, `sep.join`,
  `str.replace`, `str.startswith`, `str(n)` and zero-padded formatting.
- **Arith** (`arith.dfy`): floor division facts, and the truncation toward
  zero that `int()` applies to a quotient.
- **ScriptPost** (`scriptpost.dfy`): the post-processing in
  `script_generator.py`. It covers the language configuration with its
  English fallback, the `TITLE:`/`HOOK:`/`MAIN_CONTENT:`/`CTA:`/`DESCRIPTION:`/`TAGS:`
  header parser with its defaults, the spoken-duration estimate and the
  `context_used` truncation.
- **Voiceover** (`voiceover.dfy`): the greedy `". "` sentence packer that
  feeds the text-to-speech provider. It also covers the per-language voice
  settings (the style preset overwrites the stored settings in place) and
  the provider cascade: primary API chunk by chunk, then merge, then
  offline TTS, then a 30-second silent track, then `""`.
- **Subtitles** (`subtitles.dfy`): the greedy subtitle word wrapper, the SRT
  timestamp format, the evenly spaced cues and the SRT document text.
- **Render** (`render.dfy`): the category style table, `_hex_to_rgb` with
  Python's `int(x, 16)` on ASCII digits, the gradient interpolation, the background and
  font choices, and the ffmpeg video filter string.
- **Pipeline** (`pipeline.dfy`): the parts of `main_automation_script.py`
  modelled here:
  - `create_video_content`: the per-language stage machine with
    per-language error capture, and the insertion-ordered result dictionary;
  - `generate_trending_content`;
  - the feedback walk over the results;
  - the command-line mode selection.

Every external call is an oracle whose outcome is part of the input: the
language model's output, the retrieved context, the providers, ffmpeg, the
file system and the clock. Each operation is then a total function.

Times are integer milliseconds, and durations are whole seconds.

Three functions are modelled twice. `SplitTextForTtsLoop` and
`SplitTextForSubtitlesLoop` are the loops as written, over strings. They are
proved equal to a functional model that packs groups of sentences or words,
and the properties are stated about that group model.
`CreateVideoContentLoop` is the language loop as written, over a mutable
result dictionary. It is proved equal to the recursive `CreateVideoContent`,
which the properties of the result dictionary are stated about.

## Model

| member | source | states |
|---|---|---|
| Text.Strip | script_generator.py:350 | `str.strip()` is empty exactly for blank input; otherwise it starts and ends with a non-whitespace character |
| Text.SplitOn | script_generator.py:346 | `str.split(sep)` yields at least one piece; joining the pieces with `sep` gives back the input; no piece contains `sep` |
| Text.ReplaceAll | script_generator.py:355 | `str.replace` leaves a string without the pattern unchanged; Text.ReplaceIsJoinOfSplit relates it to split and join |
| Text.ReplaceIsJoinOfSplit | script_generator.py:355 | the left-to-right `str.replace` scan equals `rep.join(s.split(pat))` |
| Text.ReplaceAbsent | script_generator.py:355 | replacing a pattern that does not occur leaves the line unchanged |
| Text.Find | voiceover_generator.py:134 | the found index is the leftmost occurrence; `None` means the pattern does not occur |
| Text.Words | video_creator.py:299 | `str.split()` gives no words exactly for blank text; Text.WordsAreWords, Text.WordsKeepNonSpace and Text.WordsOfJoinSpace state the rest |
| Text.WordsAreWords | video_creator.py:299 | every piece of `str.split()` is non-empty and has no whitespace |
| Text.WordsKeepNonSpace | video_creator.py:299 | `str.split()` drops exactly the whitespace: the words concatenated are the input's non-whitespace characters, in order |
| Text.WordsEmptyIffBlank | video_creator.py:299 | `str.split()` is empty exactly when the text is blank |
| Text.WordsOfJoinSpace | video_creator.py:299 | splitting the single-space join of words gives the words back |
| Text.NatToString | video_creator.py:286 | `str(n)` is a non-empty run of digits |
| Text.ParseNatToString | video_creator.py:286 | the digits of `str(n)` read back as `n` |
| Text.ZeroPad | video_creator.py:326 | `{n:0wd}` is a run of digits at least `w` long |
| Text.ParseZeroPad | video_creator.py:326 | zero padding does not change the value the digits denote |
| Text.ZeroPadExact | video_creator.py:326 | a number below 10^w pads to exactly `w` digits |
| Arith.TruncDivBetween | video_creator.py:174-176 | `int()` of a quotient that lies between two integers lies between them |
| ScriptPost.LanguageConfig | script_generator.py:186 | a configured language gets its own entry and any other language gets the English one; target lengths lie in 120..150 words |
| ScriptPost.LanguageFallback | script_generator.py:53-74 | exactly en, de, ko and zh have a configuration of their own |
| ScriptPost.HeaderUnique | script_generator.py:354-368 | no marker is a prefix of another, so a line that starts with a marker is classified as that marker's line whatever the order of the tests |
| ScriptPost.Step | script_generator.py:349-373 | one line keeps the parser state consistent: inside the main section a main value exists |
| ScriptPost.StructureScript | script_generator.py:330-378 | `_structure_script`: the content is hook, main content and CTA joined by spaces and stripped, so it neither starts nor ends with whitespace; ScriptPost.LastHeaderWins, ScriptPost.MainIsLastSection and ScriptPost.NoHeadersGivesDefaults state the fields |
| ScriptPost.Parse | script_generator.py:375-377 | the content is always recomposed as `strip(hook + " " + main + " " + cta)` |
| ScriptPost.FoldField | script_generator.py:349-366 | a single-valued field ends up with the value of its last header line, or keeps its prior value |
| ScriptPost.LastHeaderWins | script_generator.py:334-368 | title, hook, cta, description and tags come from the last line carrying their header, and keep their defaults when there is none |
| ScriptPost.MainIsLastSection | script_generator.py:358-373 | the main content is the last MAIN_CONTENT value plus the text lines after it up to the next CTA line; other headers do not end the section |
| ScriptPost.AppendAllJoins | script_generator.py:369-373 | appending continuation lines equals joining the non-empty pieces with single spaces |
| ScriptPost.MainIsJoined | script_generator.py:358-373 | no MAIN_CONTENT line means no main content; otherwise the main content is the last section's pieces joined by single spaces |
| ScriptPost.NoHeadersKeepDefaults | script_generator.py:334-342 | without header lines every default is kept and the main content is absent |
| ScriptPost.DefaultContent | script_generator.py:376-377 | the default content is "Welcome to this video!  Thanks for watching!", with two spaces |
| ScriptPost.NoHeadersGivesDefaults | script_generator.py:334-377 | raw output with no marker line gives exactly the default script record |
| ScriptPost.SplitCount | script_generator.py:368 | splitting on a one-character separator gives one more piece than there are separators |
| ScriptPost.TagCount | script_generator.py:366-368 | the tag list has one more tag than the TAGS value has commas, each tag the stripped piece |
| ScriptPost.EstimateDuration | script_generator.py:394-399 | the estimate is the number of whole seconds that the words take at 150 words a minute |
| ScriptPost.DurationMonotone | script_generator.py:394-399 | the estimate grows with the word count; 150 words give 60 s and fewer than 3 words give 0 |
| ScriptPost.ContextUsed | script_generator.py:222 | no context gives `None`; otherwise the first 200 characters (or fewer) followed by "..." |
| ScriptPost.ShortContextKept | script_generator.py:222 | a context of at most 200 characters is kept whole, followed by "..." |
| ScriptPost.GenerateScript | script_generator.py:179-228 | the record carries the request's topic, language and category, the structured script's content, title, hook, CTA, description and tags, the language's voice style, the duration estimate of the content, and `context_used` as ContextUsed gives it (None exactly for an empty context) |
| Voiceover.SplitTextForTts | voiceover_generator.py:128-148 | text no longer than the limit is the single chunk `[text]`; longer text gives one chunk per packed group |
| Voiceover.SplitTextForTtsLoop | voiceover_generator.py:128-148 | the loop over strings returns exactly the chunks of the group model |
| Voiceover.PackInvariant | voiceover_generator.py:137-146 | greedy packing is well formed: no empty group, a group of two or more sentences renders within the limit, and a group was closed only because the next sentence would overflow it |
| Voiceover.PackFlatten | voiceover_generator.py:137-146 | packing neither drops, repeats nor reorders a sentence |
| Voiceover.TtsChunksCoverSentences | voiceover_generator.py:133-146 | for long text the groups list every ". "-separated sentence exactly once and in order, and the chunks are their stripped renders |
| Voiceover.TtsChunkBounds | voiceover_generator.py:137-146 | every chunk of a long text is non-empty; a chunk of two or more sentences is at most `max_chars` long |
| Voiceover.LastChunkGainsPeriod | voiceover_generator.py:134-146 | a long text ending in a word and "." yields a last chunk ending in that character and two periods |
| Voiceover.InitialVoiceConfigs | voiceover_generator.py:28-61 | the English settings are present, so every fallback lookup succeeds |
| Voiceover.StylePreset | voiceover_generator.py:64-70 | each named preset sets exactly stability, similarity boost and style |
| Voiceover.GetVoiceConfig | voiceover_generator.py:341-343 | a known language gets its own settings and any other language the English ones |
| Voiceover.UpdateVoiceConfig | voiceover_generator.py:345-352 | a known language is merged (new values win, other keys kept) and an unknown one inserted; other languages are unchanged |
| Voiceover.UpdateThenGet | voiceover_generator.py:341-352 | after an update the language reads back its merged settings and every other language reads as before |
| Voiceover.ApplyVoiceSettings | voiceover_generator.py:89-98 | a custom voice id and a known preset overwrite the stored settings of the language, or of English for an unknown language; nothing else changes |
| Voiceover.StylePresetPersists | voiceover_generator.py:89-98 | with a key and a known style, the stored settings of the language (or of English) carry the preset after the call, whatever voice id was given, and the given voice id too; every other language's settings are unchanged |
| Voiceover.OfflineLanguage | voiceover_generator.py:248-255 | the offline provider gets one of en/de/ko/zh: the language itself when supported, "en" otherwise |
| Voiceover.ChunkFiles | voiceover_generator.py:104-109 | failed chunks are dropped; every kept file came from some chunk; no file means every chunk failed |
| Voiceover.SuccessfulChunksSpec | voiceover_generator.py:104-109 | the indices of the chunks that produced a file are increasing and include every such chunk |
| Voiceover.ChunkFilesInOrder | voiceover_generator.py:104-109 | the kept files are the successful chunks' files, one per successful chunk, in chunk order |
| Voiceover.ChunkFilesKeepAll | voiceover_generator.py:104-109 | every file a chunk produced is kept |
| Voiceover.TwoSuccessesMerge | voiceover_generator.py:104-112 | two successful chunks give at least two files, so the merge branch is taken |
| Voiceover.ChunkFilesFirst | voiceover_generator.py:104-109 | the first kept file is that of the first chunk that produced one |
| Voiceover.MergeStep | voiceover_generator.py:112-115 | no file gives no result; one file is used as is; several files give the merged path, or the first file when the merge failed or raised |
| Voiceover.FallbackAudio | voiceover_generator.py:240-297 | the fallback calls the offline provider first and the silent track at most after it |
| Voiceover.CreateVoiceover | voiceover_generator.py:76-126 | without a key the settings are untouched and the primary provider is never called; with a key the stored settings become exactly those ApplyVoiceSettings gives (voice id and preset written into the language's entry, nothing else changed); the language set never changes |
| Voiceover.CascadeIsFirstSuccess | voiceover_generator.py:76-126 | the path is the first tier that succeeds, in the order primary, offline TTS, silent track; it is "" when all fail |
| Voiceover.PrimaryCallsComeFirst | voiceover_generator.py:100-109 | with a key, every chunk goes to the primary provider exactly once, in order, before any other call |
| Voiceover.OneChunkFileSuffices | voiceover_generator.py:104-122 | one chunk file among failed chunks is enough; the offline and silent providers are then not called |
| Voiceover.MergeFailureKeepsFirstFile | voiceover_generator.py:224-238 | a failed or raising merge of several files returns the first chunk file |
| Voiceover.FallbackOrder | voiceover_generator.py:83-126 | the fallback runs exactly when the primary tier produced nothing; the silent track runs exactly when the offline provider also failed |
| Subtitles.SubtitleSettingsFor | video_creator.py:81-86 | a language with settings gets its own and any other gets the English ones |
| Subtitles.SubtitleLanguages | video_creator.py:81-86 | exactly en, de, ko and zh have settings; "ja" is rendered with the English ones |
| Subtitles.SplitTextForSubtitles | video_creator.py:297-317 | one line per group of the wrapping; Subtitles.SubtitleLinesCoverWords, Subtitles.WrappedLineBounds and Subtitles.LongWordOverflows state the wrapping |
| Subtitles.SplitTextForSubtitlesLoop | video_creator.py:297-317 | the loop over strings returns exactly the lines of the group model |
| Subtitles.WrapInvariant | video_creator.py:303-312 | greedy wrapping is well formed: no empty line, a line of two or more words within the limit, each line closed only because the next word did not fit |
| Subtitles.SubtitleLinesCoverWords | video_creator.py:297-317 | the line groups list every word of `text.split()` exactly once and in order, and the lines are their space-joins |
| Subtitles.WrappedLinesKeepWords | video_creator.py:297-317 | the lines joined by single spaces are the words joined by single spaces, and split back into the same words |
| Subtitles.WrappedLinesShape | video_creator.py:297-317 | blank text gives no lines, any other text at least one; no line is empty or starts with whitespace |
| Subtitles.WrappedLineBounds | video_creator.py:303-312 | a line of two or more words is within the limit; line k was closed because `line_k + " " + next word` is too long |
| Subtitles.LongWordOverflows | video_creator.py:304-312 | in any text, the line holding a word longer than the limit holds that word alone, uncut |
| Subtitles.SrtTime | video_creator.py:319-326 | the timestamp has the `HH:MM:SS,mmm` layout, and is exactly 12 characters below 100 hours |
| Subtitles.SrtTimeRoundTrip | video_creator.py:319-326 | every field is digits; minutes and seconds are below 60 and milliseconds below 1000; the fields read back give the time |
| Subtitles.CueTime | video_creator.py:271-281 | cue start `i * d / n` is truncated down to the millisecond |
| Subtitles.CueTiming | video_creator.py:268-288 | cues are numbered 1..n and show the lines in order; cue i runs from i·d/n to (i+1)·d/n seconds (to the millisecond); each ends where the next starts; the first starts at 0 and the last ends at the duration |
| Subtitles.CuesEvenlySpaced | video_creator.py:271-281 | every cue lasts d/n seconds, within one millisecond of truncation |
| Subtitles.TimingLineRoundTrip | video_creator.py:283-287 | the timing line is start, " --> ", end, and both times read back |
| Subtitles.SrtDocument | video_creator.py:279-288 | the document is empty exactly when there are no cues; Subtitles.SrtDocumentAppend and Subtitles.SrtDocumentShape state its layout |
| Subtitles.SubtitleFile | video_creator.py:262-291 | the SRT text is empty exactly for a blank script; Subtitles.SubtitleFileShape and Subtitles.CueTiming state its cues |
| Subtitles.SrtDocumentAppend | video_creator.py:279-288 | the document is the concatenation of its cue blocks |
| Subtitles.SrtDocumentShape | video_creator.py:279-288 | no lines give an empty document; otherwise it opens with cue 1 starting at time zero |
| Subtitles.SubtitleFileShape | video_creator.py:262-291 | a blank script gives an empty subtitle text; any other opens with cue 1 at time zero |
| Render.CategoryStyle | video_creator.py:47-78 | a category with a style gets its own and any other the general one; every style has three colours and white text |
| Render.StyleCategories | video_creator.py:47-78 | exactly five categories have a style; "entertainment" is drawn in the general style |
| Render.LStripChar | video_creator.py:188 | `lstrip('#')` removes a prefix and leaves no leading '#' |
| Render.PySlice | video_creator.py:189 | a Python slice is clipped to the string and equals the Dafny slice when in range |
| Render.PyHexInt | video_creator.py:189 | `int(x, 16)` on at most two characters lies in -15..255; on hex digits it is their value |
| Render.RgbOfDigits | video_creator.py:186-189 | each channel read lies in -15..255; reading fails when four or fewer characters remain |
| Render.SixDigits | video_creator.py:186-189 | six hex digits read as three bytes |
| Render.HexToRgb | video_creator.py:186-189 | `_hex_to_rgb` succeeds only when at least five characters follow the '#'s, with channels in -15..255; Render.HexRoundTrip states the round trip |
| Render.HexRoundTrip | video_creator.py:186-189 | writing a colour as `#rrggbb` and reading it back gives the colour |
| Render.GradientChannel | video_creator.py:166-176 | an interpolated channel of a row within the height lies between the two end channels, and row 0 is the first colour |
| Render.GradientBetween | video_creator.py:166-176 | an interpolated channel lies between the two end channels and equals the first at row 0 |
| Render.GradientFill | video_creator.py:161-178 | one colour is a solid fill; otherwise there is one row colour per line of the image |
| Render.GradientFillRows | video_creator.py:161-178 | every row of a painted gradient lies between the first two colours and the first row is the first colour |
| Render.BackgroundMatchesStyle | video_creator.py:228-241 | finance, tech, education and lifestyle map to the stock background painted in their style's first two colours; others map to solid_dark |
| Render.SelectBackground | video_creator.py:228-260 | an existing file is used; a missing one gives the fallback dark image; a raising check gives "" |
| Render.FirstPresent | video_creator.py:383-389 | the first font present in preference order, or the system font when none is present |
| Render.SelectFont | video_creator.py:379-389 | the font is Montserrat, Roboto, OpenSans in that order of preference, else the system font |
| Render.FileName | video_creator.py:409 | the file name is the part of the path after the last '/' |
| Render.NameStem | video_creator.py:409 | the stem is a prefix of the name |
| Render.StemOf | video_creator.py:409 | the stem of `dir/base.ext` is `base` |
| Render.VideoFilter | video_creator.py:393-418 | the filter starts with `scale=1080:1920`, and has the subtitle clause after ',' exactly when the subtitle path is non-empty and exists |
| Render.FilterColour | video_creator.py:411 | PrimaryColour is the font colour without '#', upper-cased ("FFFFFF"); its digits keep RRGGBB order where `&H` colours are BBGGRR, so only a grey such as the white every style uses keeps its colour |
| Render.FilterFontSize | video_creator.py:397-410 | every language without subtitle settings of its own gets exactly the English filter, and so the English font size |
| Pipeline.Order | main_automation_script.py:90-128 | the stages run script, affiliate (only when requested), voice, video, upload |
| Pipeline.RunLanguage | main_automation_script.py:89-142 | a language ends in a success record exactly when the script, the requested affiliate step, voice, video and upload all succeed; the record holds the affiliate-augmented script when affiliates were requested and the raw script otherwise, and the audio, video and upload outputs and the creation time; Pipeline.RunLanguageStages and Pipeline.FailureStopsLanguage state the stages run |
| Pipeline.RunLanguageStages | main_automation_script.py:88-142 | the stages run are a prefix of the order, all but the last succeeded, the entry is an error exactly when the last raised and carries its message, and the affiliate stage runs exactly when requested and the script succeeded |
| Pipeline.FailureStopsLanguage | main_automation_script.py:89-142 | the first raising stage is the last one run, and the entry is its error |
| Pipeline.Get | main_automation_script.py:130-142 | a lookup fails exactly for a missing key |
| Pipeline.Put | main_automation_script.py:130-142 | assigning a new key appends it; an existing key keeps its place |
| Pipeline.PutGet | main_automation_script.py:130-142 | after `d[k] = v`, `k` maps to `v` and every other key to its old entry |
| Pipeline.PutKeepsDistinct | main_automation_script.py:130-142 | assignment never duplicates a key |
| Pipeline.CreateVideoContent | main_automation_script.py:76-144 | the result dictionary has distinct keys and is non-empty when a language is requested; Pipeline.OneEntryPerLanguage, Pipeline.LanguagesIsolated and Pipeline.LogIsSequential state its contents |
| Pipeline.CreateVideoContentLoop | main_automation_script.py:76-144 | the loop over a mutable dictionary computes exactly the functional model |
| Pipeline.LoopKeys | main_automation_script.py:88-142 | after n languages the keys are the distinct languages among the first n |
| Pipeline.LastRunWins | main_automation_script.py:88-142 | each language holds the entry of its last run |
| Pipeline.LoopKeysDistinct | main_automation_script.py:88-142 | the result has no duplicate key |
| Pipeline.DefaultLanguage | main_automation_script.py:81-82 | without a language list the result has exactly the key "en" |
| Pipeline.OneEntryPerLanguage | main_automation_script.py:81-144 | one entry per distinct requested language, each from the language's last run |
| Pipeline.LanguagesIsolated | main_automation_script.py:88-142 | what happens in one language's run leaves every other language's entry unchanged |
| Pipeline.LogIsSequential | main_automation_script.py:88-128 | languages run one after another in list order |
| Pipeline.TrendRequest | main_automation_script.py:64-68 | a trending topic is made in English with affiliates; its category defaults to "general" |
| Pipeline.TopicOutcome | main_automation_script.py:62-72 | a topic yields content exactly when reading its title succeeds |
| Pipeline.TrendBatch | main_automation_script.py:61-74 | the loop as written completes exactly when every topic yields content, with one result per topic; when it raises, every topic before the first failing one has already run, in order |
| Pipeline.GenerateTrendingContent | main_automation_script.py:54-74 | `generate_trending_content` completes exactly when every topic has a title, with one result per topic; when it raises, the topics before the first untitled one have already run all their stages |
| Pipeline.UntitledTopicCrashesBatch | main_automation_script.py:70-72 | a topic without a title makes the whole batch raise before the titled topic after it runs, where skipping it would leave one result |
| Pipeline.TrendBatchSkipping | main_automation_script.py:61-74 | the skipping loop has one result per successful topic and never more than the topic count |
| Pipeline.PresentSpec | main_automation_script.py:61-74 | the kept topic indices are increasing and miss no successful topic |
| Pipeline.SkippingKeepsOrder | main_automation_script.py:61-74 | the k-th kept result is the content of the k-th successful topic |
| Pipeline.SkippingKeepsTitled | main_automation_script.py:61-74 | the skipping batch holds, in topic order, the `create_video_content` result of exactly the titled topics |
| Pipeline.SkippingAgreesWhenTitled | main_automation_script.py:61-74 | when every topic has a title, the as-written and the skipping batch agree |
| Pipeline.ResultCallsExactly | main_automation_script.py:178-185 | within one result, an entry gets a collector call exactly when it is a success record and no earlier call raised |
| Pipeline.FeedbackFromExactly | main_automation_script.py:176-185 | the calls are exactly the success entries reached in each result |
| Pipeline.ResultCalls | main_automation_script.py:176-185 | the calls for one result go only to its success entries; Pipeline.ResultCallsExactly gives the converse |
| Pipeline.FeedbackCalls | main_automation_script.py:176-185 | every collector call targets a success entry of some result; Pipeline.FeedbackCallsExactly gives the converse |
| Pipeline.FeedbackCallsExactly | main_automation_script.py:176-185 | entry (i, j) gets a call exactly when it is a success record and no earlier call in result i raised; other results are unaffected |
| Pipeline.SelectMode | main_automation_script.py:213-235 | auto mode wins, then a non-empty topic with its languages split at every comma (no language holds a comma) and the affiliate flag, then trend-based with the count |
| Pipeline.AutoLoop | main_automation_script.py:214-241 | the loop ends only at the first raising cycle, with exit code 1, and otherwise keeps running |
| Pipeline.RunMain | main_automation_script.py:187-241 | outside auto mode, the program exits 1 exactly when the trend-based `generate_trending_content` raises; auto mode never finishes normally |
| Pipeline.UntitledTopicExits | main_automation_script.py:232-241 | in trend-based mode, one topic without a title makes the program exit with status 1 |
| Pipeline.ContinuousModeStops | main_automation_script.py:213-241 | continuous mode does not survive a failing cycle |

## Left out

- Language model and retrieval (Ollama, LangChain, embeddings, Chroma, knowledge-base files, the prompt text) are left out. Their output is an input: `raw` and `context` of `ScriptPost.GenerateScript`.
- The main-point extraction with a regular expression (script_generator.py:380-385) is not modelled. `main_points` is not part of the script record.
- The `except` around the header parser (script_generator.py:387-390) is not modelled. Nothing inside it raises on a string input.
- The creation time, the file saving of scripts and the timestamped file names are left out.
- The ElevenLabs, gTTS and ffmpeg calls are oracles in `Voiceover.Providers`. Only their success or failure is modelled.
- `get_available_voices` is a network listing and is left out.
- Voiceover.CreateVoiceover: the `except` branch of `create_voiceover` is not modelled separately. Every helper it calls catches its own errors, so only the "no file" path reaches the fallback.
- Voice settings values are data: stabilities are `real` constants, and the HTTP payload built from them is not modelled.
- PIL drawing, image saves, font downloads and the asset task started in the constructor are left out. Background and font existence are inputs (`Render.FileCheck`, the `present` set).
- The ffmpeg invocation of `_create_video_with_ffmpeg`, `create_thumbnail` and `add_watermark` are left out. The video stage of the pipeline is an oracle, and only its filter string is modelled.
- Subtitles.CueTime: cue times are exact rationals truncated to the millisecond. The source computes them in floating point, so `int((s % 1) * 1000)` may be one millisecond lower for some cues.
- Subtitles.SubtitleFile: the text is modelled, not the file. The `except` branch that returns "" is left out.
- Render.GradientChannel: the channel is computed exactly and then truncated. The source multiplies by the float `y / height`, which can round to one less at some rows.
- ScriptPost.EstimateDuration: computed exactly as `floor(words * 60 / 150)`. The source's float `(w / 150) * 60` can truncate one lower for some word counts.
- The trend analyser is not part of this model. The topic list is an input, and a topic is modelled by the outcome of reading `topic['title']` and `topic.get('category')`. The analyser declares its topics as `TrendTopic` dataclasses, on which `topic['title']` raises; such topics appear in the model as topics without a title.
- Affiliate links, upload and the feedback collector come from modules that are not part of this model. Their outcomes are oracles in `Pipeline.Run` and in the `raising` set.
- Logging, directory creation, `TEST_MODE`, argument parsing and the `asyncio` scheduling (`create_task`, the 2-hour and 24-hour sleeps) are left out. The feedback pass is a plain walk over the results, and `Pipeline.RunMain` takes the observed cycle outcomes as input.
- `run_automation_cycle` is modelled only through its outcome (`cycleRaised`). Its work is `generate_trending_content` with the `DAILY_VIDEO_COUNT` count.
- Pipeline.RunMain: `KeyboardInterrupt` is not modelled.
- Render.PyHexInt: only ASCII hex digits are accepted. Python's `int(x, 16)` also reads other Unicode decimal digits (`int('١٢', 16) == 18`). The colours that reach it are ASCII constants, so no output changes.
- Render.Upper: only ASCII letters are upper-cased, where `str.upper()` maps every cased Unicode letter. The font colours it is applied to are ASCII constants.
- Render.FileName: `Path(p).name` differs from the text after the last '/' for a path ending in '/' or in a "." component. The font paths never take that form.
- Text.SplitOn: the contract pins the pieces only for separators that cannot overlap themselves, which are the only ones the code uses ("\n", ",", ". ").

## Findings

| source | as written | input that shows it | evidently intended | confidence | as-written member | corrected member |
|---|---|---|---|---|---|---|
| main_automation_script.py:70-72 | the handler for a failed topic reads `topic['title']` again in its log message; when that read was the failure, the same exception escapes and the whole batch raises | topics `[{'category': 'tech'}, {'title': 'AI tools'}]`: the first topic has no title | log the failure and skip the topic, keeping the other topics' results in order | not executed | Pipeline.GenerateTrendingContent, Pipeline.UntitledTopicCrashesBatch | Pipeline.GenerateTrendingContentSkipping, Pipeline.SkippingKeepsTitled |
