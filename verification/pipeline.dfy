/** The orchestration layer: the per-language stage pipeline of one video
    (script, affiliate links, voice, video, upload) with per-language error
    capture, the trend-driven batch over many topics, the feedback pass
    over the uploaded videos, and the command-line mode selection. Every
    external stage is an oracle: its outcome for each run is an input. */
module Pipeline {
  import opened Text
  import opened ScriptPost

  // ---------------------------------------------------------------------
  // Stages and their outcomes

  /** What an external call produced: a value, or an exception whose
      `str()` is `msg`. */
  datatype Step<T> = Ok(value: T) | Raised(msg: String)

  datatype Stage = ScriptStage | AffiliateStage | VoiceStage | VideoStage | UploadStage

  /** The outcomes the five stages produce for one language run. The
      voice stage can raise only while the script record is read, since
      the voice generator itself never raises; `createdAt` is the clock. */
  datatype Run = Run(
    script: Step<ScriptRecord>, affiliate: Step<ScriptRecord>, voice: Step<String>,
    video: Step<String>, upload: Step<String>, createdAt: String)

  /** One entry of the result dictionary: `{'error': msg}` or the success
      record; never both. */
  datatype Entry =
    | Success(script: ScriptRecord, audioPath: String, videoPath: String, uploadResults: String, createdAt: String)
    | Error(error: String)

  /** The stages a language runs when nothing fails. */
  function Order(includeAffiliates: bool): (o: seq<Stage>)
    ensures includeAffiliates ==> o == [ScriptStage, AffiliateStage, VoiceStage, VideoStage, UploadStage]
    ensures !includeAffiliates ==> o == [ScriptStage, VoiceStage, VideoStage, UploadStage]
  {
    [ScriptStage] + (if includeAffiliates then [AffiliateStage] else []) + [VoiceStage, VideoStage, UploadStage]
  }

  /** The message of a stage's exception in a run, if it raised. */
  function Failure(run: Run, s: Stage): Option<String> {
    match s
    case ScriptStage => if run.script.Raised? then Some(run.script.msg) else None
    case AffiliateStage => if run.affiliate.Raised? then Some(run.affiliate.msg) else None
    case VoiceStage => if run.voice.Raised? then Some(run.voice.msg) else None
    case VideoStage => if run.video.Raised? then Some(run.video.msg) else None
    case UploadStage => if run.upload.Raised? then Some(run.upload.msg) else None
  }

  predicate IsPrefix<T(==)>(a: seq<T>, b: seq<T>) {
    |a| <= |b| && b[..|a|] == a
  }

  datatype LangResult = LangResult(entry: Entry, stages: seq<Stage>)

  /** One iteration of the language loop: the stages run in order, the first
      exception ends the language with an error entry, and the affiliate
      stage runs only when requested. */
  function RunLanguage(includeAffiliates: bool, run: Run): (r: LangResult)
    ensures r.entry.Success? <==>
              run.script.Ok? && (includeAffiliates ==> run.affiliate.Ok?)
              && run.voice.Ok? && run.video.Ok? && run.upload.Ok?
    ensures r.entry.Success? ==>
              && r.entry.audioPath == run.voice.value && r.entry.videoPath == run.video.value
              && r.entry.uploadResults == run.upload.value && r.entry.createdAt == run.createdAt
    ensures r.entry.Success? ==>
              r.entry.script == (if includeAffiliates then run.affiliate.value else run.script.value)
  {
    match run.script
    case Raised(m) => LangResult(Error(m), [ScriptStage])
    case Ok(s0) =>
      var pre := if includeAffiliates then [ScriptStage, AffiliateStage] else [ScriptStage];
      var aff := if includeAffiliates then run.affiliate else Ok(s0);
      match aff
      case Raised(m) => LangResult(Error(m), pre)
      case Ok(s) =>
        match run.voice
        case Raised(m) => LangResult(Error(m), pre + [VoiceStage])
        case Ok(audio) =>
          match run.video
          case Raised(m) => LangResult(Error(m), pre + [VoiceStage, VideoStage])
          case Ok(video) =>
            match run.upload
            case Raised(m) => LangResult(Error(m), pre + [VoiceStage, VideoStage, UploadStage])
            case Ok(up) => LangResult(Success(s, audio, video, up, run.createdAt), pre + [VoiceStage, VideoStage, UploadStage])
  }

  /** The stages of a language run are a non-empty prefix of the order; all
      but the last succeeded; the entry is an error exactly when the last
      one raised, and then carries its message; a success ran every stage;
      the affiliate stage runs exactly when requested and the script
      stage succeeded. */
  lemma RunLanguageStages(includeAffiliates: bool, run: Run)
    ensures var r := RunLanguage(includeAffiliates, run);
            && r.stages != [] && IsPrefix(r.stages, Order(includeAffiliates))
            && (forall k :: 0 <= k < |r.stages| - 1 ==> Failure(run, r.stages[k]).None?)
            && (r.entry.Error? <==> Failure(run, r.stages[|r.stages| - 1]).Some?)
            && (r.entry.Error? ==> r.entry.error == Failure(run, r.stages[|r.stages| - 1]).value)
            && (r.entry.Success? ==> r.stages == Order(includeAffiliates))
            && (AffiliateStage in r.stages <==> includeAffiliates && run.script.Ok?)
  {
    var r := RunLanguage(includeAffiliates, run);
    var pre := if includeAffiliates then [ScriptStage, AffiliateStage] else [ScriptStage];
    if run.script.Raised? {
      assert r.stages == [ScriptStage];
    } else if includeAffiliates && run.affiliate.Raised? {
      assert r.stages == pre;
    } else if run.voice.Raised? {
      assert r.stages == pre + [VoiceStage];
    } else if run.video.Raised? {
      assert r.stages == pre + [VoiceStage, VideoStage];
    } else {
      assert r.stages == pre + [VoiceStage, VideoStage, UploadStage];
    }
  }

  /** A stage that raises stops its language: no later stage runs. */
  lemma FailureStopsLanguage(includeAffiliates: bool, run: Run, k: nat)
    requires k < |Order(includeAffiliates)| && Failure(run, Order(includeAffiliates)[k]).Some?
    requires forall j :: 0 <= j < k ==> Failure(run, Order(includeAffiliates)[j]).None?
    ensures RunLanguage(includeAffiliates, run).stages == Order(includeAffiliates)[..k + 1]
    ensures RunLanguage(includeAffiliates, run).entry == Error(Failure(run, Order(includeAffiliates)[k]).value)
  {
    RunLanguageStages(includeAffiliates, run);
    var o := Order(includeAffiliates);
    var r := RunLanguage(includeAffiliates, run);
    var m := |r.stages|;
    assert forall j :: 0 <= j < m ==> r.stages[j] == o[j];
    assert m - 1 >= k by {
      if m - 1 < k {
        assert false;
      }
    }
    assert m - 1 <= k by {
      if m - 1 > k {
        assert false;
      }
    }
    assert r.stages == o[..k + 1];
  }

  // ---------------------------------------------------------------------
  // The result dictionary (insertion-ordered)

  type Results = seq<(String, Entry)>

  function Keys(d: Results): (ks: seq<String>)
    ensures |ks| == |d|
    decreases |d|
  {
    if d == [] then [] else [d[0].0] + Keys(d[1..])
  }

  /** No element occurs twice. */
  predicate Distinct<T(==)>(xs: seq<T>)
    decreases |xs|
  {
    xs == [] || (xs[0] !in xs[1..] && Distinct(xs[1..]))
  }

  /** `d.get(k)`. */
  function Get(d: Results, k: String): (r: Option<Entry>)
    ensures r.None? <==> k !in Keys(d)
    decreases |d|
  {
    if d == [] then None
    else if d[0].0 == k then Some(d[0].1)
    else
      assert Keys(d) == [d[0].0] + Keys(d[1..]);
      Get(d[1..], k)
  }

  /** `d[k] = v`: a new key goes to the end, an existing key keeps its place. */
  function Put(d: Results, k: String, v: Entry): (r: Results)
    ensures Keys(r) == if k in Keys(d) then Keys(d) else Keys(d) + [k]
    decreases |d|
  {
    if d == [] then [(k, v)]
    else if d[0].0 == k then
      var r := [(k, v)] + d[1..];
      assert r[1..] == d[1..];
      r
    else
      var rest := Put(d[1..], k, v);
      var r := [d[0]] + rest;
      assert r[1..] == rest;
      assert k in Keys(d) <==> k in Keys(d[1..]);
      assert Keys(d) + [k] == [d[0].0] + (Keys(d[1..]) + [k]);
      r
  }

  /** After `d[k] = v`, `k` maps to `v` and every other key to what it
      mapped to before. */
  lemma {:induction false} PutGet(d: Results, k: String, v: Entry, k': String)
    ensures Get(Put(d, k, v), k') == if k' == k then Some(v) else Get(d, k')
    decreases |d|
  {
    if d != [] && d[0].0 != k {
      PutGet(d[1..], k, v, k');
      assert Put(d, k, v)[1..] == Put(d[1..], k, v);
    }
  }

  lemma {:induction false} PutKeepsDistinct(d: Results, k: String, v: Entry)
    requires Distinct(Keys(d))
    ensures Distinct(Keys(Put(d, k, v)))
    decreases |d|
  {
    if d == [] {
      assert Keys(Put(d, k, v)) == [k];
    } else if d[0].0 != k {
      var rest := Put(d[1..], k, v);
      PutKeepsDistinct(d[1..], k, v);
      assert Put(d, k, v)[1..] == rest;
      assert Keys(Put(d, k, v)) == [d[0].0] + Keys(rest);
    }
  }

  // ---------------------------------------------------------------------
  // create_video_content

  /** The arguments of one `create_video_content` call; `languages` is
      `None` when the caller passes no list. */
  datatype Request = Request(topic: String, category: String, languages: Option<seq<String>>, includeAffiliates: bool)

  function Langs(req: Request): (ls: seq<String>)
    ensures req.languages.None? ==> ls == ["en"]
  {
    match req.languages
    case None => ["en"]
    case Some(ls) => ls
  }

  /** The dictionary returned and the stages called, each tagged with its
      language, in call order. */
  datatype Content = Content(results: Results, log: seq<(String, Stage)>)

  function Tag(lang: String, stages: seq<Stage>): seq<(String, Stage)>
  {
    seq(|stages|, i requires 0 <= i < |stages| => (lang, stages[i]))
  }

  /** The dictionary after the first `n` iterations of the language loop,
      the i-th iteration storing `entries[i]` under `langs[i]`. */
  function LoopResults(langs: seq<String>, entries: seq<Entry>, n: nat): Results
    requires n <= |langs| == |entries|
    decreases n
  {
    if n == 0 then [] else Put(LoopResults(langs, entries, n - 1), langs[n - 1], entries[n - 1])
  }

  /** The stages called in the first `n` iterations. */
  function LoopLog(langs: seq<String>, stages: seq<seq<Stage>>, n: nat): seq<(String, Stage)>
    requires n <= |langs| == |stages|
    decreases n
  {
    if n == 0 then [] else LoopLog(langs, stages, n - 1) + Tag(langs[n - 1], stages[n - 1])
  }

  function Entries(includeAffiliates: bool, runs: seq<Run>): (es: seq<Entry>)
    ensures |es| == |runs|
    ensures forall i :: 0 <= i < |runs| ==> es[i] == RunLanguage(includeAffiliates, runs[i]).entry
  {
    seq(|runs|, i requires 0 <= i < |runs| => RunLanguage(includeAffiliates, runs[i]).entry)
  }

  function StageLists(includeAffiliates: bool, runs: seq<Run>): (ss: seq<seq<Stage>>)
    ensures |ss| == |runs|
    ensures forall i :: 0 <= i < |runs| ==> ss[i] == RunLanguage(includeAffiliates, runs[i]).stages
  {
    seq(|runs|, i requires 0 <= i < |runs| => RunLanguage(includeAffiliates, runs[i]).stages)
  }

  /** `create_video_content` with the stage outcomes of the i-th language
      run in `runs[i]`. */
  function CreateVideoContent(req: Request, runs: seq<Run>): (c: Content)
    requires |runs| == |Langs(req)|
    ensures Distinct(Keys(c.results))
    ensures runs != [] ==> c.results != []
  {
    LoopKeysDistinct(Langs(req), Entries(req.includeAffiliates, runs), |runs|);
    Content(LoopResults(Langs(req), Entries(req.includeAffiliates, runs), |runs|),
            LoopLog(Langs(req), StageLists(req.includeAffiliates, runs), |runs|))
  }

  lemma {:induction false} LoopKeysDistinct(langs: seq<String>, entries: seq<Entry>, n: nat)
    requires n <= |langs| == |entries|
    ensures Distinct(Keys(LoopResults(langs, entries, n)))
    decreases n
  {
    if n == 0 {
      NoIterationNoKeys(langs, entries);
    } else {
      LoopKeysDistinct(langs, entries, n - 1);
      LoopStepDistinct(langs, entries, n);
    }
  }

  lemma NoIterationNoKeys(langs: seq<String>, entries: seq<Entry>)
    requires |langs| == |entries|
    ensures Keys(LoopResults(langs, entries, 0)) == []
  {
  }

  lemma LoopStepDistinct(langs: seq<String>, entries: seq<Entry>, n: nat)
    requires 0 < n <= |langs| == |entries|
    ensures Distinct(Keys(LoopResults(langs, entries, n - 1))) ==> Distinct(Keys(LoopResults(langs, entries, n)))
  {
    if Distinct(Keys(LoopResults(langs, entries, n - 1))) {
      PutKeepsDistinct(LoopResults(langs, entries, n - 1), langs[n - 1], entries[n - 1]);
    }
  }

  /** The loop as the source writes it, over a mutable dictionary. */
  method CreateVideoContentLoop(req: Request, runs: seq<Run>) returns (results: Results, log: seq<(String, Stage)>)
    requires |runs| == |Langs(req)|
    ensures Content(results, log) == CreateVideoContent(req, runs)
  {
    var langs := if req.languages.None? then ["en"] else req.languages.value;
    results := [];
    log := [];
    ghost var es := Entries(req.includeAffiliates, runs);
    ghost var ss := StageLists(req.includeAffiliates, runs);
    var i := 0;
    while i < |langs|
      invariant 0 <= i <= |langs|
      invariant results == LoopResults(langs, es, i)
      invariant log == LoopLog(langs, ss, i)
    {
      var r := RunLanguage(req.includeAffiliates, runs[i]);
      assert es[i] == r.entry && ss[i] == r.stages;
      LoopStep(langs, es, ss, i);
      results := Put(results, langs[i], r.entry);
      log := log + Tag(langs[i], r.stages);
      i := i + 1;
    }
  }

  /** One more iteration stores one more entry and logs one more language. */
  lemma LoopStep(langs: seq<String>, entries: seq<Entry>, stages: seq<seq<Stage>>, i: nat)
    requires i < |langs| == |entries| == |stages|
    ensures LoopResults(langs, entries, i + 1) == Put(LoopResults(langs, entries, i), langs[i], entries[i])
    ensures LoopLog(langs, stages, i + 1) == LoopLog(langs, stages, i) + Tag(langs[i], stages[i])
  {
  }

  /** Index of the last occurrence of `x` in `xs`. */
  function LastOccurrence(xs: seq<String>, x: String): (i: nat)
    requires x in xs
    ensures i < |xs| && xs[i] == x
    ensures forall j :: i < j < |xs| ==> xs[j] != x
    decreases |xs|
  {
    if xs[|xs| - 1] == x then |xs| - 1
    else
      assert x in xs[..|xs| - 1] by {
        var k :| 0 <= k < |xs| && xs[k] == x;
        assert xs[..|xs| - 1][k] == x;
      }
      LastOccurrence(xs[..|xs| - 1], x)
  }

  /** After `n` iterations the keys are the distinct languages among the
      first `n`. */
  lemma LoopKeys(langs: seq<String>, entries: seq<Entry>, n: nat)
    requires n <= |langs| == |entries|
    ensures forall l :: l in Keys(LoopResults(langs, entries, n)) <==> l in langs[..n]
  {
    forall l ensures l in Keys(LoopResults(langs, entries, n)) <==> l in langs[..n] {
      LoopKeysAt(langs, entries, n, l);
    }
  }

  lemma {:induction false} LoopKeysAt(langs: seq<String>, entries: seq<Entry>, n: nat, l: String)
    requires n <= |langs| == |entries|
    ensures l in Keys(LoopResults(langs, entries, n)) <==> l in langs[..n]
    decreases n
  {
    if n > 0 {
      var d := LoopResults(langs, entries, n - 1);
      assert LoopResults(langs, entries, n) == Put(d, langs[n - 1], entries[n - 1]);
      LoopKeysAt(langs, entries, n - 1, l);
      PutKeys(d, langs[n - 1], entries[n - 1], l);
      SnocMember(langs, n, l);
    }
  }

  /** After `n` iterations each language holds the entry of its last
      iteration. */
  lemma LastRunWins(langs: seq<String>, entries: seq<Entry>, n: nat)
    requires n <= |langs| == |entries|
    ensures forall l :: l in langs[..n] ==>
              Get(LoopResults(langs, entries, n), l) == Some(entries[LastOccurrence(langs[..n], l)])
  {
    forall l | l in langs[..n]
      ensures Get(LoopResults(langs, entries, n), l) == Some(entries[LastOccurrence(langs[..n], l)])
    {
      LastRunWinsAt(langs, entries, n, l);
    }
  }

  lemma {:induction false} LastRunWinsAt(langs: seq<String>, entries: seq<Entry>, n: nat, l: String)
    requires n <= |langs| == |entries| && l in langs[..n]
    ensures Get(LoopResults(langs, entries, n), l) == Some(entries[LastOccurrence(langs[..n], l)])
    decreases n
  {
    var pre := langs[..n - 1];
    var k := langs[n - 1];
    SnocSlice(langs, n);
    LastOccurrenceSnoc(pre, k, l);
    PutGet(LoopResults(langs, entries, n - 1), k, entries[n - 1], l);
    if l != k {
      LastRunWinsAt(langs, entries, n - 1, l);
    }
  }

  lemma LastOccurrenceSnoc(pre: seq<String>, k: String, l: String)
    requires l in pre + [k]
    ensures l != k ==> l in pre
    ensures LastOccurrence(pre + [k], l) == if l == k then |pre| else LastOccurrence(pre, l)
  {
    assert (pre + [k])[..|pre|] == pre;
  }

  lemma PutKeys(d: Results, k: String, v: Entry, l: String)
    ensures l in Keys(Put(d, k, v)) <==> l in Keys(d) || l == k
  {
  }

  lemma SnocMember<T>(xs: seq<T>, n: nat, x: T)
    requires 0 < n <= |xs|
    ensures x in xs[..n] <==> x in xs[..n - 1] || x == xs[n - 1]
  {
    assert xs[..n] == xs[..n - 1] + [xs[n - 1]];
  }

  lemma SnocSlice<T>(xs: seq<T>, n: nat)
    requires 0 < n <= |xs|
    ensures xs[..n] == xs[..n - 1] + [xs[n - 1]]
  {
  }

  /** `languages` defaults to English alone. */
  lemma DefaultLanguage(req: Request, runs: seq<Run>)
    requires req.languages.None? && |runs| == 1
    ensures Keys(CreateVideoContent(req, runs).results) == ["en"]
    ensures Get(CreateVideoContent(req, runs).results, "en") == Some(RunLanguage(req.includeAffiliates, runs[0]).entry)
  {
    var es := Entries(req.includeAffiliates, runs);
    assert LoopResults(["en"], es, 0) == [];
  }

  /** One entry per distinct language, each from the language's last run. */
  lemma OneEntryPerLanguage(req: Request, runs: seq<Run>)
    requires |runs| == |Langs(req)|
    ensures var d := CreateVideoContent(req, runs).results;
            && Distinct(Keys(d))
            && (forall l :: l in Keys(d) <==> l in Langs(req))
            && (forall l :: l in Langs(req) ==>
                  Get(d, l) == Some(RunLanguage(req.includeAffiliates, runs[LastOccurrence(Langs(req), l)]).entry))
  {
    var es := Entries(req.includeAffiliates, runs);
    LoopKeys(Langs(req), es, |runs|);
    LastRunWins(Langs(req), es, |runs|);
    LoopKeysDistinct(Langs(req), es, |runs|);
    assert Langs(req)[..|runs|] == Langs(req);
  }

  /** What happens in one language's run leaves every other language's
      entry unchanged. */
  lemma LanguagesIsolated(req: Request, runs: seq<Run>, runs': seq<Run>, j: nat, l: String)
    requires |runs| == |runs'| == |Langs(req)| && j < |runs|
    requires forall i :: 0 <= i < |runs| && i != j ==> runs[i] == runs'[i]
    requires l != Langs(req)[j]
    ensures Get(CreateVideoContent(req, runs).results, l) == Get(CreateVideoContent(req, runs').results, l)
  {
    OneEntryPerLanguage(req, runs);
    OneEntryPerLanguage(req, runs');
  }

  /** The languages run one after another, in list order: the calls of the
      first `m` languages come first, followed by the calls of language `m`. */
  lemma {:induction false} LogIsSequential(langs: seq<String>, stages: seq<seq<Stage>>, n: nat, m: nat)
    requires m <= n <= |langs| == |stages|
    ensures var log := LoopLog(langs, stages, n);
            && IsPrefix(LoopLog(langs, stages, m), log)
            && (m < n ==> IsPrefix(Tag(langs[m], stages[m]), log[|LoopLog(langs, stages, m)|..]))
    decreases n - m
  {
    if m < n {
      LogIsSequential(langs, stages, n, m + 1);
      var a := LoopLog(langs, stages, m);
      var b := LoopLog(langs, stages, m + 1);
      var log := LoopLog(langs, stages, n);
      var t := Tag(langs[m], stages[m]);
      assert b == a + t;
      assert log[..|b|] == b;
      assert log[|a|..][..|t|] == b[|a|..];
    }
  }

  // ---------------------------------------------------------------------
  // generate_trending_content

  /** A trending topic as the batch reads it: `title` is `None` when
      `topic['title']` raises (a missing key, or a topic that is not a
      dictionary), `category` is `None` when the key is absent. */
  datatype Topic = Topic(title: Option<String>, category: Option<String>)

  /** The call made for a titled topic. */
  function TrendRequest(t: Topic): (req: Request)
    requires t.title.Some?
    ensures Langs(req) == ["en"] && req.includeAffiliates
    ensures req.category == (if t.category.Some? then t.category.value else "general")
  {
    Request(t.title.value, if t.category.Some? then t.category.value else "general", None, true)
  }

  /** What one topic yields: the content of its `create_video_content`
      call, or `None` when reading `topic['title']` raises. The call itself
      never raises, since each language catches its own errors. */
  function TopicOutcome(t: Topic, run: Run): (o: Option<Content>)
    ensures o.Some? <==> t.title.Some?
  {
    if t.title.Some? then Some(CreateVideoContent(TrendRequest(t), [run])) else None
  }

  function TopicOutcomes(topics: seq<Topic>, runs: seq<Run>): (os: seq<Option<Content>>)
    requires |runs| == |topics|
    ensures |os| == |topics|
    ensures forall i :: 0 <= i < |topics| ==> os[i] == TopicOutcome(topics[i], runs[i])
  {
    seq(|topics|, i requires 0 <= i < |topics| => TopicOutcome(topics[i], runs[i]))
  }

  /** Whether the batch returns or raises; a raising batch has already
      run every stage (uploads included) of the topics in `ran`. */
  datatype Batch = Completed(results: seq<Content>) | Crashed(msg: String, ran: seq<Content>)

  /** The batch loop as written over the topic outcomes: the handler of a
      failing topic reads `topic['title']` again, so the same exception
      escapes and the whole batch raises. */
  function TrendBatch(os: seq<Option<Content>>): (b: Batch)
    ensures b.Completed? <==> forall i :: 0 <= i < |os| ==> os[i].Some?
    ensures b.Completed? ==> |b.results| == |os|
    ensures b.Crashed? ==> |b.ran| < |os| && os[|b.ran|].None?
    ensures b.Crashed? ==> forall i :: 0 <= i < |b.ran| ==> os[i].Some? && b.ran[i] == os[i].value
    decreases |os|
  {
    if os == [] then Completed([])
    else if os[0].None? then Crashed("title", [])
    else
      match TrendBatch(os[1..])
      case Crashed(m, ran) =>
        assert forall i :: 1 <= i < |ran| + 1 ==> os[i] == os[1..][i - 1];
        Crashed(m, [os[0].value] + ran)
      case Completed(rest) => Completed([os[0].value] + rest)
  }

  /** Indices of the outcomes that are present, in order. */
  function Present<T>(os: seq<Option<T>>): (ix: seq<nat>)
    ensures forall k :: 0 <= k < |ix| ==> ix[k] < |os| && os[ix[k]].Some?
    decreases |os|
  {
    if os == [] then []
    else
      var n := |os| - 1;
      var pre := Present(os[..n]);
      if os[n].Some? then pre + [n] else pre
  }

  /** The batch loop the handler evidently intends: a topic whose processing
      raises is logged and skipped, the others keep their order. */
  function TrendBatchSkipping(os: seq<Option<Content>>): (rs: seq<Content>)
    ensures |rs| == |Present(os)| <= |os|
    decreases |os|
  {
    if os == [] then []
    else
      var n := |os| - 1;
      var pre := TrendBatchSkipping(os[..n]);
      PresentBound(os);
      if os[n].Some? then pre + [os[n].value] else pre
  }

  /** `generate_trending_content` as written: it completes exactly when
      every topic has a title, with one result per topic. */
  function GenerateTrendingContent(topics: seq<Topic>, runs: seq<Run>): (b: Batch)
    requires |runs| == |topics|
    ensures b.Completed? <==> forall i :: 0 <= i < |topics| ==> topics[i].title.Some?
    ensures b.Completed? ==> |b.results| == |topics|
    ensures b.Crashed? ==> |b.ran| < |topics| && topics[|b.ran|].title.None?
    ensures b.Crashed? ==> forall i :: 0 <= i < |b.ran| ==>
              topics[i].title.Some? && b.ran[i] == CreateVideoContent(TrendRequest(topics[i]), [runs[i]])
  {
    var os := TopicOutcomes(topics, runs);
    assert forall i :: 0 <= i < |topics| ==> (os[i].Some? <==> topics[i].title.Some?);
    TrendBatch(os)
  }

  /** The corrected batch: the results of the titled topics, in order. */
  function GenerateTrendingContentSkipping(topics: seq<Topic>, runs: seq<Run>): (rs: seq<Content>)
    requires |runs| == |topics|
    ensures |rs| <= |topics|
  {
    TrendBatchSkipping(TopicOutcomes(topics, runs))
  }

  /** A topic without a title sinks the batch instead of being skipped: the
      titled topic after it never runs. */
  lemma UntitledTopicCrashesBatch(runs: seq<Run>)
    requires |runs| == 2
    ensures GenerateTrendingContent([Topic(None, Some("tech")), Topic(Some("AI tools"), None)], runs).Crashed?
    ensures GenerateTrendingContent([Topic(None, Some("tech")), Topic(Some("AI tools"), None)], runs).ran == []
    ensures |GenerateTrendingContentSkipping([Topic(None, Some("tech")), Topic(Some("AI tools"), None)], runs)| == 1
  {
    var ts := [Topic(None, Some("tech")), Topic(Some("AI tools"), None)];
    var os := TopicOutcomes(ts, runs);
    assert os[0].None? && os[1].Some?;
    assert os[..1][..0] == [];
    assert Present(os[..1]) == [];
    assert Present(os) == [1];
  }

  /** The present indices are increasing and miss no present outcome. */
  lemma {:induction false} PresentSpec<T>(os: seq<Option<T>>)
    ensures var ix := Present(os);
            && (forall k, k' :: 0 <= k < k' < |ix| ==> ix[k] < ix[k'])
            && (forall i :: 0 <= i < |os| && os[i].Some? ==> i in ix)
    decreases |os|
  {
    if os != [] {
      var n := |os| - 1;
      PresentSpec(os[..n]);
      var pre := Present(os[..n]);
      assert forall i :: 0 <= i < n ==> os[..n][i] == os[i];
      if os[n].Some? {
        var ix := pre + [n];
        assert forall k :: 0 <= k < |pre| ==> ix[k] == pre[k];
      }
    }
  }

  lemma PresentBound<T>(os: seq<Option<T>>)
    ensures |Present(os)| <= |os|
  {
    var ix := Present(os);
    PresentSpec(os);
    if |ix| > |os| {
      Pigeonhole(ix, |os|);
    }
  }

  /** A strictly increasing sequence below `n` has at most `n` elements. */
  lemma {:induction false} Pigeonhole(ix: seq<nat>, n: nat)
    requires forall k :: 0 <= k < |ix| ==> ix[k] < n
    requires forall k, k' :: 0 <= k < k' < |ix| ==> ix[k] < ix[k']
    ensures |ix| <= n
    decreases n
  {
    if |ix| > 0 {
      assert ix[0] < n;
      var init := ix[..|ix| - 1];
      assert forall k :: 0 <= k < |init| ==> init[k] < ix[|ix| - 1] < n;
      Pigeonhole(init, n - 1);
    }
  }

  lemma {:induction false} PresentAll<T>(os: seq<Option<T>>)
    requires forall i :: 0 <= i < |os| ==> os[i].Some?
    ensures |Present(os)| == |os|
    ensures forall k :: 0 <= k < |os| ==> Present(os)[k] == k
    decreases |os|
  {
    if os != [] {
      var n := |os| - 1;
      PresentAll(os[..n]);
      assert Present(os) == Present(os[..n]) + [n];
    }
  }

  /** The skipping batch holds, in order, the content of exactly the present
      outcomes. */
  lemma {:induction false} SkippingKeepsOrder(os: seq<Option<Content>>, k: nat)
    requires k < |Present(os)|
    ensures TrendBatchSkipping(os)[k] == os[Present(os)[k]].value
    decreases |os|
  {
    var n := |os| - 1;
    var pre := os[..n];
    var ix := Present(pre);
    if k < |ix| {
      SkippingKeepsOrder(pre, k);
      assert pre[ix[k]] == os[ix[k]];
    }
  }

  lemma {:induction false} TrendResultAt(os: seq<Option<Content>>, k: nat)
    requires k < |os| && forall i :: 0 <= i < |os| ==> os[i].Some?
    ensures TrendBatch(os).results[k] == os[k].value
    decreases k
  {
    if k > 0 {
      TrendResultAt(os[1..], k - 1);
    }
  }

  /** When every outcome is present the two batch loops agree. */
  lemma SkippingAgreesWhenPresent(os: seq<Option<Content>>)
    requires forall i :: 0 <= i < |os| ==> os[i].Some?
    ensures TrendBatch(os) == Completed(TrendBatchSkipping(os))
  {
    PresentAll(os);
    var rs := TrendBatch(os).results;
    var ss := TrendBatchSkipping(os);
    forall k | 0 <= k < |rs| ensures rs[k] == ss[k] {
      TrendResultAt(os, k);
      SkippingKeepsOrder(os, k);
    }
  }

  /** The corrected batch holds, in topic order, the content of the titled
      topics and of no other: its k-th result is the `create_video_content`
      result of the k-th titled topic. */
  lemma SkippingKeepsTitled(topics: seq<Topic>, runs: seq<Run>)
    requires |runs| == |topics|
    ensures var ix := Present(TopicOutcomes(topics, runs));
            && |GenerateTrendingContentSkipping(topics, runs)| == |ix|
            && (forall k, k' :: 0 <= k < k' < |ix| ==> ix[k] < ix[k'])
            && (forall i :: 0 <= i < |topics| ==> (i in ix <==> topics[i].title.Some?))
            && (forall k :: 0 <= k < |ix| ==>
                  GenerateTrendingContentSkipping(topics, runs)[k]
                  == CreateVideoContent(TrendRequest(topics[ix[k]]), [runs[ix[k]]]))
  {
    var os := TopicOutcomes(topics, runs);
    var ix := Present(os);
    PresentSpec(os);
    forall k | 0 <= k < |ix|
      ensures GenerateTrendingContentSkipping(topics, runs)[k] == CreateVideoContent(TrendRequest(topics[ix[k]]), [runs[ix[k]]])
    {
      SkippingKeepsOrder(os, k);
    }
  }

  /** When every topic has a title the as-written and the corrected batch
      agree. */
  lemma SkippingAgreesWhenTitled(topics: seq<Topic>, runs: seq<Run>)
    requires |runs| == |topics|
    requires forall i :: 0 <= i < |topics| ==> topics[i].title.Some?
    ensures GenerateTrendingContent(topics, runs) == Completed(GenerateTrendingContentSkipping(topics, runs))
  {
    SkippingAgreesWhenPresent(TopicOutcomes(topics, runs));
  }

  // ---------------------------------------------------------------------
  // collect_feedback_for_videos

  /** The collector calls made while walking the results: `(i, j)` is the
      j-th entry of the i-th result. A call in `raising` throws, which
      skips the rest of that result. */
  function FeedbackCalls(results: seq<Results>, raising: set<(nat, nat)>): (cs: seq<(nat, nat)>)
    ensures forall c :: c in cs ==> c.0 < |results| && c.1 < |results[c.0]| && results[c.0][c.1].1.Success?
  {
    FeedbackFrom(results, raising, 0)
  }

  function FeedbackFrom(results: seq<Results>, raising: set<(nat, nat)>, i: nat): (cs: seq<(nat, nat)>)
    requires i <= |results|
    ensures forall c :: c in cs ==> i <= c.0 < |results| && c.1 < |results[c.0]| && results[c.0][c.1].1.Success?
    decreases |results| - i
  {
    if i == |results| then [] else ResultCalls(results[i], raising, i, 0) + FeedbackFrom(results, raising, i + 1)
  }

  function ResultCalls(d: Results, raising: set<(nat, nat)>, i: nat, j: nat): (cs: seq<(nat, nat)>)
    requires j <= |d|
    ensures forall c :: c in cs ==> c.0 == i && j <= c.1 < |d| && d[c.1].1.Success?
    decreases |d| - j
  {
    if j == |d| then []
    else if d[j].1.Success? then
      if (i, j) in raising then [(i, j)] else [(i, j)] + ResultCalls(d, raising, i, j + 1)
    else ResultCalls(d, raising, i, j + 1)
  }

  /** Entry `j` of a result is reached when no earlier entry's collector
      call raised. */
  predicate Reached(d: Results, raising: set<(nat, nat)>, i: nat, j: nat)
    requires j <= |d|
  {
    forall j' :: 0 <= j' < j ==> !(d[j'].1.Success? && (i, j') in raising)
  }

  lemma {:induction false} ResultCallsExactly(d: Results, raising: set<(nat, nat)>, i: nat, j: nat)
    requires j <= |d| && Reached(d, raising, i, j)
    ensures forall c :: c in ResultCalls(d, raising, i, j) <==>
              c.0 == i && j <= c.1 < |d| && d[c.1].1.Success? && Reached(d, raising, i, c.1)
    decreases |d| - j
  {
    if j < |d| {
      if d[j].1.Success? && (i, j) in raising {
        forall k | j < k < |d| ensures !Reached(d, raising, i, k) {
          assert d[j].1.Success? && (i, j) in raising;
        }
      } else {
        assert Reached(d, raising, i, j + 1);
        ResultCallsExactly(d, raising, i, j + 1);
      }
    }
  }

  lemma {:induction false} FeedbackFromExactly(results: seq<Results>, raising: set<(nat, nat)>, i: nat)
    requires i <= |results|
    ensures forall c :: c in FeedbackFrom(results, raising, i) <==>
              i <= c.0 < |results| && c.1 < |results[c.0]| && results[c.0][c.1].1.Success?
              && Reached(results[c.0], raising, c.0, c.1)
    decreases |results| - i
  {
    if i < |results| {
      ResultCallsExactly(results[i], raising, i, 0);
      FeedbackFromExactly(results, raising, i + 1);
    }
  }

  /** The collector is called for entry `(i, j)` exactly when it is a
      success record (the only kind with upload results) and no earlier
      call for the same result raised; a raising call never affects the
      other results. */
  lemma FeedbackCallsExactly(results: seq<Results>, raising: set<(nat, nat)>, i: nat, j: nat)
    ensures (i, j) in FeedbackCalls(results, raising) <==>
              i < |results| && j < |results[i]| && results[i][j].1.Success? && Reached(results[i], raising, i, j)
  {
    FeedbackFromExactly(results, raising, 0);
  }

  // ---------------------------------------------------------------------
  // Command line

  /** The parsed command line; `topic` is `None` when not given. */
  datatype Args = Args(topic: Option<String>, languages: String, count: int, includeAffiliates: bool, autoMode: bool)

  datatype Mode = Auto | ManualTopic(topic: String, languages: seq<String>, includeAffiliates: bool) | TrendBased(count: int)

  /** Auto mode wins over a topic, and a topic (when non-empty, the truth
      test the source uses) wins over the trend-based default. */
  function SelectMode(args: Args): (m: Mode)
    ensures args.autoMode <==> m.Auto?
    ensures m.ManualTopic? <==> !args.autoMode && args.topic.Some? && args.topic.value != []
    ensures m.ManualTopic? ==> m.topic == args.topic.value && Join(m.languages, ",") == args.languages
    ensures m.ManualTopic? ==> forall k :: 0 <= k < |m.languages| ==> !Contains(m.languages[k], ",")
    ensures m.ManualTopic? ==> m.includeAffiliates == args.includeAffiliates
    ensures m.TrendBased? ==> m.count == args.count
  {
    if args.autoMode then Auto
    else if args.topic.Some? && args.topic.value != [] then ManualTopic(args.topic.value, SplitOn(args.languages, ","), args.includeAffiliates)
    else TrendBased(args.count)
  }

  /** How a run of the program ends: normally, by `exit(1)`, or still in
      the auto-mode loop after `cycles` cycles. */
  datatype Ending = Finished | ExitCode(code: int, cycles: nat) | StillRunning(cycles: nat)

  /** The auto-mode loop over the observed cycle outcomes (`true` when the
      cycle raised): the first raising cycle leaves the loop and exits 1. */
  function AutoLoop(raised: seq<bool>): (e: Ending)
    ensures !e.Finished?
    ensures e.StillRunning? <==> forall k :: 0 <= k < |raised| ==> !raised[k]
    ensures e.StillRunning? ==> e.cycles == |raised|
    ensures e.ExitCode? ==> e.code == 1 && e.cycles < |raised| && raised[e.cycles]
    ensures e.ExitCode? ==> forall k :: 0 <= k < e.cycles ==> !raised[k]
    decreases |raised|
  {
    if raised == [] then StillRunning(0)
    else if raised[0] then ExitCode(1, 0)
    else
      match AutoLoop(raised[1..])
      case StillRunning(n) => StillRunning(n + 1)
      case ExitCode(c, n) => ExitCode(c, n + 1)
      case Finished => Finished
  }

  /** `main`: auto mode loops until a cycle raises; the manual topic mode
      cannot fail (each language catches its own errors); the trend-based
      mode exits 1 when the batch raises. */
  function RunMain(args: Args, cycleRaised: seq<bool>, topics: seq<Topic>, runs: seq<Run>): (e: Ending)
    requires |runs| == |topics|
    ensures !args.autoMode ==>
              (e.ExitCode? <==> SelectMode(args).TrendBased? && GenerateTrendingContent(topics, runs).Crashed?)
    ensures args.autoMode ==> !e.Finished?
  {
    match SelectMode(args)
    case Auto => AutoLoop(cycleRaised)
    case ManualTopic(_, _, _) => Finished
    case TrendBased(_) => if GenerateTrendingContent(topics, runs).Crashed? then ExitCode(1, 0) else Finished
  }

  /** In the trend-based mode a single topic without a title makes the
      program exit with status 1. */
  lemma UntitledTopicExits(args: Args, cycleRaised: seq<bool>, topics: seq<Topic>, runs: seq<Run>, i: nat)
    requires |runs| == |topics| && i < |topics| && topics[i].title.None?
    requires !args.autoMode && (args.topic.None? || args.topic.value == [])
    ensures RunMain(args, cycleRaised, topics, runs) == ExitCode(1, 0)
  {
  }

  /** Continuous mode does not survive a failing cycle. */
  lemma ContinuousModeStops(args: Args, cycleRaised: seq<bool>, topics: seq<Topic>, runs: seq<Run>, k: nat)
    requires |runs| == |topics|
    requires args.autoMode && k < |cycleRaised| && cycleRaised[k]
    ensures RunMain(args, cycleRaised, topics, runs).ExitCode?
    ensures RunMain(args, cycleRaised, topics, runs).code == 1 && RunMain(args, cycleRaised, topics, runs).cycles <= k
  {
  }
}
