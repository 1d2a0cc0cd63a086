/** Post-processing of a generated script: the per-language configuration
    table, the line-oriented header parser that turns the language model's
    raw output into title, hook, main content, call to action, description
    and tags, the spoken-duration estimate, and the truncated context note
    attached to every script record. The language model and the retrieval
    of the context are inputs. */
module ScriptPost {
  import opened Text
  import opened Arith

  // ---------------------------------------------------------------------
  // Language configuration

  /** Voice style and target length (in words) of one language. */
  datatype LangConfig = LangConfig(voiceStyle: String, maxLength: nat)

  function LangEntry(language: String): Option<LangConfig> {
    if language == "en" then Some(LangConfig("professional", 150))
    else if language == "de" then Some(LangConfig("formal", 140))
    else if language == "ko" then Some(LangConfig("friendly", 120))
    else if language == "zh" then Some(LangConfig("energetic", 130))
    else None
  }

  /** `language_configs.get(language, language_configs['en'])`. */
  function LanguageConfig(language: String): (c: LangConfig)
    ensures LangEntry(language).Some? ==> c == LangEntry(language).value
    ensures LangEntry(language).None? ==> c == LangEntry("en").value
    ensures 120 <= c.maxLength <= 150
  {
    match LangEntry(language)
    case Some(c) => c
    case None => LangConfig("professional", 150)
  }

  /** Four languages are configured; every other one is written like English. */
  lemma LanguageFallback(language: String)
    ensures LangEntry(language).Some? <==> language in {"en", "de", "ko", "zh"}
    ensures language !in {"en", "de", "ko", "zh"} ==> LanguageConfig(language) == LangConfig("professional", 150)
  {
  }

  // ---------------------------------------------------------------------
  // Headers

  datatype Header = Title | Hook | MainContent | Cta | Description | Tags

  function Marker(h: Header): String {
    match h
    case Title => "TITLE:"
    case Hook => "HOOK:"
    case MainContent => "MAIN_CONTENT:"
    case Cta => "CTA:"
    case Description => "DESCRIPTION:"
    case Tags => "TAGS:"
  }

  /** The header a (stripped) line starts with, checked in the parser's order. */
  function HeaderOf(line: String): Option<Header> {
    if StartsWith(line, "TITLE:") then Some(Title)
    else if StartsWith(line, "HOOK:") then Some(Hook)
    else if StartsWith(line, "MAIN_CONTENT:") then Some(MainContent)
    else if StartsWith(line, "CTA:") then Some(Cta)
    else if StartsWith(line, "DESCRIPTION:") then Some(Description)
    else if StartsWith(line, "TAGS:") then Some(Tags)
    else None
  }

  /** No marker is a prefix of another, so the order of the tests does not
      matter: a line starting with a marker is that marker's line. */
  lemma HeaderUnique(line: String, h: Header)
    requires StartsWith(line, Marker(h))
    ensures HeaderOf(line) == Some(h)
  {
    assert line[0] == Marker(h)[0];
    assert line[1] == Marker(h)[1];
  }

  /** The value of a header line: every occurrence of the marker removed,
      then stripped. */
  function HeaderValue(line: String, h: Header): String {
    Strip(ReplaceAll(line, Marker(h), ""))
  }

  /** Python `[t.strip() for t in s.split(',')]`. */
  function TagList(s: String): seq<String> {
    var pieces := SplitOn(s, ",");
    seq(|pieces|, k requires 0 <= k < |pieces| => Strip(pieces[k]))
  }

  // ---------------------------------------------------------------------
  // The parser

  /** The parser's dictionary while it scans the lines; `main` is absent
      until a MAIN_CONTENT line has been seen, and `inMain` is the current
      section. */
  datatype ParseState = ParseState(
    title: String, hook: String, main: Option<String>, cta: String,
    description: String, tags: seq<String>, inMain: bool)

  predicate Valid(st: ParseState) {
    st.inMain ==> st.main.Some?
  }

  function Defaults(): (st: ParseState)
    ensures Valid(st) && !st.inMain && st.main.None?
  {
    ParseState("Generated Video", "Welcome to this video!", None, "Thanks for watching!",
               "AI generated content", ["ai", "automation", "tips"], false)
  }

  /** A continuation line is appended after a single space, or replaces an
      empty main content. */
  function AppendLine(m: String, line: String): String {
    if m != [] then m + " " + line else line
  }

  /** What a raw line is once stripped: blank, a header line with its
      value, or a line of text. */
  datatype LineKind = Blank | HeaderLine(h: Header, value: String) | TextLine(line: String)

  function Classify(raw: String): LineKind {
    var line := Strip(raw);
    if line == [] then Blank
    else
      match HeaderOf(line)
      case Some(h) => HeaderLine(h, HeaderValue(line, h))
      case None => TextLine(line)
  }

  /** The classified lines of the model's output. */
  function Kinds(lines: seq<String>): (ks: seq<LineKind>)
    ensures |ks| == |lines|
    ensures forall k :: 0 <= k < |ks| ==> ks[k] == Classify(lines[k])
  {
    seq(|lines|, k requires 0 <= k < |lines| => Classify(lines[k]))
  }

  /** One line of the model's output. */
  function Step(st: ParseState, kind: LineKind): (r: ParseState)
    requires Valid(st)
    ensures Valid(r)
  {
    match kind
    case Blank => st
    case HeaderLine(Title, v) => st.(title := v)
    case HeaderLine(Hook, v) => st.(hook := v)
    case HeaderLine(MainContent, v) => st.(main := Some(v), inMain := true)
    case HeaderLine(Cta, v) => st.(cta := v, inMain := false)
    case HeaderLine(Description, v) => st.(description := v)
    case HeaderLine(Tags, v) => st.(tags := TagList(v))
    case TextLine(line) => if st.inMain then st.(main := Some(AppendLine(st.main.value, line))) else st
  }

  function Fold(st: ParseState, ks: seq<LineKind>): (r: ParseState)
    requires Valid(st)
    ensures Valid(r)
    decreases |ks|
  {
    if ks == [] then st else Fold(Step(st, ks[0]), ks[1..])
  }

  /** The structured script; `main` is `None` when the output has no
      MAIN_CONTENT line (the key is then absent from the dictionary). */
  datatype Structured = Structured(
    title: String, hook: String, main: Option<String>, cta: String,
    description: String, tags: seq<String>, content: String)

  function MainOr(m: Option<String>): String {
    match m
    case Some(v) => v
    case None => []
  }

  /** The spoken content: hook, main content and call to action separated
      by single spaces, stripped as a whole. */
  function Compose(hook: String, main: Option<String>, cta: String): String {
    Strip(hook + " " + MainOr(main) + " " + cta)
  }

  /** The structured script read from classified lines. */
  function Parse(ks: seq<LineKind>): (s: Structured)
    ensures s.content == Compose(s.hook, s.main, s.cta)
  {
    var st := Fold(Defaults(), ks);
    Structured(st.title, st.hook, st.main, st.cta, st.description, st.tags, Compose(st.hook, st.main, st.cta))
  }

  /** `_structure_script`: split the raw output into lines, classify them,
      parse them, and recompose the content. */
  function StructureScript(raw: String): (r: Structured)
    ensures r.content == Compose(r.hook, r.main, r.cta)
    ensures r.content != [] ==> !IsSpace(r.content[0]) && !IsSpace(r.content[|r.content| - 1])
  {
    Parse(Kinds(SplitOn(raw, "\n")))
  }

  // ---------------------------------------------------------------------
  // Reference definitions: the last header wins

  predicate IsHeader(kind: LineKind, h: Header) {
    kind.HeaderLine? && kind.h == h
  }

  /** The value of the last `h` line, scanning from the end. */
  function LastValue(ks: seq<LineKind>, h: Header): (r: Option<String>)
    ensures r.None? <==> forall k :: 0 <= k < |ks| ==> !IsHeader(ks[k], h)
    decreases |ks|
  {
    if ks == [] then None
    else
      var last := ks[|ks| - 1];
      if IsHeader(last, h) then Some(last.value)
      else
        var r := LastValue(ks[..|ks| - 1], h);
        assert forall k :: 0 <= k < |ks| - 1 ==> ks[..|ks| - 1][k] == ks[k];
        r
  }

  /** The single-valued fields. */
  function Field(st: ParseState, h: Header): String
    requires h in {Title, Hook, Cta, Description}
  {
    match h
    case Title => st.title
    case Hook => st.hook
    case Cta => st.cta
    case Description => st.description
  }

  lemma {:induction false} FoldSnoc(st: ParseState, ks: seq<LineKind>, l: LineKind)
    requires Valid(st)
    ensures Fold(st, ks + [l]) == Step(Fold(st, ks), l)
    decreases |ks|
  {
    if ks == [] {
      assert [l][1..] == [];
    } else {
      assert (ks + [l])[1..] == ks[1..] + [l];
      FoldSnoc(Step(st, ks[0]), ks[1..], l);
    }
  }

  /** A single-valued field holds the value of its last header line, or
      what it held before. */
  lemma {:induction false} FoldField(st: ParseState, ks: seq<LineKind>, h: Header)
    requires Valid(st) && h in {Title, Hook, Cta, Description}
    ensures Field(Fold(st, ks), h) == (match LastValue(ks, h) case Some(v) => v case None => Field(st, h))
    decreases |ks|
  {
    if ks != [] {
      var init := ks[..|ks| - 1];
      var last := ks[|ks| - 1];
      assert ks == init + [last];
      FoldSnoc(st, init, last);
      StepField(Fold(st, init), last, h);
      FoldField(st, init, h);
    }
  }

  lemma StepField(st: ParseState, l: LineKind, h: Header)
    requires Valid(st) && h in {Title, Hook, Cta, Description}
    ensures Field(Step(st, l), h) == if IsHeader(l, h) then l.value else Field(st, h)
  {
  }

  lemma {:induction false} FoldTags(st: ParseState, ks: seq<LineKind>)
    requires Valid(st)
    ensures Fold(st, ks).tags == (match LastValue(ks, Tags) case Some(v) => TagList(v) case None => st.tags)
    decreases |ks|
  {
    if ks != [] {
      var init := ks[..|ks| - 1];
      var last := ks[|ks| - 1];
      assert ks == init + [last];
      FoldSnoc(st, init, last);
      StepTags(Fold(st, init), last);
      FoldTags(st, init);
    }
  }

  lemma StepTags(st: ParseState, l: LineKind)
    requires Valid(st)
    ensures Step(st, l).tags == if IsHeader(l, Tags) then TagList(l.value) else st.tags
  {
  }

  /** Title, hook, call to action, description and tags come from the last
      line carrying their header, and keep their defaults otherwise. */
  lemma LastHeaderWins(ks: seq<LineKind>)
    ensures var s := Parse(ks);
            && s.title == (match LastValue(ks, Title) case Some(v) => v case None => "Generated Video")
            && s.hook == (match LastValue(ks, Hook) case Some(v) => v case None => "Welcome to this video!")
            && s.cta == (match LastValue(ks, Cta) case Some(v) => v case None => "Thanks for watching!")
            && s.description == (match LastValue(ks, Description) case Some(v) => v case None => "AI generated content")
            && s.tags == (match LastValue(ks, Tags) case Some(v) => TagList(v) case None => ["ai", "automation", "tips"])
  {
    FoldField(Defaults(), ks, Title);
    FoldField(Defaults(), ks, Hook);
    FoldField(Defaults(), ks, Cta);
    FoldField(Defaults(), ks, Description);
    FoldTags(Defaults(), ks);
  }

  // ---------------------------------------------------------------------
  // Reference definition: the main-content section

  /** The lines before the first CTA line. */
  function UntilCta(ks: seq<LineKind>): (r: seq<LineKind>)
    ensures |r| <= |ks|
    decreases |ks|
  {
    if ks == [] || IsHeader(ks[0], Cta) then [] else [ks[0]] + UntilCta(ks[1..])
  }

  /** The text of the lines that are neither blank nor headers. */
  function TextLines(ks: seq<LineKind>): (r: seq<String>)
    decreases |ks|
  {
    if ks == [] then []
    else if ks[0].TextLine? then [ks[0].line] + TextLines(ks[1..])
    else TextLines(ks[1..])
  }

  function AppendAll(m: String, texts: seq<String>): String
    decreases |texts|
  {
    if texts == [] then m else AppendAll(AppendLine(m, texts[0]), texts[1..])
  }

  /** Index of the last `h` line. */
  function LastIndex(ks: seq<LineKind>, h: Header): (r: Option<nat>)
    ensures r.Some? ==> r.value < |ks| && IsHeader(ks[r.value], h)
    ensures r.Some? ==> forall k :: r.value < k < |ks| ==> !IsHeader(ks[k], h)
    ensures r.None? ==> forall k :: 0 <= k < |ks| ==> !IsHeader(ks[k], h)
    decreases |ks|
  {
    if ks == [] then None
    else if IsHeader(ks[|ks| - 1], h) then Some(|ks| - 1)
    else
      var r := LastIndex(ks[..|ks| - 1], h);
      assert forall k :: 0 <= k < |ks| - 1 ==> ks[..|ks| - 1][k] == ks[k];
      r
  }

  /** The main content: the value of the last MAIN_CONTENT line followed by
      the text lines after it up to the next CTA line. */
  function MainSection(ks: seq<LineKind>): Option<String> {
    match LastIndex(ks, MainContent)
    case None => None
    case Some(i) => Some(AppendAll(ks[i].value, TextLines(UntilCta(ks[i + 1..]))))
  }

  lemma {:induction false} FoldAppend(st: ParseState, a: seq<LineKind>, b: seq<LineKind>)
    requires Valid(st)
    ensures Fold(st, a + b) == Fold(Fold(st, a), b)
    decreases |a|
  {
    if a != [] {
      assert (a + b)[0] == a[0];
      assert (a + b)[1..] == a[1..] + b;
      FoldAppend(Step(st, a[0]), a[1..], b);
    } else {
      assert a + b == b;
    }
  }

  /** Outside the main section, lines without MAIN_CONTENT leave it alone. */
  lemma {:induction false} FoldOutsideMain(st: ParseState, ks: seq<LineKind>)
    requires Valid(st) && !st.inMain
    requires forall k :: 0 <= k < |ks| ==> !IsHeader(ks[k], MainContent)
    ensures Fold(st, ks).main == st.main && !Fold(st, ks).inMain
    decreases |ks|
  {
    if ks != [] {
      assert !IsHeader(ks[0], MainContent);
      FoldOutsideMain(Step(st, ks[0]), ks[1..]);
    }
  }

  /** Inside the main section, text lines are appended until a CTA line. */
  lemma {:induction false} FoldInsideMain(st: ParseState, ks: seq<LineKind>)
    requires Valid(st) && st.inMain
    requires forall k :: 0 <= k < |ks| ==> !IsHeader(ks[k], MainContent)
    ensures Fold(st, ks).main == Some(AppendAll(st.main.value, TextLines(UntilCta(ks))))
    decreases |ks|
  {
    if ks != [] {
      var l := ks[0];
      var next := Step(st, l);
      assert !IsHeader(l, MainContent);
      assert forall k :: 0 <= k < |ks| - 1 ==> ks[1..][k] == ks[k + 1];
      if IsHeader(l, Cta) {
        FoldOutsideMain(next, ks[1..]);
      } else {
        FoldInsideMain(next, ks[1..]);
        if l.TextLine? {
          assert TextLines(UntilCta(ks)) == [l.line] + TextLines(UntilCta(ks[1..]));
        } else {
          assert TextLines(UntilCta(ks)) == TextLines(UntilCta(ks[1..]));
        }
      }
    }
  }

  /** The main content is the last MAIN_CONTENT section: other headers do
      not end it, only a CTA line does. */
  lemma MainIsLastSection(ks: seq<LineKind>)
    ensures Parse(ks).main == MainSection(ks)
  {
    match LastIndex(ks, MainContent)
    case None =>
      FoldOutsideMain(Defaults(), ks);
    case Some(i) =>
      assert ks == ks[..i + 1] + ks[i + 1..];
      FoldAppend(Defaults(), ks[..i + 1], ks[i + 1..]);
      assert ks[..i + 1] == ks[..i] + [ks[i]];
      FoldSnoc(Defaults(), ks[..i], ks[i]);
      var st := Fold(Defaults(), ks[..i + 1]);
      assert st.inMain && st.main == Some(ks[i].value);
      var post := ks[i + 1..];
      forall k | 0 <= k < |post| ensures !IsHeader(post[k], MainContent) {
        assert post[k] == ks[i + 1 + k];
      }
      FoldInsideMain(st, post);
  }

  /** The appended main content is its non-empty pieces joined by single spaces. */
  lemma {:induction false} AppendAllJoins(m: String, texts: seq<String>)
    requires forall k :: 0 <= k < |texts| ==> texts[k] != []
    ensures AppendAll(m, texts) == JoinSpace(if m == [] then texts else [m] + texts)
    decreases |texts|
  {
    if texts != [] {
      var m' := AppendLine(m, texts[0]);
      AppendAllJoins(m', texts[1..]);
      if m == [] {
        assert [m'] + texts[1..] == texts;
        if |texts| > 1 {
          assert texts[1..] == [texts[1]] + texts[2..];
        }
      } else if |texts| == 1 {
        assert texts[1..] == [];
        assert ([m] + texts)[1..] == texts;
        assert JoinSpace([m] + texts) == m + " " + texts[0];
      } else {
        JoinAppend([m], texts, " ");
        JoinAppend([m'], texts[1..], " ");
        JoinAppend([texts[0]], texts[1..], " ");
        assert [texts[0]] + texts[1..] == texts;
      }
    }
  }

  /** A text line is never empty: blank lines are classified apart. */
  lemma TextLinesNonEmpty(lines: seq<String>)
    ensures forall k :: 0 <= k < |Kinds(lines)| && Kinds(lines)[k].TextLine? ==> Kinds(lines)[k].line != []
  {
  }

  lemma {:induction false} TextLinesOf(ks: seq<LineKind>)
    requires forall k :: 0 <= k < |ks| && ks[k].TextLine? ==> ks[k].line != []
    ensures forall k :: 0 <= k < |TextLines(ks)| ==> TextLines(ks)[k] != []
    ensures forall k :: 0 <= k < |UntilCta(ks)| ==> UntilCta(ks)[k] == ks[k]
    decreases |ks|
  {
    if ks != [] {
      TextLinesOf(ks[1..]);
    }
  }

  /** The pieces of the main section: the last MAIN_CONTENT value unless it
      is empty, then the text lines up to the next CTA line. */
  function MainPieces(ks: seq<LineKind>, i: nat): seq<String>
    requires i < |ks| && ks[i].HeaderLine?
  {
    var v := ks[i].value;
    var texts := TextLines(UntilCta(ks[i + 1..]));
    if v == [] then texts else [v] + texts
  }

  /** The main content is the pieces of the last MAIN_CONTENT section
      joined by single spaces. */
  lemma MainIsJoined(ks: seq<LineKind>)
    requires forall k :: 0 <= k < |ks| && ks[k].TextLine? ==> ks[k].line != []
    ensures LastIndex(ks, MainContent).None? ==> Parse(ks).main.None?
    ensures LastIndex(ks, MainContent).Some? ==>
              Parse(ks).main == Some(JoinSpace(MainPieces(ks, LastIndex(ks, MainContent).value)))
  {
    MainIsLastSection(ks);
    var m := LastIndex(ks, MainContent);
    if m.Some? {
      PiecesJoined(ks, m.value);
      assert MainSection(ks) == Some(JoinSpace(MainPieces(ks, m.value)));
    }
  }

  /** The section opened by header `i` appends up to its pieces joined by
      single spaces. */
  lemma PiecesJoined(ks: seq<LineKind>, i: nat)
    requires i < |ks| && ks[i].HeaderLine?
    requires forall k :: 0 <= k < |ks| && ks[k].TextLine? ==> ks[k].line != []
    ensures AppendAll(ks[i].value, TextLines(UntilCta(ks[i + 1..]))) == JoinSpace(MainPieces(ks, i))
  {
    var post := ks[i + 1..];
    TextLinesOf(post);
    var cut := UntilCta(post);
    TextLinesOf(cut);
    AppendAllJoins(ks[i].value, TextLines(cut));
  }

  // ---------------------------------------------------------------------
  // Defaults and tags

  lemma StripUnchanged(s: String)
    requires s != [] && !IsSpace(s[0]) && !IsSpace(s[|s| - 1])
    ensures Strip(s) == s
  {
  }

  /** A line that does not start with a marker once stripped is not a header line. */
  lemma NoMarker(raw: String)
    requires forall h: Header :: !StartsWith(Strip(raw), Marker(h))
    ensures !Classify(raw).HeaderLine?
  {
    assert !StartsWith(Strip(raw), Marker(Title)) && !StartsWith(Strip(raw), Marker(Hook));
    assert !StartsWith(Strip(raw), Marker(MainContent)) && !StartsWith(Strip(raw), Marker(Cta));
    assert !StartsWith(Strip(raw), Marker(Description)) && !StartsWith(Strip(raw), Marker(Tags));
  }

  /** Without header lines every default is kept. */
  lemma NoHeadersKeepDefaults(ks: seq<LineKind>)
    requires forall k :: 0 <= k < |ks| ==> !ks[k].HeaderLine?
    ensures var s := Parse(ks);
            && s.title == "Generated Video" && s.hook == "Welcome to this video!"
            && s.main.None? && s.cta == "Thanks for watching!"
            && s.description == "AI generated content" && s.tags == ["ai", "automation", "tips"]
  {
    LastHeaderWins(ks);
    FoldOutsideMain(Defaults(), ks);
  }

  /** The default content: hook and call to action around an empty middle,
      with two spaces between them. */
  lemma DefaultContent()
    ensures Compose("Welcome to this video!", None, "Thanks for watching!") == "Welcome to this video!  Thanks for watching!"
  {
    var c := "Welcome to this video!" + " " + [] + " " + "Thanks for watching!";
    assert c == "Welcome to this video!  Thanks for watching!";
    StripUnchanged(c);
  }

  /** Raw output in which no stripped line starts with a marker gives the
      default script, whose content is the default hook and call to action. */
  lemma NoHeadersGivesDefaults(raw: String)
    requires forall line, h: Header :: line in SplitOn(raw, "\n") ==> !StartsWith(Strip(line), Marker(h))
    ensures StructureScript(raw) ==
              Structured("Generated Video", "Welcome to this video!", None, "Thanks for watching!",
                         "AI generated content", ["ai", "automation", "tips"],
                         "Welcome to this video!  Thanks for watching!")
  {
    var lines := SplitOn(raw, "\n");
    var ks := Kinds(lines);
    forall k | 0 <= k < |ks| ensures !ks[k].HeaderLine? {
      assert lines[k] in lines;
      NoMarker(lines[k]);
    }
    NoHeadersKeepDefaults(ks);
    DefaultContent();
  }

  function CountChar(s: String, c: char): nat
    decreases |s|
  {
    if s == [] then 0 else (if s[0] == c then 1 else 0) + CountChar(s[1..], c)
  }

  lemma {:induction false} CountCharAppend(a: String, b: String, c: char)
    ensures CountChar(a + b, c) == CountChar(a, c) + CountChar(b, c)
    decreases |a|
  {
    if a != [] {
      assert (a + b)[0] == a[0];
      assert (a + b)[1..] == a[1..] + b;
      assert CountChar(a + b, c) == (if a[0] == c then 1 else 0) + CountChar(a[1..] + b, c);
      CountCharAppend(a[1..], b, c);
    } else {
      assert a + b == b;
    }
  }

  lemma {:induction false} CountCharAbsent(s: String, c: char)
    requires !Contains(s, [c])
    ensures CountChar(s, c) == 0
    decreases |s|
  {
    if s != [] {
      assert !OccursAt(s, [c], 0);
      assert s[0..1] == [s[0]];
      assert !Contains(s[1..], [c]) by {
        forall j | OccursAt(s[1..], [c], j) ensures OccursAt(s, [c], j + 1) {
          assert s[1..][j..j + 1] == s[j + 1..j + 2];
        }
      }
      CountCharAbsent(s[1..], c);
    }
  }

  /** Splitting on a one-character separator gives one piece more than
      there are separators. */
  lemma {:induction false} SplitCount(s: String, c: char)
    ensures |SplitOn(s, [c])| == CountChar(s, c) + 1
    decreases |s|
  {
    match Find(s, [c])
    case None =>
      CountCharAbsent(s, c);
    case Some(i) =>
      assert s == s[..i] + ([c] + s[i + 1..]);
      CountCharAppend(s[..i], [c] + s[i + 1..], c);
      assert ([c] + s[i + 1..])[1..] == s[i + 1..];
      assert !Contains(s[..i], [c]) by {
        forall j | OccursAt(s[..i], [c], j) ensures OccursAt(s, [c], j) && j < i {
          assert s[..i][j..j + 1] == s[j..j + 1];
        }
      }
      CountCharAbsent(s[..i], c);
      SplitCount(s[i + 1..], c);
  }

  /** The tag list has one tag more than the TAGS value has commas, each
      tag stripped. */
  lemma TagCount(v: String)
    ensures |TagList(v)| == CountChar(v, ',') + 1
    ensures forall k :: 0 <= k < |TagList(v)| ==> TagList(v)[k] == Strip(SplitOn(v, ",")[k])
  {
    assert [','] == ",";
    SplitCount(v, ',');
  }

  // ---------------------------------------------------------------------
  // Duration and context

  /** `int((word_count / 150) * 60)`: seconds at 150 spoken words a minute,
      truncated. */
  function EstimateDuration(content: String): (d: nat)
    ensures d * 150 <= |Words(content)| * 60 < d * 150 + 150
  {
    var w := |Words(content)|;
    DivUnique(w * 60, 150, (w * 60) / 150);
    (w * 60) / 150
  }

  /** The estimate only grows with the word count: 150 words make a minute
      and fewer than three words make zero seconds. */
  lemma DurationMonotone(a: String, b: String)
    requires |Words(a)| <= |Words(b)|
    ensures EstimateDuration(a) <= EstimateDuration(b)
    ensures |Words(a)| == 150 ==> EstimateDuration(a) == 60
    ensures |Words(a)| < 3 ==> EstimateDuration(a) == 0
  {
    DivMonotone(|Words(a)| * 60, |Words(b)| * 60, 150);
  }

  /** `context[:200] + "..." if context else None`. */
  function ContextUsed(context: String): (r: Option<String>)
    ensures r.None? <==> context == []
    ensures r.Some? ==> |r.value| == (if |context| < 200 then |context| else 200) + 3
    ensures r.Some? ==> r.value[..|r.value| - 3] == context[..|r.value| - 3]
    ensures r.Some? ==> r.value[|r.value| - 3..] == "..."
  {
    if context == [] then None
    else
      var n := if |context| < 200 then |context| else 200;
      Some(context[..n] + "...")
  }

  /** A context of at most 200 characters is kept whole. */
  lemma ShortContextKept(context: String)
    requires 0 < |context| <= 200
    ensures ContextUsed(context) == Some(context + "...")
  {
    var r := ContextUsed(context).value;
    assert r[..|context|] == context;
    assert r == r[..|context|] + r[|context|..];
  }

  // ---------------------------------------------------------------------
  // The script record

  /** The script record `generate_script` returns (creation time and the
      extracted main points are left out). */
  datatype ScriptRecord = ScriptRecord(
    topic: String, language: String, category: String, content: String,
    hook: String, cta: String, title: String, description: String,
    tags: seq<String>, voiceStyle: String, estimatedDuration: nat,
    contextUsed: Option<String>)

  /** `generate_script` with the retrieved context and the model's raw
      output as inputs. */
  function GenerateScript(topic: String, language: String, category: String, context: String, raw: String): (r: ScriptRecord)
    ensures r.voiceStyle == LanguageConfig(language).voiceStyle
    ensures r.content == StructureScript(raw).content
    ensures r.estimatedDuration * 150 <= |Words(r.content)| * 60 < r.estimatedDuration * 150 + 150
    ensures r.topic == topic && r.language == language && r.category == category
    ensures var s := StructureScript(raw);
            && r.title == s.title && r.hook == s.hook && r.cta == s.cta
            && r.description == s.description && r.tags == s.tags
    ensures r.contextUsed == ContextUsed(context)
    ensures r.contextUsed.None? <==> context == []
  {
    var s := StructureScript(raw);
    ScriptRecord(topic, language, category, s.content, s.hook, s.cta, s.title, s.description,
                 s.tags, LanguageConfig(language).voiceStyle, EstimateDuration(s.content), ContextUsed(context))
  }
}
