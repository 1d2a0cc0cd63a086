/** Render parameters of the video creator: the per-category style table,
    hex colour parsing with Python's `int(x, 16)`, the gradient that paints
    the stock backgrounds, the background and font choices (file existence
    is an input), and the ffmpeg video filter string. */
module Render {
  import opened Text
  import opened Arith
  import opened Subtitles

  // ---------------------------------------------------------------------
  // Category styles

  datatype Style = Style(colors: seq<String>, fontColor: String, backgroundType: String, animationStyle: String)

  /** The table of category styles. */
  function StyleEntry(category: String): Option<Style> {
    if category == "finance" then Some(Style(["#1a5f3f", "#2d8a5f", "#0a4d3a"], "#ffffff", "gradient", "slide"))
    else if category == "tech" then Some(Style(["#1e3a8a", "#3b82f6", "#1e40af"], "#ffffff", "particles", "fade"))
    else if category == "education" then Some(Style(["#7c2d12", "#ea580c", "#9a3412"], "#ffffff", "minimal", "zoom"))
    else if category == "lifestyle" then Some(Style(["#581c87", "#a855f7", "#7c3aed"], "#ffffff", "geometric", "slide"))
    else if category == "general" then Some(Style(["#374151", "#6b7280", "#4b5563"], "#ffffff", "gradient", "fade"))
    else None
  }

  /** `category_styles.get(category, category_styles['general'])`. */
  function CategoryStyle(category: String): (s: Style)
    ensures StyleEntry(category).Some? ==> s == StyleEntry(category).value
    ensures StyleEntry(category).None? ==> s == StyleEntry("general").value
    ensures |s.colors| == 3 && s.fontColor == "#ffffff"
  {
    match StyleEntry(category)
    case Some(st) => st
    case None => Style(["#374151", "#6b7280", "#4b5563"], "#ffffff", "gradient", "fade")
  }

  /** Exactly five categories have a style of their own; "entertainment",
      which the trend analyser may report, is drawn in the general style. */
  lemma StyleCategories(category: String)
    ensures StyleEntry(category).Some? <==> category in {"finance", "tech", "education", "lifestyle", "general"}
    ensures CategoryStyle("entertainment") == CategoryStyle("general")
  {
  }

  // ---------------------------------------------------------------------
  // Hex colours

  predicate IsHexDigit(c: char) {
    ('0' <= c <= '9') || ('a' <= c <= 'f') || ('A' <= c <= 'F')
  }

  function HexDigitValue(c: char): (v: nat)
    requires IsHexDigit(c)
    ensures v < 16
  {
    if '0' <= c <= '9' then c as int - '0' as int
    else if 'a' <= c <= 'f' then c as int - 'a' as int + 10
    else c as int - 'A' as int + 10
  }

  predicate AllHex(s: String) {
    forall i :: 0 <= i < |s| ==> IsHexDigit(s[i])
  }

  /** The value of a string of hex digits, most significant first. */
  function HexValue(s: String): nat
    requires AllHex(s)
    decreases |s|
  {
    if s == [] then 0 else HexValue(s[..|s| - 1]) * 16 + HexDigitValue(s[|s| - 1])
  }

  /** Python `int(s, 16)` on the at most two characters `_hex_to_rgb`
      passes it: surrounding whitespace is ignored, a sign is allowed, and
      anything else that is not a non-empty run of ASCII hex digits raises
      (`None`). */
  function PyHexInt(s: String): (r: Option<int>)
    ensures r.Some? && |s| <= 2 ==> -15 <= r.value <= 255
    ensures AllHex(s) && s != [] ==> r == Some(HexValue(s))
  {
    var t := Strip(s);
    if t == [] then None
    else
      var signed := t[0] == '+' || t[0] == '-';
      var digits := if signed then t[1..] else t;
      if digits == [] || !AllHex(digits) then None
      else
        assert |s| <= 2 ==> HexValue(digits) <= 255 && (signed ==> HexValue(digits) <= 15) by {
          if |s| <= 2 {
            HexValueBound(digits);
          }
        }
        assert AllHex(s) && s != [] ==> t == s && digits == s by {
          if AllHex(s) && s != [] {
            HexNotSpace(s);
          }
        }
        var v: int := HexValue(digits);
        Some(if t[0] == '-' then -v else v)
  }

  lemma HexValueBound(s: String)
    requires AllHex(s) && |s| <= 2
    ensures HexValue(s) <= 255 && (|s| <= 1 ==> HexValue(s) <= 15)
  {
    if |s| == 2 {
      HexValueTwo(s);
    } else if |s| == 1 {
      assert s[..0] == [];
    }
  }

  lemma HexValueTwo(s: String)
    requires AllHex(s) && |s| == 2
    ensures HexValue(s) == HexDigitValue(s[0]) * 16 + HexDigitValue(s[1])
  {
    var first := s[..1];
    assert first[..0] == [] && first[0] == s[0];
    assert HexValue(first) == HexDigitValue(s[0]);
  }

  /** A run of hex digits has no whitespace to strip. */
  lemma HexNotSpace(s: String)
    requires AllHex(s) && s != []
    ensures Strip(s) == s
  {
    assert NoSpace(s);
    var lo := StripIsSlice(s, |s| - 1);
    assert !IsSpace(s[0]);
    assert lo == 0;
    assert s[0..|s|] == s;
  }

  /** `s.lstrip(c)`: drops every leading `c`. */
  function LStripChar(s: String, c: char): (r: String)
    ensures |r| <= |s| && r == s[|s| - |r|..]
    ensures r == [] || r[0] != c
    decreases |s|
  {
    if s != [] && s[0] == c then LStripChar(s[1..], c) else s
  }

  /** Python slice `s[i:j]` for `0 <= i <= j`: out-of-range ends are
      clipped. */
  function PySlice(s: String, i: nat, j: nat): (r: String)
    requires i <= j
    ensures |r| <= j - i
    ensures j <= |s| ==> r == s[i..j]
  {
    if |s| <= i then [] else if |s| <= j then s[i..] else s[i..j]
  }

  datatype Rgb = Rgb(r: int, g: int, b: int)

  predicate IsByte(x: int) {
    0 <= x <= 255
  }

  predicate ValidRgb(c: Rgb) {
    IsByte(c.r) && IsByte(c.g) && IsByte(c.b)
  }

  /** `_hex_to_rgb`: strip the leading '#'s, then read the digits. */
  function HexToRgb(color: String): (r: Option<Rgb>)
    ensures r.Some? ==> |LStripChar(color, '#')| >= 5
    ensures r.Some? ==> -15 <= r.value.r <= 255 && -15 <= r.value.g <= 255 && -15 <= r.value.b <= 255
  {
    RgbOfDigits(LStripChar(color, '#'))
  }

  /** Characters 0-1, 2-3 and 4-5 read as hex numbers; `None` when any of
      the three reads raises, in particular when fewer than five characters
      are left. */
  function RgbOfDigits(h: String): (r: Option<Rgb>)
    ensures r.Some? ==> -15 <= r.value.r <= 255 && -15 <= r.value.g <= 255 && -15 <= r.value.b <= 255
    ensures |h| <= 4 ==> r.None?
  {
    Channels(PyHexInt(PySlice(h, 0, 2)), PyHexInt(PySlice(h, 2, 4)), PyHexInt(PySlice(h, 4, 6)))
  }

  /** The colour when all three reads succeeded. */
  function Channels(r: Option<int>, g: Option<int>, b: Option<int>): Option<Rgb> {
    if r.Some? && g.Some? && b.Some? then Some(Rgb(r.value, g.value, b.value)) else None
  }

  /** Six hex digits are read as three bytes. */
  lemma SixDigits(h: String)
    requires |h| >= 6 && AllHex(h[..6])
    ensures RgbOfDigits(h) == Some(Rgb(HexValue(h[0..2]), HexValue(h[2..4]), HexValue(h[4..6])))
    ensures ValidRgb(RgbOfDigits(h).value)
  {
    var r := HexPair(h, 0, 2);
    var g := HexPair(h, 2, 4);
    var b := HexPair(h, 4, 6);
    ReadChannels(h, r, g, b);
  }

  lemma ReadChannels(h: String, r: int, g: int, b: int)
    requires PyHexInt(PySlice(h, 0, 2)) == Some(r)
    requires PyHexInt(PySlice(h, 2, 4)) == Some(g)
    requires PyHexInt(PySlice(h, 4, 6)) == Some(b)
    ensures RgbOfDigits(h) == Some(Rgb(r, g, b))
  {
  }

  /** Two hex digits at `i` are read as a byte. */
  lemma HexPair(h: String, i: nat, j: nat) returns (v: int)
    requires j == i + 2 <= 6 <= |h| && AllHex(h[..6])
    ensures AllHex(h[i..j]) && v == HexValue(h[i..j]) && IsByte(v)
    ensures PyHexInt(PySlice(h, i, j)) == Some(v)
  {
    v := HexValue(h[i..j]);
    assert h[i..i + 2] == [h[..6][i], h[..6][i + 1]];
    HexValueBound(h[i..i + 2]);
  }

  /** The lower-case hex digit for a value below 16. */
  function HexDigitOf(d: nat): (c: char)
    requires d < 16
    ensures IsHexDigit(c) && HexDigitValue(c) == d
  {
    if d < 10 then ('0' as int + d) as char else ('a' as int + d - 10) as char
  }

  /** Two lower-case hex digits for a byte. */
  function ByteToHex(x: int): (s: String)
    requires IsByte(x)
    ensures |s| == 2 && AllHex(s)
  {
    [HexDigitOf(x / 16), HexDigitOf(x % 16)]
  }

  /** The `#rrggbb` notation of a colour. */
  function RgbToHex(c: Rgb): (s: String)
    requires ValidRgb(c)
    ensures |s| == 7 && s[0] == '#'
  {
    "#" + (ByteToHex(c.r) + ByteToHex(c.g) + ByteToHex(c.b))
  }

  lemma ByteToHexValue(x: int)
    requires IsByte(x)
    ensures HexValue(ByteToHex(x)) == x
  {
    HexValueTwo(ByteToHex(x));
  }

  /** Writing a colour as `#rrggbb` and reading it back gives the colour. */
  lemma HexRoundTrip(c: Rgb)
    requires ValidRgb(c)
    ensures HexToRgb(RgbToHex(c)) == Some(c)
  {
    var h := ByteToHex(c.r) + ByteToHex(c.g) + ByteToHex(c.b);
    assert LStripChar("#" + h, '#') == LStripChar(h, '#') by {
      assert ("#" + h)[1..] == h;
    }
    assert LStripChar(h, '#') == h;
    assert h[..6] == h;
    assert h[0..2] == ByteToHex(c.r) && h[2..4] == ByteToHex(c.g) && h[4..6] == ByteToHex(c.b);
    SixDigits(h);
    ByteToHexValue(c.r);
    ByteToHexValue(c.g);
    ByteToHexValue(c.b);
  }

  // ---------------------------------------------------------------------
  // Gradient backgrounds

  /** One channel of row `y` of a gradient of `height` rows:
      `int(c1 + (c2 - c1) * y / height)`, computed exactly and truncated
      toward zero. */
  function GradientChannel(c1: int, c2: int, y: nat, height: nat): (v: int)
    requires height > 0
    ensures y <= height && c1 <= c2 ==> c1 <= v <= c2
    ensures y <= height && c2 <= c1 ==> c2 <= v <= c1
    ensures y == 0 ==> v == c1
  {
    var a := c1 * height + (c2 - c1) * y;
    ChannelBetween(c1, c2, y, height);
    if y == 0 then TruncDivExact(c1, height); TruncDiv(a, height) else TruncDiv(a, height)
  }

  /** The truncated quotient of the gradient numerator lies between the end
      channels. */
  lemma ChannelBetween(c1: int, c2: int, y: nat, height: nat)
    requires height > 0
    ensures var a := c1 * height + (c2 - c1) * y;
            && (y <= height && c1 <= c2 ==> c1 <= TruncDiv(a, height) <= c2)
            && (y <= height && c2 <= c1 ==> c2 <= TruncDiv(a, height) <= c1)
  {
    var a := c1 * height + (c2 - c1) * y;
    if y <= height {
      if c1 <= c2 {
        NumeratorBetween(c1, c2, y, height);
        TruncDivBetween(c1, c2, a, height);
      }
      if c2 <= c1 {
        NumeratorBetween(c2, c1, height - y, height);
        assert a == c2 * height + (c1 - c2) * (height - y);
        TruncDivBetween(c2, c1, a, height);
      }
    }
  }

  /** Every row of the gradient lies between the two end colours, and the
      first row is the first colour. */
  lemma GradientBetween(c1: int, c2: int, y: nat, height: nat)
    requires 0 < height && y <= height
    ensures var v := GradientChannel(c1, c2, y, height);
            (c1 <= c2 ==> c1 <= v <= c2) && (c2 <= c1 ==> c2 <= v <= c1)
    ensures y == 0 ==> GradientChannel(c1, c2, y, height) == c1
  {
  }

  lemma NumeratorBetween(lo: int, hi: int, y: nat, height: nat)
    requires lo <= hi && y <= height
    ensures lo * height <= lo * height + (hi - lo) * y <= hi * height
  {
    var d := hi - lo;
    MulMono(0, y, d);
    MulMono(y, height, d);
    assert (hi - lo) * y == y * d;
    assert hi * height == lo * height + height * d;
  }

  function GradientRow(a: Rgb, b: Rgb, y: nat, height: nat): Rgb
    requires height > 0
  {
    Rgb(GradientChannel(a.r, b.r, y, height), GradientChannel(a.g, b.g, y, height), GradientChannel(a.b, b.b, y, height))
  }

  /** What `_create_gradient_background` paints: one colour is a solid fill
      (drawn by the imaging library, which reads the colour itself); two or
      more give one row colour per line, from the first two colours. A
      colour `_hex_to_rgb` cannot read, or a missing colour, raises inside
      the loop and leaves no image (`Failed`). */
  datatype Fill = Solid(color: String) | Rows(rows: seq<Rgb>) | Failed

  function GradientFill(colors: seq<String>, height: nat): (f: Fill)
    ensures |colors| == 1 <==> f.Solid?
    ensures f.Rows? ==> |f.rows| == height
  {
    if |colors| == 1 then Solid(colors[0])
    else if height == 0 then Rows([])
    else if |colors| < 2 then Failed
    else
      var a := HexToRgb(colors[0]);
      var b := HexToRgb(colors[1]);
      if a.Some? && b.Some? then Rows(GradientRows(a.value, b.value, height)) else Failed
  }

  function GradientRows(a: Rgb, b: Rgb, height: nat): (rows: seq<Rgb>)
    requires height > 0
    ensures |rows| == height
  {
    seq(height, y requires 0 <= y < height => GradientRow(a, b, y, height))
  }

  /** The painted gradient starts with the first colour and every channel of
      every row stays between the channels of the two end colours. */
  lemma GradientFillRows(colors: seq<String>, height: nat, y: nat)
    requires GradientFill(colors, height).Rows? && y < height
    ensures |colors| >= 2 && HexToRgb(colors[0]).Some? && HexToRgb(colors[1]).Some?
    ensures var a := HexToRgb(colors[0]).value;
            var b := HexToRgb(colors[1]).value;
            var row := GradientFill(colors, height).rows[y];
            && (y == 0 ==> row == a)
            && Between(row.r, a.r, b.r) && Between(row.g, a.g, b.g) && Between(row.b, a.b, b.b)
  {
    var a := HexToRgb(colors[0]).value;
    var b := HexToRgb(colors[1]).value;
    var row := GradientFill(colors, height).rows[y];
    assert GradientFill(colors, height).rows == GradientRows(a, b, height);
    assert row == GradientRow(a, b, y, height);
    RowBetween(a, b, y, height);
  }

  lemma RowBetween(a: Rgb, b: Rgb, y: nat, height: nat)
    requires y < height
    ensures var row := GradientRow(a, b, y, height);
            && (y == 0 ==> row == a)
            && Between(row.r, a.r, b.r) && Between(row.g, a.g, b.g) && Between(row.b, a.b, b.b)
  {
    GradientBetween(a.r, b.r, y, height);
    GradientBetween(a.g, b.g, y, height);
    GradientBetween(a.b, b.b, y, height);
  }

  predicate Between(v: int, x: int, y: int) {
    (x <= y ==> x <= v <= y) && (y <= x ==> y <= v <= x)
  }

  // ---------------------------------------------------------------------
  // Backgrounds

  const BackgroundsDir: String := "templates/video_backgrounds"

  /** The stock backgrounds painted when the assets are prepared. */
  datatype StockBackground = StockBackground(name: String, colors: seq<String>)

  const StockBackgrounds: seq<StockBackground> := [
    StockBackground("gradient_blue", ["#1e3a8a", "#3b82f6"]),
    StockBackground("gradient_green", ["#1a5f3f", "#2d8a5f"]),
    StockBackground("gradient_purple", ["#581c87", "#a855f7"]),
    StockBackground("gradient_orange", ["#7c2d12", "#ea580c"]),
    StockBackground("solid_dark", ["#1f2937"])
  ]

  /** The background image file chosen for a category. */
  function BackgroundName(category: String): String {
    if category == "finance" then "gradient_green.png"
    else if category == "tech" then "gradient_blue.png"
    else if category == "education" then "gradient_orange.png"
    else if category == "lifestyle" then "gradient_purple.png"
    else "solid_dark.png"
  }

  /** The stock background a category is drawn on is painted in the first
      two colours of the category's style, and every other category gets the
      solid dark background. */
  lemma BackgroundMatchesStyle(category: String)
    ensures category in {"finance", "tech", "education", "lifestyle"} ==>
              exists k :: 0 <= k < |StockBackgrounds| &&
                StockBackgrounds[k].name + ".png" == BackgroundName(category) &&
                StockBackgrounds[k].colors == CategoryStyle(category).colors[..2]
    ensures category !in {"finance", "tech", "education", "lifestyle"} ==>
              BackgroundName(category) == StockBackgrounds[4].name + ".png"
  {
    if category == "finance" {
      assert StockBackgrounds[1].name + ".png" == BackgroundName(category);
    } else if category == "tech" {
      assert StockBackgrounds[0].name + ".png" == BackgroundName(category);
    } else if category == "education" {
      assert StockBackgrounds[3].name + ".png" == BackgroundName(category);
    } else if category == "lifestyle" {
      assert StockBackgrounds[2].name + ".png" == BackgroundName(category);
    }
  }

  /** Outcome of asking the file system whether the chosen background
      exists: it may also raise. */
  datatype FileCheck = Exists | Missing | CheckRaises

  /** `_select_background`: the chosen file if it exists, otherwise the
      fallback dark image (painting it never raises, its errors are only
      logged), and "" when the check itself raises. */
  function SelectBackground(category: String, check: FileCheck): (path: String)
    ensures check.Exists? ==> path == BackgroundsDir + "/" + BackgroundName(category)
    ensures check.Missing? ==> path == BackgroundsDir + "/fallback_dark.png"
    ensures path == [] <==> check.CheckRaises?
  {
    match check
    case Exists => BackgroundsDir + "/" + BackgroundName(category)
    case Missing => BackgroundsDir + "/fallback_dark.png"
    case CheckRaises => ""
  }

  // ---------------------------------------------------------------------
  // Fonts

  const FontsDir: String := "templates/fonts"
  const PreferredFonts: seq<String> := ["Montserrat-Bold.ttf", "Roboto-Bold.ttf", "OpenSans-Bold.ttf"]
  const SystemFont: String := "/System/Library/Fonts/Helvetica.ttc"

  /** `fonts[k]` is present and no font before it is. */
  predicate FirstPresentAt(fonts: seq<String>, present: set<String>, k: int) {
    0 <= k < |fonts| && fonts[k] in present && forall j :: 0 <= j < k ==> fonts[j] !in present
  }

  /** `_select_font`: the first preferred font present in the fonts
      directory (`present` holds the file names there), else the system
      font. */
  function SelectFont(present: set<String>): (path: String)
    ensures path == SystemFont <==> forall k :: 0 <= k < |PreferredFonts| ==> PreferredFonts[k] !in present
    ensures path != SystemFont ==>
              exists k :: FirstPresentAt(PreferredFonts, present, k) && path == FontsDir + "/" + PreferredFonts[k]
  {
    FirstPresent(PreferredFonts, present)
  }

  /** The first of `fonts` that is present, as a path in the fonts
      directory. */
  function FirstPresent(fonts: seq<String>, present: set<String>): (path: String)
    ensures path == SystemFont <==> forall k :: 0 <= k < |fonts| ==> fonts[k] !in present
    ensures path != SystemFont ==>
              exists k :: FirstPresentAt(fonts, present, k) && path == FontsDir + "/" + fonts[k]
    decreases |fonts|
  {
    if fonts == [] then SystemFont
    else if fonts[0] in present then
      assert (FontsDir + "/" + fonts[0])[1] != SystemFont[1];
      assert FirstPresentAt(fonts, present, 0);
      FontsDir + "/" + fonts[0]
    else
      var p := FirstPresent(fonts[1..], present);
      assert p != SystemFont ==> exists k :: FirstPresentAt(fonts, present, k) && p == FontsDir + "/" + fonts[k] by {
        if p != SystemFont {
          var k :| FirstPresentAt(fonts[1..], present, k) && p == FontsDir + "/" + fonts[1..][k];
          assert FirstPresentAt(fonts, present, k + 1);
        }
      }
      p
  }

  // ---------------------------------------------------------------------
  // Paths

  /** Index of the last occurrence of `c` in `s`. */
  function LastIndexOf(s: String, c: char): (r: Option<nat>)
    ensures r.Some? ==> r.value < |s| && s[r.value] == c && forall i :: r.value < i < |s| ==> s[i] != c
    ensures r.None? ==> forall i :: 0 <= i < |s| ==> s[i] != c
    decreases |s|
  {
    if s == [] then None
    else if s[|s| - 1] == c then Some(|s| - 1)
    else LastIndexOf(s[..|s| - 1], c)
  }

  /** `Path(p).name`: the text after the last '/'. The two differ on a path
      ending in '/' or in a "." component, which the font paths never do. */
  function FileName(p: String): (r: String)
    ensures forall i :: 0 <= i < |r| ==> r[i] != '/'
    ensures |r| <= |p| && r == p[|p| - |r|..]
  {
    match LastIndexOf(p, '/')
    case None => p
    case Some(i) => p[i + 1..]
  }

  /** `Path(p).stem`: the name without its last suffix; a leading or
      trailing '.' does not start a suffix. */
  function Stem(p: String): String {
    NameStem(FileName(p))
  }

  function NameStem(name: String): (r: String)
    ensures |r| <= |name| && r == name[..|r|]
  {
    match LastIndexOf(name, '.')
    case Some(i) => if 0 < i < |name| - 1 then name[..i] else name
    case None => name
  }

  /** The stem of `dir + base + "." + ext`, for a directory ending in '/',
      a non-empty base without '/' and an extension without '.' or '/'. */
  lemma StemOf(dir: String, base: String, ext: String)
    requires dir != [] && dir[|dir| - 1] == '/'
    requires base != [] && ext != []
    requires forall i :: 0 <= i < |base| ==> base[i] != '/'
    requires forall i :: 0 <= i < |ext| ==> ext[i] != '/' && ext[i] != '.'
    ensures Stem(dir + (base + "." + ext)) == base
  {
    var name := base + "." + ext;
    FileNameOf(dir, name);
    NameStemOf(base, ext);
  }

  lemma FileNameOf(dir: String, name: String)
    requires dir != [] && dir[|dir| - 1] == '/'
    requires forall i :: 0 <= i < |name| ==> name[i] != '/'
    ensures FileName(dir + name) == name
  {
    LastIndexAfter(dir, name, '/');
    assert (dir + name)[|dir|..] == name;
  }

  lemma NameStemOf(base: String, ext: String)
    requires base != [] && ext != []
    requires forall i :: 0 <= i < |ext| ==> ext[i] != '.'
    ensures NameStem(base + "." + ext) == base
  {
    LastIndexAfter(base + ".", ext, '.');
    assert (base + "." + ext)[..|base|] == base;
  }

  /** When the last part has no `c`, the last `c` is the one before it. */
  lemma {:induction false} LastIndexAfter(a: String, b: String, c: char)
    requires a != [] && a[|a| - 1] == c && forall i :: 0 <= i < |b| ==> b[i] != c
    ensures LastIndexOf(a + b, c) == Some(|a| - 1)
    decreases |b|
  {
    if b != [] {
      assert (a + b)[..|a + b| - 1] == a + b[..|b| - 1];
      LastIndexAfter(a, b[..|b| - 1], c);
    } else {
      assert a + b == a;
    }
  }

  // ---------------------------------------------------------------------
  // The video filter

  /** `str.upper()` restricted to ASCII: other letters are kept as they
      are. */
  function Upper(s: String): (r: String)
    ensures |r| == |s|
  {
    seq(|s|, i requires 0 <= i < |s| => if 'a' <= s[i] <= 'z' then (s[i] as int - 32) as char else s[i])
  }

  const ScaleFilter: String := "scale=1080:1920"

  /** The subtitle clause of the filter: file, font family, size, colour
      (without '#', upper-cased), bottom-centred with a 150 pixel margin. */
  function SubtitleClause(subtitlePath: String, fontPath: String, style: Style, lang: String): String {
    "subtitles='" + subtitlePath + "':force_style='FontName=" + Stem(fontPath)
      + ",FontSize=" + NatToString(SubtitleSettingsFor(lang).fontSize)
      + ",PrimaryColour=&H" + Upper(LStripChar(style.fontColor, '#'))
      + ",Alignment=2,MarginV=150'"
  }

  /** `_create_video_filter`: the scaling step, then the subtitle clause
      after a ',' when a subtitle file was written and still exists. */
  function VideoFilter(subtitlePath: String, subtitleExists: bool, fontPath: String, style: Style, lang: String): (f: String)
    ensures StartsWith(f, ScaleFilter)
    ensures f == ScaleFilter <==> subtitlePath == [] || !subtitleExists
    ensures subtitlePath != [] && subtitleExists ==>
              f[|ScaleFilter|..] == "," + SubtitleClause(subtitlePath, fontPath, style, lang)
  {
    if subtitlePath != [] && subtitleExists then
      var clause := SubtitleClause(subtitlePath, fontPath, style, lang);
      JoinTwo(ScaleFilter, clause);
      Join([ScaleFilter, clause], ",")
    else
      Join([ScaleFilter], ",")
  }

  lemma JoinTwo(a: String, b: String)
    ensures var f := Join([a, b], ",");
            && |f| > |a| && f[..|a|] == a && f[|a|..] == "," + b
  {
    assert [a, b][1..] == [b];
    assert Join([a, b], ",") == a + "," + b;
  }

  /** The colour written into the subtitle style is the style's font colour
      in upper case, its digits kept in RRGGBB order although the subtitle
      style reads `&H` colours as BBGGRR; a non-grey colour would come out
      with red and blue swapped. For the white every style uses, "FFFFFF",
      the two orders agree. */
  lemma FilterColour(category: String)
    ensures var style := CategoryStyle(category);
            && Upper(LStripChar(style.fontColor, '#')) == "FFFFFF"
            && HexToRgb("FFFFFF") == HexToRgb(style.fontColor) == Some(Rgb(255, 255, 255))
  {
    assert CategoryStyle(category).fontColor == "#ffffff";
    WhiteText();
    WhiteColour();
  }

  /** The '#ffffff' font colour is written as 'FFFFFF' in the filter. */
  lemma WhiteText()
    ensures LStripChar("#ffffff", '#') == "ffffff"
    ensures LStripChar("FFFFFF", '#') == "FFFFFF"
    ensures Upper("ffffff") == "FFFFFF"
  {
    LStripWhite();
    LStripUpperWhite();
    UpperWhite();
  }

  lemma LStripWhite()
    ensures LStripChar("#ffffff", '#') == "ffffff"
  {
    var s: String := "#ffffff";
    assert s[0] == '#' && s[1..] == "ffffff";
    assert LStripChar("ffffff", '#') == "ffffff";
  }

  lemma LStripUpperWhite()
    ensures LStripChar("FFFFFF", '#') == "FFFFFF"
  {
  }

  lemma UpperWhite()
    ensures Upper("ffffff") == "FFFFFF"
  {
  }

  /** Both spellings of white read as the colour (255, 255, 255). */
  lemma WhiteColour()
    ensures HexToRgb("FFFFFF") == HexToRgb("#ffffff") == Some(Rgb(255, 255, 255))
  {
    WhiteText();
    White("FFFFFF", 'F');
    White("ffffff", 'f');
  }

  lemma White(h: String, f: char)
    requires f == 'f' || f == 'F'
    requires h == [f, f, f, f, f, f]
    ensures RgbOfDigits(h) == Some(Rgb(255, 255, 255))
  {
    var ff := [f, f];
    assert h[0..2] == ff && h[2..4] == ff && h[4..6] == ff;
    assert HexDigitValue(f) == 15;
    HexValueTwo(ff);
    assert HexValue(ff) == 255;
    assert AllHex(h[..6]);
    SixDigits(h);
  }

  /** A language without subtitle settings of its own gets exactly the
      filter English gets, and so English's font size. */
  lemma FilterFontSize(subtitlePath: String, subtitleExists: bool, fontPath: String, style: Style, lang: String)
    requires lang !in {"en", "de", "ko", "zh"}
    ensures VideoFilter(subtitlePath, subtitleExists, fontPath, style, lang)
            == VideoFilter(subtitlePath, subtitleExists, fontPath, style, "en")
  {
    SubtitleLanguages(lang);
  }
}
