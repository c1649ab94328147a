/** The screenshot colour check: keep the coloured pixels of an image, count for each palette
    colour the pixels whose first close palette entry it is, collect the pixels close to none
    of them, and turn the "found" flags of a brand palette and of a wrong palette into a
    verdict. */
module ScreenshotColors {
  import opened Wrappers
  import opened ColorCodes

  /** A pixel matches a palette colour when their distance is below this. */
  const Tolerance := 30
  /** A palette colour is reported as found when more pixels than this match it. */
  const FoundThreshold := 100

  /** One entry of a palette dictionary: its name and its `#rrggbb` text. */
  datatype Swatch = Swatch(name: string, hex: string)

  /** What the analysis reports for one palette colour. */
  datatype ColorResult = ColorResult(name: string, expectedHex: string, pixelCount: nat, found: bool)

  /** The per-colour results, which the source returns, together with the number of coloured
      pixels and the unexpected pixels, which it only prints. */
  datatype Analysis = Analysis(results: seq<ColorResult>, coloredCount: nat, unexpected: seq<Rgb>)

  /** The filter of the coloured-pixel list: not near-white, not near-black, not grey. */
  predicate IsColored(p: Rgb) {
    !((p.r > 240 && p.g > 240 && p.b > 240) || (p.r < 15 && p.g < 15 && p.b < 15) || IsNeutral(p, 20))
  }

  /** The near-white and near-black clauses never decide anything: such pixels are grey. */
  lemma ColoredIffNotNeutral(p: Rgb)
    ensures IsColored(p) <==> !IsNeutral(p, 20)
  {
  }

  /** The coloured pixels, in image order. */
  function Colored(pixels: seq<Rgb>): (c: seq<Rgb>)
    ensures |c| <= |pixels|
    ensures forall p :: p in c <==> p in pixels && IsColored(p)
    ensures forall p :: multiset(c)[p] == if IsColored(p) then multiset(pixels)[p] else 0
  {
    if pixels == [] then []
    else
      var init := pixels[..|pixels| - 1];
      var last := pixels[|pixels| - 1];
      assert pixels == init + [last];
      Colored(init) + (if IsColored(last) then [last] else [])
  }

  /** The filter keeps image order: a pixel is kept or dropped on its own, and the kept
      pixels of two stretches of the image follow one another. */
  lemma {:induction false} ColoredConcat(a: seq<Rgb>, b: seq<Rgb>)
    ensures Colored(a + b) == Colored(a) + Colored(b)
    ensures |b| == 1 ==> Colored(b) == if IsColored(b[0]) then b else []
  {
    if b == [] {
      AppendEmpty(a);
    } else {
      var init, x := b[..|b| - 1], b[|b| - 1];
      var kept := if IsColored(x) then [x] else [];
      SplitLast(a, b);
      ColoredConcat(a, init);
      ColoredSnoc(a + init, x);
      ColoredSnoc(init, x);
      AppendAssoc(Colored(a), Colored(init), kept);
      if |b| == 1 {
        ColoredSnoc([], x);
      }
    }
  }

  lemma AppendEmpty<T>(a: seq<T>)
    ensures a + [] == a
  {
  }

  lemma SplitLast<T>(a: seq<T>, b: seq<T>)
    requires b != []
    ensures b == b[..|b| - 1] + [b[|b| - 1]]
    ensures a + b == (a + b[..|b| - 1]) + [b[|b| - 1]]
  {
  }

  lemma AppendAssoc<T>(x: seq<T>, y: seq<T>, z: seq<T>)
    ensures x + (y + z) == (x + y) + z
  {
  }

  lemma ColoredSnoc(s: seq<Rgb>, x: Rgb)
    ensures Colored(s + [x]) == Colored(s) + if IsColored(x) then [x] else []
  {
    var sx := s + [x];
    assert sx[..|sx| - 1] == s;
  }



  /** The index of the first palette colour within the tolerance of `p`: the palette is scanned
      in order and the scan stops at the first match. */
  function FirstMatch(p: Rgb, targets: seq<Rgb>): (m: Option<nat>)
    ensures m.Some? ==> (m.value < |targets| && Within(p, targets[m.value], Tolerance)
      && forall j :: 0 <= j < m.value ==> !Within(p, targets[j], Tolerance))
    ensures m.None? ==> forall j :: 0 <= j < |targets| ==> !Within(p, targets[j], Tolerance)
  {
    if targets == [] then None
    else if Within(p, targets[0], Tolerance) then Some(0)
    else match FirstMatch(p, targets[1..])
      case None => None
      case Some(k) => Some(k + 1)
  }

  /** The pixels of `colored` counted for palette colour `k`. */
  function MatchedBy(colored: seq<Rgb>, targets: seq<Rgb>, k: nat): (m: seq<Rgb>)
    ensures |m| <= |colored|
  {
    if colored == [] then []
    else
      var init := colored[..|colored| - 1];
      var last := colored[|colored| - 1];
      assert colored == init + [last];
      MatchedBy(init, targets, k) + (if FirstMatch(last, targets) == Some(k) then [last] else [])
  }

  /** Each pixel is counted for palette colour `k` as often as it occurs in `colored` when its
      first match is `k`, and never otherwise. */
  lemma {:induction false} MatchedByCounts(colored: seq<Rgb>, targets: seq<Rgb>, k: nat)
    ensures forall p :: multiset(MatchedBy(colored, targets, k))[p]
                        == if FirstMatch(p, targets) == Some(k) then multiset(colored)[p] else 0
  {
    if colored != [] {
      var init := colored[..|colored| - 1];
      var last := colored[|colored| - 1];
      assert colored == init + [last];
      MatchedByCounts(init, targets, k);
      assert MatchedBy(colored, targets, k) ==
        MatchedBy(init, targets, k) + (if FirstMatch(last, targets) == Some(k) then [last] else []);
    }
  }

  /** The pixels of `colored` within the tolerance of no palette colour. */
  function Unmatched(colored: seq<Rgb>, targets: seq<Rgb>): (u: seq<Rgb>)
    ensures forall p :: p in u <==> p in colored && forall j :: 0 <= j < |targets| ==> !Within(p, targets[j], Tolerance)
    ensures forall p :: multiset(u)[p] == if FirstMatch(p, targets).None? then multiset(colored)[p] else 0
  {
    if colored == [] then []
    else
      var init := colored[..|colored| - 1];
      var last := colored[|colored| - 1];
      assert colored == init + [last];
      Unmatched(init, targets) + (if FirstMatch(last, targets).None? then [last] else [])
  }

  /** `parse` applied to every element, or `None` as soon as one of them fails, as a
      comprehension does when its element expression raises. */
  function ParseAll<A, B>(xs: seq<A>, parse: A -> Option<B>): (r: Option<seq<B>>)
    ensures r.Some? ==> (|r.value| == |xs|
      && forall k :: 0 <= k < |xs| ==> parse(xs[k]) == Some(r.value[k]))
    ensures r.None? ==> exists k :: 0 <= k < |xs| && parse(xs[k]).None?
  {
    if xs == [] then Some([])
    else
      var n := |xs| - 1;
      var prefix := xs[..n];
      assert forall k :: 0 <= k < n ==> prefix[k] == xs[k];
      match ParseAll(prefix, parse)
      case None => None
      case Some(init) =>
        match parse(xs[n])
        case None => None
        case Some(c) => Some(init + [c])
  }

  /** The expected colours converted with `hex_to_rgb`; `None` if one of them raises. */
  function ParsePalette(palette: seq<Swatch>): Option<seq<Rgb>> {
    ParseAll(palette, (sw: Swatch) => HexToRgb(sw.hex))
  }

  /** The per-colour results, in palette order. */
  function Results(palette: seq<Swatch>, colored: seq<Rgb>, targets: seq<Rgb>): (rs: seq<ColorResult>)
    requires |targets| == |palette|
    ensures |rs| == |palette|
    ensures forall k :: 0 <= k < |palette| ==>
      rs[k].name == palette[k].name && rs[k].expectedHex == palette[k].hex
      && rs[k].pixelCount == |MatchedBy(colored, targets, k)| && (rs[k].found <==> rs[k].pixelCount > FoundThreshold)
  {
    seq(|palette|, k requires 0 <= k < |palette| =>
      var n := |MatchedBy(colored, targets, k)|;
      ColorResult(palette[k].name, palette[k].hex, n, n > FoundThreshold))
  }

  /** `analyze_screenshot` on the pixels of an image. The source catches every exception and
      returns `None`: an image without pixels divides by zero, and a palette entry that is not
      hex text makes `hex_to_rgb` raise. */
  function Analyze(pixels: seq<Rgb>, palette: seq<Swatch>): (a: Option<Analysis>)
    ensures a.None? <==> |pixels| == 0 || exists k :: 0 <= k < |palette| && HexToRgb(palette[k].hex).None?
    ensures a.Some? ==> (|a.value.results| == |palette|
      && forall k :: 0 <= k < |palette| ==> (a.value.results[k].name == palette[k].name
        && (a.value.results[k].found <==> a.value.results[k].pixelCount > FoundThreshold)))
  {
    if |pixels| == 0 then None
    else match ParsePalette(palette)
      case None => None
      case Some(targets) =>
        var colored := Colored(pixels);
        Some(Analysis(Results(palette, colored, targets), |colored|, Unmatched(colored, targets)))
  }

  /** `analyze_screenshot`: the coloured pixels, then the matching pass, the pass that collects
      the unexpected pixels, and the results in palette order. */
  method AnalyzeScreenshot(pixels: seq<Rgb>, palette: seq<Swatch>) returns (a: Option<Analysis>)
    ensures a == Analyze(pixels, palette)
  {
    if |pixels| == 0 {
      return None;
    }
    var parsed := ParsePalette(palette);
    if parsed.None? {
      return None;
    }
    var targets := parsed.value;
    var colored := Colored(pixels);
    var matches := MatchPixels(colored, targets);
    var unexpected := UnexpectedPixels(colored, targets);
    var results := BuildResults(palette, colored, targets, matches);
    a := Some(Analysis(results, |colored|, unexpected));
  }

  /** The matching pass: each coloured pixel is appended to the list of the first palette colour
      within the tolerance, and the scan of the palette stops there. */
  method MatchPixels(colored: seq<Rgb>, targets: seq<Rgb>) returns (matches: seq<seq<Rgb>>)
    ensures |matches| == |targets|
    ensures forall k :: 0 <= k < |targets| ==> matches[k] == MatchedBy(colored, targets, k)
  {
    matches := seq(|targets|, _ => []);
    var i := 0;
    while i < |colored|
      invariant 0 <= i <= |colored|
      invariant |matches| == |targets|
      invariant forall k :: 0 <= k < |targets| ==> matches[k] == MatchedBy(colored[..i], targets, k)
    {
      var pixel := colored[i];
      assert colored[..i + 1][..i] == colored[..i];
      var j := 0;
      while j < |targets|
        invariant 0 <= j <= |targets|
        invariant forall j' :: 0 <= j' < j ==> !Within(pixel, targets[j'], Tolerance)
      {
        if Within(pixel, targets[j], Tolerance) {
          FirstMatchIs(pixel, targets, j);
          matches := matches[j := matches[j] + [pixel]];
          break;
        }
        j := j + 1;
      }
      i := i + 1;
    }
    assert colored[..i] == colored;
  }

  /** The second pass: a pixel is unexpected when no palette colour is within the tolerance. */
  method UnexpectedPixels(colored: seq<Rgb>, targets: seq<Rgb>) returns (unexpected: seq<Rgb>)
    ensures unexpected == Unmatched(colored, targets)
  {
    unexpected := [];
    var i := 0;
    while i < |colored|
      invariant 0 <= i <= |colored|
      invariant unexpected == Unmatched(colored[..i], targets)
    {
      var pixel := colored[i];
      assert colored[..i + 1][..i] == colored[..i];
      var isExpected := false;
      var j := 0;
      while j < |targets|
        invariant 0 <= j <= |targets|
        invariant !isExpected
        invariant forall j' :: 0 <= j' < j ==> !Within(pixel, targets[j'], Tolerance)
      {
        if Within(pixel, targets[j], Tolerance) {
          isExpected := true;
          break;
        }
        j := j + 1;
      }
      assert isExpected <==> FirstMatch(pixel, targets).Some?;
      if !isExpected {
        unexpected := unexpected + [pixel];
      }
      i := i + 1;
    }
    assert colored[..i] == colored;
  }

  /** The results loop: one entry per palette colour, found when more than 100 pixels match. */
  method BuildResults(palette: seq<Swatch>, colored: seq<Rgb>, targets: seq<Rgb>, matches: seq<seq<Rgb>>)
    returns (results: seq<ColorResult>)
    requires |targets| == |palette| && |matches| == |targets|
    requires forall k :: 0 <= k < |targets| ==> matches[k] == MatchedBy(colored, targets, k)
    ensures results == Results(palette, colored, targets)
  {
    results := [];
    var k := 0;
    while k < |palette|
      invariant 0 <= k <= |palette|
      invariant results == Results(palette, colored, targets)[..k]
    {
      var count := |matches[k]|;
      results := results + [ColorResult(palette[k].name, palette[k].hex, count, count > FoundThreshold)];
      k := k + 1;
    }
  }

  lemma FirstMatchIs(p: Rgb, targets: seq<Rgb>, j: nat)
    requires j < |targets| && Within(p, targets[j], Tolerance)
    requires forall j' :: 0 <= j' < j ==> !Within(p, targets[j'], Tolerance)
    ensures FirstMatch(p, targets) == Some(j)
  {
  }

  /** How many pixels of `colored` the first `n` palette colours take together. */
  function MatchedTotal(colored: seq<Rgb>, targets: seq<Rgb>, n: nat): nat {
    if n == 0 then 0 else MatchedTotal(colored, targets, n - 1) + |MatchedBy(colored, targets, n - 1)|
  }

  lemma {:induction false} MatchedTotalStep(s: seq<Rgb>, p: Rgb, targets: seq<Rgb>, n: nat)
    ensures MatchedTotal(s + [p], targets, n) == MatchedTotal(s, targets, n) + if Hit(FirstMatch(p, targets), n) then 1 else 0
  {
    if n > 0 {
      MatchedTotalStep(s, p, targets, n - 1);
      MatchedByStep(s, p, targets, n - 1);
      HitStep(FirstMatch(p, targets), n);
    }
  }

  /** `m` names one of the first `n` palette colours. */
  predicate Hit(m: Option<nat>, n: nat) {
    m.Some? && m.value < n
  }

  lemma HitStep(m: Option<nat>, n: nat)
    requires n > 0
    ensures Hit(m, n) == (Hit(m, n - 1) || m == Some(n - 1))
    ensures !(Hit(m, n - 1) && m == Some(n - 1))
  {
  }

  lemma MatchedByStep(s: seq<Rgb>, p: Rgb, targets: seq<Rgb>, k: nat)
    ensures |MatchedBy(s + [p], targets, k)| == |MatchedBy(s, targets, k)| + if FirstMatch(p, targets) == Some(k) then 1 else 0
  {
    assert (s + [p])[..|s|] == s;
  }

  lemma {:induction false} MatchedTotalEmpty(targets: seq<Rgb>, n: nat)
    ensures MatchedTotal([], targets, n) == 0
  {
    if n > 0 {
      MatchedTotalEmpty(targets, n - 1);
    }
  }

  /** Every coloured pixel is either counted for exactly one palette colour or unexpected. */
  lemma {:induction false} MatchPartition(colored: seq<Rgb>, targets: seq<Rgb>)
    ensures MatchedTotal(colored, targets, |targets|) + |Unmatched(colored, targets)| == |colored|
  {
    if colored != [] {
      var s := colored[..|colored| - 1];
      var p := colored[|colored| - 1];
      assert colored == s + [p];
      assert Unmatched(colored, targets) == Unmatched(s, targets) + (if FirstMatch(p, targets).None? then [p] else []);
      MatchPartition(s, targets);
      MatchedTotalStep(s, p, targets, |targets|);
    } else {
      MatchedTotalEmpty(targets, |targets|);
    }
  }

  /** The pixels counted for palette colour `k` are exactly the coloured pixels whose first
      match is `k`. */
  lemma {:induction false} MatchedByMembers(colored: seq<Rgb>, targets: seq<Rgb>, k: nat, p: Rgb)
    ensures p in MatchedBy(colored, targets, k) <==> p in colored && FirstMatch(p, targets) == Some(k)
  {
    if colored != [] {
      var init := colored[..|colored| - 1];
      assert colored == init + [colored[|colored| - 1]];
      MatchedByMembers(init, targets, k, p);
    }
  }

  /** A pixel is never counted for two palette colours. */
  lemma MatchExclusive(colored: seq<Rgb>, targets: seq<Rgb>, p: Rgb, k1: nat, k2: nat)
    requires p in MatchedBy(colored, targets, k1) && p in MatchedBy(colored, targets, k2)
    ensures k1 == k2
  {
    MatchedByMembers(colored, targets, k1, p);
    MatchedByMembers(colored, targets, k2, p);
  }

  function SumCounts(results: seq<ColorResult>): nat {
    if results == [] then 0 else SumCounts(results[..|results| - 1]) + results[|results| - 1].pixelCount
  }

  lemma {:induction false} SumCountsResults(palette: seq<Swatch>, colored: seq<Rgb>, targets: seq<Rgb>, n: nat)
    requires |targets| == |palette| && n <= |palette|
    ensures SumCounts(Results(palette, colored, targets)[..n]) == MatchedTotal(colored, targets, n)
  {
    if n > 0 {
      var rs := Results(palette, colored, targets);
      assert rs[..n][..n - 1] == rs[..n - 1];
      SumCountsResults(palette, colored, targets, n - 1);
    }
  }

  /** The pixels counted for the palette colours and the unexpected pixels add up to the
      coloured pixels: the two passes of the analysis partition the coloured list. */
  lemma AnalysisPartition(pixels: seq<Rgb>, palette: seq<Swatch>)
    requires Analyze(pixels, palette).Some?
    ensures var a := Analyze(pixels, palette).value;
      SumCounts(a.results) + |a.unexpected| == a.coloredCount
  {
    var targets := ParsePalette(palette).value;
    var colored := Colored(pixels);
    var rs := Results(palette, colored, targets);
    assert rs[..|palette|] == rs;
    SumCountsResults(palette, colored, targets, |palette|);
    MatchPartition(colored, targets);
  }

  /** The four outcomes of the final verdict. */
  datatype Verdict = Success | Warning | Failure | Unclear

  predicate AnyFound(results: seq<ColorResult>) {
    exists k :: 0 <= k < |results| && results[k].found
  }

  /** The final verdict of `main`; `None` when no verdict is printed because the brand analysis
      failed or came back empty. A missing wrong-colour analysis counts as "no wrong colour". */
  function FinalVerdict(brand: Option<Analysis>, wrong: Option<Analysis>): (v: Option<Verdict>)
    ensures v.None? <==> brand.None? || brand.value.results == []
    ensures v == Some(Success) <==> (brand.Some? && AnyFound(brand.value.results)
      && !(wrong.Some? && AnyFound(wrong.value.results)))
    ensures v == Some(Warning) <==> (brand.Some? && AnyFound(brand.value.results)
      && wrong.Some? && AnyFound(wrong.value.results))
    ensures v == Some(Failure) <==> (brand.Some? && brand.value.results != [] && !AnyFound(brand.value.results)
      && wrong.Some? && AnyFound(wrong.value.results))
    ensures v == Some(Unclear) <==> (brand.Some? && brand.value.results != [] && !AnyFound(brand.value.results)
      && !(wrong.Some? && AnyFound(wrong.value.results)))
  {
    if brand.None? || brand.value.results == [] then None
    else
      var foundCorrect := AnyFound(brand.value.results);
      var foundWrong := wrong.Some? && AnyFound(wrong.value.results);
      if foundCorrect && !foundWrong then Some(Success)
      else if foundCorrect && foundWrong then Some(Warning)
      else if !foundCorrect && foundWrong then Some(Failure)
      else Some(Unclear)
  }

  /** The verdict tells exactly which of the two palettes were found. */
  lemma VerdictDeterminesFindings(b1: Option<Analysis>, w1: Option<Analysis>, b2: Option<Analysis>, w2: Option<Analysis>)
    requires FinalVerdict(b1, w1).Some? && FinalVerdict(b1, w1) == FinalVerdict(b2, w2)
    ensures AnyFound(b1.value.results) == AnyFound(b2.value.results)
    ensures (w1.Some? && AnyFound(w1.value.results)) == (w2.Some? && AnyFound(w2.value.results))
  {
  }

  const BrandColors: seq<Swatch> := [
    Swatch("Primary Gold", "#FEBD59"),
    Swatch("Navy Blue", "#2D497B"),
    Swatch("Darker Gold", "#DF912F"),
    Swatch("Light Golden", "#FDD698")
  ]

  const WrongColors: seq<Swatch> := [
    Swatch("Orange (WRONG)", "#FF6B35"),
    Swatch("Pink (WRONG)", "#FF8FA3")
  ]

  /** `main` on the pixels of one screenshot: analyse it against the brand palette and against
      the wrong palette, then decide. */
  method CheckScreenshot(pixels: seq<Rgb>) returns (v: Option<Verdict>)
    ensures v == FinalVerdict(Analyze(pixels, BrandColors), Analyze(pixels, WrongColors))
    ensures v.Some? <==> |pixels| > 0
  {
    var results := AnalyzeScreenshot(pixels, BrandColors);
    var wrongResults := AnalyzeScreenshot(pixels, WrongColors);
    v := FinalVerdict(results, wrongResults);
    BrandColorsParse();
  }

  /** The brand palette is well-formed hex text, so only an empty image stops the analysis. */
  lemma BrandColorsParse()
    ensures forall k :: 0 <= k < |BrandColors| ==> HexToRgb(BrandColors[k].hex).Some?
  {
    forall k | 0 <= k < |BrandColors| ensures HexToRgb(BrandColors[k].hex).Some? {
      HexLiteralParses(BrandColors[k].hex);
    }
  }

  /** Each brand colour is `#` and six hex digits. */
  lemma HexLiteralParses(h: string)
    requires h in {"#FEBD59", "#2D497B", "#DF912F", "#FDD698"}
    ensures HexToRgb(h).Some?
  {
    if h == "#FEBD59" {
      assert SixHexDigits(h[1..]);
    } else if h == "#2D497B" {
      assert SixHexDigits(h[1..]);
    } else if h == "#DF912F" {
      assert SixHexDigits(h[1..]);
    } else {
      assert SixHexDigits(h[1..]);
    }
    HashHexParses(h);
  }

  /** A `#` followed by exactly six hex digits parses. */
  lemma HashHexParses(h: string)
    requires |h| == 7 && h[0] == '#' && SixHexDigits(h[1..])
    ensures HexToRgb(h).Some?
  {
    assert StripHashes(h) == StripHashes(h[1..]) == h[1..];
    HexCanonical(h);
  }
}
