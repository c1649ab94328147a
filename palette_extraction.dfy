/** The brand-palette extractor: count the colours of an image, keep the most common ones
    that are neither near-white nor near-black, group similar colours greedily, and print the
    representatives as Flutter `Color(0xFFrrggbb)` constants. */
module PaletteExtraction {
  import opened Wrappers
  import opened ColorCodes

  /** A colour with the number of pixels that have it, as `Counter.most_common` yields it. */
  datatype Tally = Tally(color: Rgb, count: nat)

  function ColorsOf(ts: seq<Tally>): (cs: seq<Rgb>)
    ensures |cs| == |ts| && forall i :: 0 <= i < |ts| ==> cs[i] == ts[i].color
  {
    seq(|ts|, i requires 0 <= i < |ts| => ts[i].color)
  }

  predicate DistinctColors(ts: seq<Tally>) {
    forall i, j :: 0 <= i < j < |ts| ==> ts[i].color != ts[j].color
  }

  // ---------------------------------------------------------------------------------------
  // `Counter(pixels)`: one tally per distinct colour, in order of first occurrence.

  /** Count one more pixel `p`: increment its tally, or append a new tally of 1. */
  function CountOne(ts: seq<Tally>, p: Rgb): (r: seq<Tally>)
    requires DistinctColors(ts)
    ensures p in ColorsOf(ts) ==> |r| == |ts|
    ensures p !in ColorsOf(ts) ==> |r| == |ts| + 1 && r[|ts|] == Tally(p, 1)
    ensures forall i :: 0 <= i < |ts| ==>
      r[i] == Tally(ts[i].color, ts[i].count + if ts[i].color == p then 1 else 0)
  {
    if ts == [] then [Tally(p, 1)]
    else if ts[0].color == p then [Tally(p, ts[0].count + 1)] + ts[1..]
    else
      assert ColorsOf(ts) == [ts[0].color] + ColorsOf(ts[1..]);
      [ts[0]] + CountOne(ts[1..], p)
  }

  lemma CountOneColors(ts: seq<Tally>, p: Rgb)
    requires DistinctColors(ts)
    ensures DistinctColors(CountOne(ts, p))
    ensures forall c :: c in ColorsOf(CountOne(ts, p)) <==> c in ColorsOf(ts) || c == p
  {
    CountOneDistinct(ts, p);
    forall c ensures c in ColorsOf(CountOne(ts, p)) <==> c in ColorsOf(ts) || c == p {
      CountOneMember(ts, p, c);
    }
  }

  lemma CountOneDistinct(ts: seq<Tally>, p: Rgb)
    requires DistinctColors(ts)
    ensures DistinctColors(CountOne(ts, p))
  {
    if p !in ColorsOf(ts) {
      forall i | 0 <= i < |ts| ensures ts[i].color != p {
        assert ColorsOf(ts)[i] == ts[i].color;
      }
    }
  }

  lemma CountOneMember(ts: seq<Tally>, p: Rgb, c: Rgb)
    requires DistinctColors(ts)
    ensures c in ColorsOf(CountOne(ts, p)) <==> c in ColorsOf(ts) || c == p
  {
    var r := CountOne(ts, p);
    if c in ColorsOf(r) {
      CountOneFrom(ts, p, c);
    }
    if c in ColorsOf(ts) || c == p {
      CountOneTo(ts, p, c);
    }
  }

  lemma CountOneFrom(ts: seq<Tally>, p: Rgb, c: Rgb)
    requires DistinctColors(ts) && c in ColorsOf(CountOne(ts, p))
    ensures c in ColorsOf(ts) || c == p
  {
    var r := CountOne(ts, p);
    var i :| 0 <= i < |r| && ColorsOf(r)[i] == c;
    CountOneColorAt(ts, p, i);
    if i < |ts| {
      assert ColorsOf(ts)[i] == c;
    }
  }

  /** Counting keeps each colour in its place and puts a new colour last. */
  lemma CountOneColorAt(ts: seq<Tally>, p: Rgb, i: nat)
    requires DistinctColors(ts) && i < |CountOne(ts, p)|
    ensures CountOne(ts, p)[i].color == if i < |ts| then ts[i].color else p
  {
  }

  lemma CountOneTo(ts: seq<Tally>, p: Rgb, c: Rgb)
    requires DistinctColors(ts) && (c in ColorsOf(ts) || c == p)
    ensures c in ColorsOf(CountOne(ts, p))
  {
    var r := CountOne(ts, p);
    if c in ColorsOf(ts) {
      var i :| 0 <= i < |ts| && ColorsOf(ts)[i] == c;
      assert ColorsOf(r)[i] == c;
    } else {
      assert ColorsOf(r)[|ts|] == c;
    }
  }

  /** `Counter(pixels)`, in insertion order. Every colour of the image has exactly one tally,
      and a tally's count is the number of pixels of that colour. */
  function Tallies(pixels: seq<Rgb>): (ts: seq<Tally>)
    ensures DistinctColors(ts)
    ensures forall c :: c in ColorsOf(ts) <==> c in pixels
    ensures forall i :: 0 <= i < |ts| ==> ts[i].count == multiset(pixels)[ts[i].color]
  {
    if pixels == [] then []
    else
      var init := pixels[..|pixels| - 1];
      var p := pixels[|pixels| - 1];
      assert pixels == init + [p];
      var prev := Tallies(init);
      TalliesStep(prev, init, p, pixels);
      CountOne(prev, p)
  }

  /** Counting pixel `p` after the pixels `init` keeps the three properties of `Tallies`. */
  lemma TalliesStep(ts: seq<Tally>, init: seq<Rgb>, p: Rgb, pixels: seq<Rgb>)
    requires pixels == init + [p]
    requires DistinctColors(ts)
    requires forall c :: c in ColorsOf(ts) <==> c in init
    requires forall i :: 0 <= i < |ts| ==> ts[i].count == multiset(init)[ts[i].color]
    ensures DistinctColors(CountOne(ts, p))
    ensures forall c :: c in ColorsOf(CountOne(ts, p)) <==> c in pixels
    ensures forall i :: 0 <= i < |CountOne(ts, p)| ==> CountOne(ts, p)[i].count == multiset(pixels)[CountOne(ts, p)[i].color]
  {
    CountOneColors(ts, p);
    CountOneCounts(ts, init, p);
  }

  /** Counting one more pixel keeps every count equal to the number of pixels of its colour. */
  lemma CountOneCounts(ts: seq<Tally>, pixels: seq<Rgb>, p: Rgb)
    requires DistinctColors(ts)
    requires forall c :: c in ColorsOf(ts) <==> c in pixels
    requires forall i :: 0 <= i < |ts| ==> ts[i].count == multiset(pixels)[ts[i].color]
    ensures var r := CountOne(ts, p);
      forall i :: 0 <= i < |r| ==> r[i].count == multiset(pixels + [p])[r[i].color]
  {
    var r := CountOne(ts, p);
    var m := multiset(pixels + [p]);
    assert m == multiset(pixels) + multiset{p};
    forall i | 0 <= i < |r| ensures r[i].count == m[r[i].color] {
      if i == |ts| {
        assert p !in ColorsOf(ts);
        assert p !in pixels;
      }
    }
  }

  // ---------------------------------------------------------------------------------------
  // Sorting by count, most common first, keeping the input order among equal counts (the
  // stable `sort(key=…, reverse=True)` and `heapq.nlargest` behind `most_common`).

  predicate NonIncreasing(ts: seq<Tally>) {
    forall i, j :: 0 <= i < j < |ts| ==> ts[i].count >= ts[j].count
  }

  /** Put `x` in front of the first tally whose count is not larger than its own. */
  function Insert(x: Tally, ts: seq<Tally>): (r: seq<Tally>)
    ensures |r| == |ts| + 1
    ensures multiset(r) == multiset(ts) + multiset{x}
    ensures r[0] == x || (ts != [] && r[0] == ts[0])
  {
    if ts == [] || ts[0].count <= x.count then [x] + ts
    else
      assert ts == [ts[0]] + ts[1..];
      [ts[0]] + Insert(x, ts[1..])
  }

  lemma {:induction false} InsertSorted(x: Tally, ts: seq<Tally>)
    requires NonIncreasing(ts)
    ensures NonIncreasing(Insert(x, ts))
  {
    var r := Insert(x, ts);
    if ts != [] && ts[0].count > x.count {
      var rest := Insert(x, ts[1..]);
      InsertSorted(x, ts[1..]);
      assert r == [ts[0]] + rest;
      forall i, j | 0 <= i < j < |r| ensures r[i].count >= r[j].count {
        if i == 0 {
          assert r[j] == rest[j - 1];
          assert rest[0].count <= ts[0].count;
        } else {
          assert r[i] == rest[i - 1] && r[j] == rest[j - 1];
        }
      }
    }
  }

  /** The tallies ordered by count, largest first, stably. */
  function SortByCount(ts: seq<Tally>): (r: seq<Tally>)
    ensures |r| == |ts|
    ensures multiset(r) == multiset(ts)
    ensures NonIncreasing(r)
  {
    if ts == [] then []
    else
      assert ts == [ts[0]] + ts[1..];
      InsertSorted(ts[0], SortByCount(ts[1..]));
      Insert(ts[0], SortByCount(ts[1..]))
  }

  /** `i` is the first position holding the largest count. */
  predicate IsFirstMax(ts: seq<Tally>, i: int) {
    0 <= i < |ts|
    && (forall j :: 0 <= j < |ts| ==> ts[j].count <= ts[i].count)
    && (forall j :: 0 <= j < i ==> ts[j].count < ts[i].count)
  }

  /** Inserting a tally whose count is at least every other count puts it first. */
  lemma InsertLargest(x: Tally, ts: seq<Tally>)
    requires forall t :: t in multiset(ts) ==> t.count <= x.count
    ensures Insert(x, ts)[0] == x
  {
    if ts != [] {
      assert ts[0] in multiset(ts);
    }
  }

  /** Inserting a tally with a smaller count than the current head keeps the head. */
  lemma InsertSmaller(x: Tally, ts: seq<Tally>)
    requires ts != [] && x.count < ts[0].count
    ensures Insert(x, ts)[0] == ts[0]
  {
  }

  lemma FirstMaxOfTail(ts: seq<Tally>, i: int)
    requires IsFirstMax(ts, i) && i > 0
    ensures IsFirstMax(ts[1..], i - 1) && ts[0].count < ts[i].count
  {
  }

  lemma RestNotLarger(ts: seq<Tally>)
    requires IsFirstMax(ts, 0)
    ensures forall t :: t in multiset(SortByCount(ts[1..])) ==> t.count <= ts[0].count
  {
    var rest := ts[1..];
    forall t: Tally | t in multiset(SortByCount(rest)) ensures t.count <= ts[0].count {
      assert t in multiset(rest);
      var j :| 0 <= j < |rest| && rest[j] == t;
      assert ts[j + 1] == t;
    }
  }

  /** The stable sort puts first the earliest tally with the largest count. */
  lemma {:induction false} SortHead(ts: seq<Tally>, i: int)
    requires IsFirstMax(ts, i)
    ensures SortByCount(ts)[0] == ts[i]
  {
    var rest := ts[1..];
    var sorted := SortByCount(rest);
    assert ts == [ts[0]] + rest;
    assert SortByCount(ts) == Insert(ts[0], sorted);
    if i == 0 {
      RestNotLarger(ts);
      InsertLargest(ts[0], sorted);
    } else {
      FirstMaxOfTail(ts, i);
      SortHead(rest, i - 1);
      InsertSmaller(ts[0], sorted);
    }
  }

  /** The first `n` elements, or all of them when there are fewer (`s[:n]` for `n >= 0`). */
  function Prefix<T>(s: seq<T>, n: nat): (r: seq<T>)
    ensures |r| == (if |s| <= n then |s| else n) && r == s[..|r|]
  {
    if |s| <= n then s else s[..n]
  }

  /** `Counter(pixels).most_common(n)`: the `n` largest tallies by count, ties in first-seen
      order, and nothing when `n <= 0`. */
  function MostCommon(pixels: seq<Rgb>, n: int): (mc: seq<Tally>)
    ensures |mc| == if n <= 0 then 0 else if |Tallies(pixels)| <= n then |Tallies(pixels)| else n
  {
    if n <= 0 then [] else Prefix(SortByCount(Tallies(pixels)), n)
  }

  /** A sequence of tallies with distinct colours holds each tally at most once. */
  lemma {:induction false} DistinctOnce(ts: seq<Tally>, t: Tally)
    requires DistinctColors(ts)
    ensures multiset(ts)[t] <= 1
  {
    if ts != [] {
      var init := ts[..|ts| - 1];
      var last := ts[|ts| - 1];
      assert ts == init + [last];
      assert DistinctColors(init) by {
        forall i, j | 0 <= i < j < |init| ensures init[i].color != init[j].color {
          assert init[i] == ts[i] && init[j] == ts[j];
        }
      }
      DistinctOnce(init, t);
      if t == last {
        forall k | 0 <= k < |init| ensures init[k] != t {
          assert init[k] == ts[k];
        }
      }
    }
  }

  /** An element at two positions occurs at least twice. */
  lemma Repeated<T>(s: seq<T>, i: int, j: int)
    requires 0 <= i < j < |s| && s[i] == s[j]
    ensures multiset(s)[s[i]] >= 2
  {
    assert s == s[..j] + [s[j]] + s[j + 1..];
    assert s[..j][i] == s[i];
  }

  /** Sorting keeps the colours of `Counter` distinct: two entries of one colour would be one
      tally counted twice. */
  lemma SortedDistinct(pixels: seq<Rgb>)
    ensures DistinctColors(SortByCount(Tallies(pixels)))
  {
    var ts := Tallies(pixels);
    var sorted := SortByCount(ts);
    forall i, j | 0 <= i < j < |sorted| ensures sorted[i].color != sorted[j].color {
      if sorted[i].color == sorted[j].color {
        assert sorted[i] in multiset(ts) && sorted[j] in multiset(ts);
        var a :| 0 <= a < |ts| && ts[a] == sorted[i];
        var b :| 0 <= b < |ts| && ts[b] == sorted[j];
        assert ColorsOf(ts)[a] == sorted[i].color && ColorsOf(ts)[b] == sorted[j].color;
        assert sorted[i] == sorted[j];
        Repeated(sorted, i, j);
        DistinctOnce(ts, sorted[i]);
        assert false;
      }
    }
  }

  /** Every entry of `most_common` is a colour of the image with its exact pixel count; the
      entries are distinct, most common first, and at most `n` of them. */
  lemma MostCommonTallies(pixels: seq<Rgb>, n: int)
    ensures var mc := MostCommon(pixels, n);
      |mc| <= (if n <= 0 then 0 else n) && NonIncreasing(mc) && DistinctColors(mc)
      && forall i :: 0 <= i < |mc| ==>
           mc[i].color in pixels && mc[i].count == multiset(pixels)[mc[i].color] > 0
  {
    if n > 0 {
      var ts := Tallies(pixels);
      var sorted := SortByCount(ts);
      var mc := MostCommon(pixels, n);
      SortedDistinct(pixels);
      forall i | 0 <= i < |mc|
        ensures mc[i].color in pixels && mc[i].count == multiset(pixels)[mc[i].color] > 0
      {
        assert mc[i] == sorted[i];
        assert sorted[i] in multiset(ts);
        var j :| 0 <= j < |ts| && ts[j] == sorted[i];
        assert ColorsOf(ts)[j] == mc[i].color;
      }
    }
  }

  /** `most_common(n)` leaves out no colour more common than the least common it returns. */
  lemma MostCommonTop(pixels: seq<Rgb>, n: int, c: Rgb)
    requires c in pixels
    ensures var mc := MostCommon(pixels, n);
      mc != [] && c !in ColorsOf(mc) ==> multiset(pixels)[c] <= mc[|mc| - 1].count
  {
    var mc := MostCommon(pixels, n);
    if mc != [] && c !in ColorsOf(mc) {
      var ts := Tallies(pixels);
      var sorted := SortByCount(ts);
      assert c in ColorsOf(ts);
      var j :| 0 <= j < |ts| && ColorsOf(ts)[j] == c;
      assert ts[j] in multiset(sorted);
      var i :| 0 <= i < |sorted| && sorted[i] == ts[j];
      forall k | 0 <= k < |mc| ensures sorted[k].color != c {
        assert sorted[k] == mc[k] && ColorsOf(mc)[k] == mc[k].color;
      }
      assert sorted[i].color == c;
      assert mc[|mc| - 1] == sorted[|mc| - 1];
    }
  }

  /** Pure white and very light colours, taken to be background. */
  predicate NearWhite(c: Rgb) {
    c.r > 245 && c.g > 245 && c.b > 245
  }

  /** Pure black. */
  predicate NearBlack(c: Rgb) {
    c.r < 5 && c.g < 5 && c.b < 5
  }

  /** The entries the filter does not skip, in their order. */
  function Kept(mc: seq<Tally>): (k: seq<Tally>)
    ensures |k| <= |mc|
  {
    if mc == [] then []
    else
      var init := mc[..|mc| - 1];
      var last := mc[|mc| - 1];
      assert mc == init + [last];
      Kept(init) + (if NearWhite(last.color) || NearBlack(last.color) then [] else [last])
  }

  /** The filter keeps exactly the entries that are neither near-white nor near-black. */
  lemma {:induction false} KeptMembers(mc: seq<Tally>)
    ensures forall t :: t in Kept(mc) <==> t in mc && !NearWhite(t.color) && !NearBlack(t.color)
  {
    if mc != [] {
      var init := mc[..|mc| - 1];
      assert mc == init + [mc[|mc| - 1]];
      KeptMembers(init);
    }
  }

  /** `extract_colors(pixels, n)`: the first `n` kept entries of `most_common(n * 5)`; a
      non-positive `n` yields nothing, since `most_common` is then empty. */
  function Extracted(pixels: seq<Rgb>, n: int): (r: seq<Tally>)
    ensures |r| <= (if n <= 0 then 0 else n)
    ensures forall t :: t in r ==> t in MostCommon(pixels, n * 5) && !NearWhite(t.color) && !NearBlack(t.color)
  {
    var kept := Kept(MostCommon(pixels, n * 5));
    KeptMembers(MostCommon(pixels, n * 5));
    Prefix(kept, if n <= 0 then 0 else n)
  }

  /** `a` is an order-preserving subsequence of `b`. */
  predicate Subsequence<T(==)>(a: seq<T>, b: seq<T>)
    decreases |b|
  {
    a == [] || (b != [] && (
      (a[|a| - 1] == b[|b| - 1] && Subsequence(a[..|a| - 1], b[..|b| - 1]))
      || Subsequence(a, b[..|b| - 1])))
  }

  lemma {:induction false} KeptSubsequence(mc: seq<Tally>)
    ensures Subsequence(Kept(mc), mc)
  {
    if mc != [] {
      var init := mc[..|mc| - 1];
      KeptSubsequence(init);
      var k := Kept(mc);
      if NearWhite(mc[|mc| - 1].color) || NearBlack(mc[|mc| - 1].color) {
        assert k == Kept(init);
      } else {
        assert k[..|k| - 1] == Kept(init);
      }
    }
  }

  lemma {:induction false} PrefixSubsequence<T>(a: seq<T>, b: seq<T>, n: nat)
    requires Subsequence(a, b) && n <= |a|
    ensures Subsequence(a[..n], b)
    decreases |b|
  {
    if n == |a| {
      assert a[..n] == a;
    } else if b != [] {
      var a' := a[..|a| - 1];
      var b' := b[..|b| - 1];
      if a[|a| - 1] == b[|b| - 1] && Subsequence(a', b') {
        PrefixSubsequence(a', b', n);
        assert a'[..n] == a[..n];
      } else {
        PrefixSubsequence(a, b', n);
      }
    }
  }

  /** What `extract_colors` promises: at most `n` entries, none near-white or near-black,
      kept in `most_common` order, each an image colour with its exact count. */
  lemma ExtractedProperties(pixels: seq<Rgb>, n: int)
    ensures var r := Extracted(pixels, n);
      |r| <= (if n <= 0 then 0 else n)
      && Subsequence(r, MostCommon(pixels, n * 5))
      && forall i :: 0 <= i < |r| ==>
           !NearWhite(r[i].color) && !NearBlack(r[i].color)
           && r[i].color in pixels && r[i].count == multiset(pixels)[r[i].color] > 0
  {
    var mc := MostCommon(pixels, n * 5);
    var kept := Kept(mc);
    var r := Extracted(pixels, n);
    MostCommonTallies(pixels, n * 5);
    KeptSubsequence(mc);
    KeptMembers(mc);
    PrefixSubsequence(kept, mc, |r|);
    forall i | 0 <= i < |r|
      ensures !NearWhite(r[i].color) && !NearBlack(r[i].color)
        && r[i].color in pixels && r[i].count == multiset(pixels)[r[i].color] > 0
    {
      assert r[i] == kept[i] && r[i] in kept;
      var j :| 0 <= j < |mc| && mc[j] == r[i];
    }
  }

  lemma KeptStep(s: seq<Tally>, t: Tally)
    ensures Kept(s + [t]) == Kept(s) + (if NearWhite(t.color) || NearBlack(t.color) then [] else [t])
  {
    assert (s + [t])[..|s|] == s;
  }

  /** Once the kept entries of a prefix reach `n`, the first `n` kept entries of the whole
      list are exactly those. */
  lemma KeptStops(mc: seq<Tally>, i: nat, n: int)
    requires i <= |mc| && |Kept(mc[..i])| == n
    ensures Prefix(Kept(mc), n) == Kept(mc[..i])
  {
    KeptAppend(mc[..i], mc[i..]);
    assert mc[..i] + mc[i..] == mc;
  }

  lemma {:induction false} KeptAppend(a: seq<Tally>, b: seq<Tally>)
    ensures Kept(a + b) == Kept(a) + Kept(b)
    decreases |b|
  {
    if b != [] {
      var b' := b[..|b| - 1];
      assert (a + b)[..|a + b| - 1] == a + b';
      KeptAppend(a, b');
    } else {
      assert a + b == a;
    }
  }

  /** The filtering loop of `extract_colors` over `most_common(n * 5)`: skip near-white and
      near-black entries, append the others, and stop once `n` have been kept. */
  method ExtractColors(pixels: seq<Rgb>, n: int) returns (filtered: seq<Tally>)
    ensures filtered == Extracted(pixels, n)
  {
    var mostCommon := MostCommon(pixels, n * 5);
    filtered := FilterCommon(mostCommon, n);
  }

  /** The filtering loop of `extract_colors` over the entries of `most_common`: skip
      near-white and near-black entries, append the others, and stop once `n` have been
      kept. */
  method FilterCommon(mostCommon: seq<Tally>, n: int) returns (filtered: seq<Tally>)
    requires n > 0 || mostCommon == []
    ensures filtered == Prefix(Kept(mostCommon), if n <= 0 then 0 else n)
  {
    filtered := [];
    var i := 0;
    while i < |mostCommon|
      invariant 0 <= i <= |mostCommon|
      invariant filtered == Kept(mostCommon[..i])
      invariant mostCommon != [] ==> |filtered| < n
    {
      var t := mostCommon[i];
      KeptNext(mostCommon, i);
      if t.color.r > 245 && t.color.g > 245 && t.color.b > 245 {
        i := i + 1;
        continue;
      }
      if t.color.r < 5 && t.color.g < 5 && t.color.b < 5 {
        i := i + 1;
        continue;
      }
      filtered := filtered + [t];
      if |filtered| >= n {
        KeptStops(mostCommon, i + 1, n);
        return;
      }
      i := i + 1;
    }
    assert mostCommon[..i] == mostCommon;
  }

  lemma KeptNext(mc: seq<Tally>, i: nat)
    requires i < |mc|
    ensures Kept(mc[..i + 1]) == Kept(mc[..i]) + (if NearWhite(mc[i].color) || NearBlack(mc[i].color) then [] else [mc[i]])
  {
    assert mc[..i + 1] == mc[..i] + [mc[i]];
    KeptStep(mc[..i], mc[i]);
  }

  // ---------------------------------------------------------------------------------------
  // `cluster_similar_colors`: greedy clustering around the first member of each cluster.

  predicate NonEmptyClusters(clusters: seq<seq<Tally>>) {
    forall k :: 0 <= k < |clusters| ==> clusters[k] != []
  }

  /** The first cluster whose seed (first member) lies within `threshold` of `c`. */
  function JoinIndex(clusters: seq<seq<Tally>>, c: Rgb, threshold: int): (m: Option<nat>)
    requires NonEmptyClusters(clusters)
    ensures m.Some? ==> (m.value < |clusters| && Within(c, clusters[m.value][0].color, threshold)
      && forall j :: 0 <= j < m.value ==> !Within(c, clusters[j][0].color, threshold))
    ensures m.None? ==> forall j :: 0 <= j < |clusters| ==> !Within(c, clusters[j][0].color, threshold)
  {
    if clusters == [] then None
    else if Within(c, clusters[0][0].color, threshold) then Some(0)
    else match JoinIndex(clusters[1..], c, threshold)
      case None => None
      case Some(k) => Some(k + 1)
  }

  /** One step of the outer loop: join the first close cluster, or start a new one. */
  function AddColor(clusters: seq<seq<Tally>>, x: Tally, threshold: int): (r: seq<seq<Tally>>)
    requires NonEmptyClusters(clusters)
    ensures NonEmptyClusters(r)
  {
    match JoinIndex(clusters, x.color, threshold)
    case Some(k) => clusters[k := clusters[k] + [x]]
    case None => clusters + [[x]]
  }

  /** The clusters after the outer loop has seen all of `colors`. */
  function Clusters(colors: seq<Tally>, threshold: int): (clusters: seq<seq<Tally>>)
    ensures NonEmptyClusters(clusters)
  {
    if colors == [] then []
    else AddColor(Clusters(colors[..|colors| - 1], threshold), colors[|colors| - 1], threshold)
  }

  /** Seeds are pairwise apart, and every member of a cluster is within the threshold of its
      own seed and of no earlier cluster's seed. */
  predicate WellClustered(clusters: seq<seq<Tally>>, threshold: int)
    requires NonEmptyClusters(clusters)
  {
    (forall k, i :: 0 <= k < |clusters| && 0 < i < |clusters[k]| ==>
       Within(clusters[k][i].color, clusters[k][0].color, threshold))
    && (forall k, i, j :: 0 <= j < k < |clusters| && 0 <= i < |clusters[k]| ==>
       !Within(clusters[k][i].color, clusters[j][0].color, threshold))
  }

  lemma AddColorWellClustered(clusters: seq<seq<Tally>>, x: Tally, threshold: int)
    requires NonEmptyClusters(clusters) && WellClustered(clusters, threshold)
    ensures WellClustered(AddColor(clusters, x, threshold), threshold)
  {
    var r: seq<seq<Tally>> := AddColor(clusters, x, threshold);
    match JoinIndex(clusters, x.color, threshold)
    case Some(m) =>
      forall k, i | 0 <= k < |r| && 0 < i < |r[k]|
        ensures Within(r[k][i].color, r[k][0].color, threshold)
      {
        if k == m && i == |clusters[m]| {
          assert r[k][i] == x && r[k][0] == clusters[m][0];
        } else {
          assert r[k][i] == clusters[k][i] && r[k][0] == clusters[k][0];
        }
      }
      forall k, i, j | 0 <= j < k < |r| && 0 <= i < |r[k]|
        ensures !Within(r[k][i].color, r[j][0].color, threshold)
      {
        if k == m && i == |clusters[m]| {
          assert r[k][i] == x && r[j][0] == clusters[j][0];
        } else {
          assert r[k][i] == clusters[k][i] && r[j][0] == clusters[j][0];
        }
      }
    case None =>
      forall k, i, j | 0 <= j < k < |r| && 0 <= i < |r[k]|
        ensures !Within(r[k][i].color, r[j][0].color, threshold)
      {
        if k == |clusters| {
          assert r[k][i] == x && r[j][0] == clusters[j][0];
        } else {
          assert r[k][i] == clusters[k][i] && r[j][0] == clusters[j][0];
        }
      }
  }

  /** A colour joins the first cluster whose seed is within the threshold, otherwise it
      starts a new cluster; so seeds are pairwise at least the threshold apart. */
  lemma {:induction false} ClustersWellClustered(colors: seq<Tally>, threshold: int)
    ensures WellClustered(Clusters(colors, threshold), threshold)
  {
    if colors != [] {
      ClustersWellClustered(colors[..|colors| - 1], threshold);
      AddColorWellClustered(Clusters(colors[..|colors| - 1], threshold), colors[|colors| - 1], threshold);
    }
  }

  lemma SeedsApart(colors: seq<Tally>, threshold: int, j: int, k: int)
    requires var clusters := Clusters(colors, threshold); 0 <= j < k < |clusters|
    ensures var clusters := Clusters(colors, threshold);
      !Within(clusters[k][0].color, clusters[j][0].color, threshold)
      && !Within(clusters[j][0].color, clusters[k][0].color, threshold)
  {
    var clusters: seq<seq<Tally>> := Clusters(colors, threshold);
    ClustersWellClustered(colors, threshold);
    WithinSymmetric(clusters[k][0].color, clusters[j][0].color, threshold);
  }

  /** All clusters laid end to end. */
  function Flatten(clusters: seq<seq<Tally>>): seq<Tally> {
    if clusters == [] then []
    else Flatten(clusters[..|clusters| - 1]) + clusters[|clusters| - 1]
  }

  lemma {:induction false} FlattenAppend(clusters: seq<seq<Tally>>, k: int, x: Tally)
    requires 0 <= k < |clusters|
    ensures multiset(Flatten(clusters[k := clusters[k] + [x]])) == multiset(Flatten(clusters)) + multiset{x}
    decreases |clusters|
  {
    var n := |clusters| - 1;
    var r := clusters[k := clusters[k] + [x]];
    if k == n {
      assert r[..n] == clusters[..n];
    } else {
      assert r[..n] == clusters[..n][k := clusters[k] + [x]];
      FlattenAppend(clusters[..n], k, x);
    }
  }

  /** Every input colour lands in exactly one cluster: the clusters together are a
      rearrangement of the input, so their sizes add up to its length. */
  lemma {:induction false} ClustersPartition(colors: seq<Tally>, threshold: int)
    ensures multiset(Flatten(Clusters(colors, threshold))) == multiset(colors)
  {
    if colors != [] {
      var init := colors[..|colors| - 1];
      var x := colors[|colors| - 1];
      assert colors == init + [x];
      var prev := Clusters(init, threshold);
      ClustersPartition(init, threshold);
      match JoinIndex(prev, x.color, threshold)
      case Some(k) =>
        FlattenAppend(prev, k, x);
      case None =>
        assert (prev + [[x]])[..|prev|] == prev;
    }
  }

  lemma {:induction false} FlattenContains(clusters: seq<seq<Tally>>, k: int, t: Tally)
    requires 0 <= k < |clusters| && t in clusters[k]
    ensures t in multiset(Flatten(clusters))
  {
    var n := |clusters| - 1;
    if k < n {
      FlattenContains(clusters[..n], k, t);
    }
  }

  /** `cluster.sort(key=count, reverse=True)` followed by `cluster[0]`. */
  function Representative(cluster: seq<Tally>): Tally
    requires cluster != []
  {
    SortByCount(cluster)[0]
  }

  function Representatives(clusters: seq<seq<Tally>>): (reps: seq<Tally>)
    requires NonEmptyClusters(clusters)
    ensures |reps| == |clusters|
  {
    if clusters == [] then []
    else Representatives(clusters[..|clusters| - 1]) + [Representative(clusters[|clusters| - 1])]
  }

  lemma {:induction false} RepresentativesAt(clusters: seq<seq<Tally>>, k: int)
    requires NonEmptyClusters(clusters) && 0 <= k < |clusters|
    ensures Representatives(clusters)[k] == Representative(clusters[k])
  {
    if k < |clusters| - 1 {
      RepresentativesAt(clusters[..|clusters| - 1], k);
    }
  }

  lemma RepresentativesNext(clusters: seq<seq<Tally>>, k: nat)
    requires NonEmptyClusters(clusters) && k < |clusters|
    ensures NonEmptyClusters(clusters[..k]) && NonEmptyClusters(clusters[..k + 1])
    ensures Representatives(clusters[..k + 1]) == Representatives(clusters[..k]) + [Representative(clusters[k])]
  {
    assert clusters[..k + 1][..k] == clusters[..k];
  }

  /** The index of the earliest member with the largest count. */
  function FirstMaxIndex(ts: seq<Tally>): (i: nat)
    requires ts != []
    ensures IsFirstMax(ts, i)
  {
    if |ts| == 1 then 0
    else
      var j := FirstMaxIndex(ts[..|ts| - 1]);
      if ts[|ts| - 1].count > ts[j].count then |ts| - 1 else j
  }

  /** `cluster_similar_colors(colors, threshold)`. */
  function ClusterSimilar(colors: seq<Tally>, threshold: int): (reps: seq<Tally>)
    ensures |reps| <= |colors|
  {
    var clusters := Clusters(colors, threshold);
    ClustersPartition(colors, threshold);
    FlattenSize(clusters);
    assert |Flatten(clusters)| == |multiset(Flatten(clusters))| == |multiset(colors)| == |colors|;
    Representatives(clusters)
  }

  /** One output per cluster, equal to that cluster's earliest member of largest count; so the
      output is no longer than the input and every output entry is an input entry. */
  lemma ClusterSimilarProperties(colors: seq<Tally>, threshold: int)
    ensures var clusters := Clusters(colors, threshold);
      var reps := ClusterSimilar(colors, threshold);
      |reps| == |clusters| <= |colors|
      && (forall k :: 0 <= k < |clusters| ==> reps[k] == clusters[k][FirstMaxIndex(clusters[k])])
      && (forall k :: 0 <= k < |reps| ==> reps[k] in colors)
  {
    var clusters: seq<seq<Tally>> := Clusters(colors, threshold);
    var reps := ClusterSimilar(colors, threshold);
    ClustersPartition(colors, threshold);
    FlattenSize(clusters);
    forall k | 0 <= k < |clusters|
      ensures reps[k] == clusters[k][FirstMaxIndex(clusters[k])] && reps[k] in colors
    {
      RepresentativesAt(clusters, k);
      SortHead(clusters[k], FirstMaxIndex(clusters[k]));
      FlattenContains(clusters, k, reps[k]);
    }
  }

  /** A list of non-empty clusters holds at least one entry per cluster. */
  lemma {:induction false} FlattenSize(clusters: seq<seq<Tally>>)
    requires NonEmptyClusters(clusters)
    ensures |clusters| <= |Flatten(clusters)|
  {
    if clusters != [] {
      FlattenSize(clusters[..|clusters| - 1]);
    }
  }

  /** The clustering pass as the script runs it: an outer loop over the colours with an inner
      search of the clusters that stops at the first close seed, then one representative per
      cluster. */
  method ClusterSimilarColors(colors: seq<Tally>, threshold: int) returns (reps: seq<Tally>)
    ensures reps == ClusterSimilar(colors, threshold)
  {
    var clusters: seq<seq<Tally>> := [];
    var i := 0;
    while i < |colors|
      invariant 0 <= i <= |colors|
      invariant clusters == Clusters(colors[..i], threshold)
    {
      var x := colors[i];
      ClustersNext(colors, i, threshold);
      var found, k := FindCluster(clusters, x.color, threshold);
      if found {
        clusters := clusters[k := clusters[k] + [x]];
      } else {
        clusters := clusters + [[x]];
      }
      i := i + 1;
    }
    assert colors[..i] == colors;
    reps := PickRepresentatives(clusters);
  }

  lemma ClustersNext(colors: seq<Tally>, i: nat, threshold: int)
    requires i < |colors|
    ensures Clusters(colors[..i + 1], threshold) == AddColor(Clusters(colors[..i], threshold), colors[i], threshold)
  {
    assert colors[..i + 1][..i] == colors[..i];
  }

  /** The inner loop of the clustering pass: the first cluster whose seed is within the
      threshold of `c`, if any. */
  method FindCluster(clusters: seq<seq<Tally>>, c: Rgb, threshold: int) returns (found: bool, k: nat)
    requires NonEmptyClusters(clusters)
    ensures found <==> JoinIndex(clusters, c, threshold).Some?
    ensures found ==> JoinIndex(clusters, c, threshold) == Some(k)
  {
    found := false;
    k := 0;
    while k < |clusters|
      invariant 0 <= k <= |clusters|
      invariant forall j :: 0 <= j < k ==> !Within(c, clusters[j][0].color, threshold)
    {
      if Within(c, clusters[k][0].color, threshold) {
        found := true;
        JoinIndexIs(clusters, c, threshold, k);
        return;
      }
      k := k + 1;
    }
  }

  lemma JoinIndexIs(clusters: seq<seq<Tally>>, c: Rgb, threshold: int, k: nat)
    requires NonEmptyClusters(clusters) && k < |clusters| && Within(c, clusters[k][0].color, threshold)
    requires forall j :: 0 <= j < k ==> !Within(c, clusters[j][0].color, threshold)
    ensures JoinIndex(clusters, c, threshold) == Some(k)
  {
  }

  /** The last loop of the clustering pass: each cluster sorted by count, its first entry
      kept. */
  method PickRepresentatives(clusters: seq<seq<Tally>>) returns (reps: seq<Tally>)
    requires NonEmptyClusters(clusters)
    ensures reps == Representatives(clusters)
  {
    reps := [];
    var k := 0;
    while k < |clusters|
      invariant 0 <= k <= |clusters|
      invariant reps == Representatives(clusters[..k])
    {
      RepresentativesNext(clusters, k);
      reps := reps + [SortByCount(clusters[k])[0]];
      k := k + 1;
    }
    assert clusters[..k] == clusters;
  }

  // ---------------------------------------------------------------------------------------
  // `main`: extract 15 colours, cluster them at distance 40, order the representatives by
  // count and print the first eight as Flutter constants.

  const NumColors := 15
  const ClusterThreshold := 40
  const PaletteSize := 8

  /** The Flutter `Color` argument: alpha `FF` followed by the six digits of `rgb_to_hex`. */
  function FlutterHex(c: Rgb): (f: string)
    ensures |f| == 10 && f[..4] == "0xFF"
    ensures forall i :: 4 <= i < 10 ==> IsLowerHexChar(f[i])
  {
    "0xFF" + RgbToHex(c)[1..]
  }

  /** The six digits after `0xFF` read back as the same colour. */
  lemma FlutterHexDecodes(c: Rgb)
    ensures HexToRgb(FlutterHex(c)[4..]) == Some(c)
  {
    var h := RgbToHex(c);
    assert FlutterHex(c)[4..] == h[1..];
    HashDropped(h);
    HexRoundTrip(c);
  }

  /** The colours `main` prints, most common first; `None` where it exits with status 1
      because no colour was extracted. */
  function Palette(pixels: seq<Rgb>): (r: Option<seq<Tally>>)
    ensures r.None? <==> Extracted(pixels, NumColors) == []
    ensures r.Some? ==> |r.value| <= PaletteSize
  {
    var colors := Extracted(pixels, NumColors);
    if colors == [] then None
    else Some(Prefix(SortByCount(ClusterSimilar(colors, ClusterThreshold)), PaletteSize))
  }

  /** The first `n` of the sorted tallies are among the tallies. */
  lemma SortedPrefixMembers(ts: seq<Tally>, n: nat)
    ensures forall i :: 0 <= i < |Prefix(SortByCount(ts), n)| ==> Prefix(SortByCount(ts), n)[i] in ts
  {
    var sorted := SortByCount(ts);
    forall i | 0 <= i < |Prefix(sorted, n)| ensures Prefix(sorted, n)[i] in ts {
      assert Prefix(sorted, n)[i] == sorted[i] && sorted[i] in multiset(ts);
    }
  }

  lemma ExtractedEmpty(n: int)
    ensures Extracted([], n) == []
  {
    assert Tallies([]) == [];
    assert MostCommon([], n * 5) == [];
  }

  /** Clustering keeps at least one colour of a non-empty input, and only input colours. */
  lemma ClusterSimilarMembers(colors: seq<Tally>, threshold: int)
    ensures colors != [] ==> ClusterSimilar(colors, threshold) != []
    ensures forall t :: t in ClusterSimilar(colors, threshold) ==> t in colors
  {
    var reps := ClusterSimilar(colors, threshold);
    ClusterSimilarProperties(colors, threshold);
    if colors != [] {
      var clusters := Clusters(colors, threshold);
      ClustersPartition(colors, threshold);
      assert colors[0] in multiset(Flatten(clusters));
    }
  }

  /** An empty image makes `main` exit with nothing extracted. */
  lemma PaletteEmpty()
    ensures Palette([]).None?
  {
    ExtractedEmpty(NumColors);
  }

  /** At most eight colours, most common first, each a colour of the image with its exact
      pixel count and neither near-white nor near-black. */
  lemma PaletteProperties(pixels: seq<Rgb>)
    ensures Palette(pixels).Some? ==> var p := Palette(pixels).value;
      0 < |p| <= PaletteSize && NonIncreasing(p)
      && forall i :: 0 <= i < |p| ==>
           p[i].color in pixels && p[i].count == multiset(pixels)[p[i].color] > 0
           && !NearWhite(p[i].color) && !NearBlack(p[i].color)
  {
    var colors := Extracted(pixels, NumColors);
    if colors != [] {
      ExtractedProperties(pixels, NumColors);
      ShownProperties(pixels, colors);
    }
  }

  /** The representatives shown for colours of the image that carry their exact counts and
      are neither near-white nor near-black have those properties too. */
  lemma ShownProperties(pixels: seq<Rgb>, colors: seq<Tally>)
    requires colors != []
    requires forall i :: 0 <= i < |colors| ==>
      !NearWhite(colors[i].color) && !NearBlack(colors[i].color)
      && colors[i].color in pixels && colors[i].count == multiset(pixels)[colors[i].color] > 0
    ensures var p := Prefix(SortByCount(ClusterSimilar(colors, ClusterThreshold)), PaletteSize);
      0 < |p| <= PaletteSize && NonIncreasing(p)
      && forall i :: 0 <= i < |p| ==>
           p[i].color in pixels && p[i].count == multiset(pixels)[p[i].color] > 0
           && !NearWhite(p[i].color) && !NearBlack(p[i].color)
  {
    var reps := ClusterSimilar(colors, ClusterThreshold);
    ClusterSimilarMembers(colors, ClusterThreshold);
    SortedPrefixMembers(reps, PaletteSize);
    var sorted := SortByCount(reps);
    var p := Prefix(sorted, PaletteSize);
    assert |sorted| > 0;
    forall i | 0 <= i < |p|
      ensures p[i].color in pixels && p[i].count == multiset(pixels)[p[i].color] > 0
        && !NearWhite(p[i].color) && !NearBlack(p[i].color)
    {
      assert p[i] in colors;
      var j :| 0 <= j < |colors| && colors[j] == p[i];
    }
    forall i, j | 0 <= i < j < |p| ensures p[i].count >= p[j].count {
      assert p[i] == sorted[i] && p[j] == sorted[j];
    }
  }

  /** `main` from the pixel list on: the printed Flutter constants, in order, or `None` when
      the script exits because extraction found nothing. */
  method ExtractPalette(pixels: seq<Rgb>) returns (constants: Option<seq<string>>)
    ensures constants.None? <==> Palette(pixels).None?
    ensures constants.Some? ==> (|constants.value| == |Palette(pixels).value|
      && forall i :: 0 <= i < |constants.value| ==>
           constants.value[i] == FlutterHex(Palette(pixels).value[i].color))
  {
    var colors := ExtractColors(pixels, NumColors);
    if colors == [] {
      return None;
    }
    var clustered := ClusterSimilarColors(colors, ClusterThreshold);
    clustered := SortByCount(clustered);
    var shown := Prefix(clustered, PaletteSize);
    assert Palette(pixels) == Some(shown);
    var lines := FlutterConstants(shown);
    constants := Some(lines);
  }

  /** The printing loop of `main`: one Flutter constant per colour shown, in order. */
  method FlutterConstants(shown: seq<Tally>) returns (lines: seq<string>)
    ensures |lines| == |shown|
    ensures forall j :: 0 <= j < |shown| ==> lines[j] == FlutterHex(shown[j].color)
  {
    lines := [];
    var i := 0;
    while i < |shown|
      invariant 0 <= i <= |shown| && |lines| == i
      invariant forall j :: 0 <= j < i ==> lines[j] == FlutterHex(shown[j].color)
    {
      lines := lines + [FlutterHex(shown[i].color)];
      i := i + 1;
    }
  }
}
