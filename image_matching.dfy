/**
 * Pairing the images of two documents (bilingual_reader/image_extractor.py,
 * `match_images_by_position`, `match_images_by_page`,
 * `match_images_by_proximity`).
 *
 * Each strategy returns the matched pairs and, for each side, the images
 * left unmatched. Index matching pairs images by their place in the lists;
 * page matching walks the first list in order and gives each image the
 * nearest remaining image of the second list by relative position, if that
 * is closer than 0.1; proximity matching is index matching.
 */
module ImageMatching {
  import opened Wrappers

  /** The picture itself; only its equality matters here. */
  type Raster(==)

  /** An extracted image: its picture, caption, relative position in the
      document, page (known for PDFs) and running index. Two blocks are
      equal when all five fields are, as for the source's dataclass. */
  datatype ImageBlock = ImageBlock(image: Raster, caption: string := "", position: real := 0.0,
                                   page: Option<int> := None, index: int := 0)

  /** What every strategy returns. */
  datatype Matching = Matching(
    matched: seq<(ImageBlock, ImageBlock)>,
    unmatched1: seq<ImageBlock>,
    unmatched2: seq<ImageBlock>)

  function Firsts(ps: seq<(ImageBlock, ImageBlock)>): (r: seq<ImageBlock>)
    ensures |r| == |ps| && forall k :: 0 <= k < |ps| ==> r[k] == ps[k].0
  {
    seq(|ps|, k requires 0 <= k < |ps| => ps[k].0)
  }

  function Seconds(ps: seq<(ImageBlock, ImageBlock)>): (r: seq<ImageBlock>)
    ensures |r| == |ps| && forall k :: 0 <= k < |ps| ==> r[k] == ps[k].1
  {
    seq(|ps|, k requires 0 <= k < |ps| => ps[k].1)
  }

  /** Every input image shows up exactly once, either in a matched pair on
      its own side or in its side's unmatched list. */
  predicate Partitions(m: Matching, images1: seq<ImageBlock>, images2: seq<ImageBlock>)
  {
    multiset(Firsts(m.matched)) + multiset(m.unmatched1) == multiset(images1)
    && multiset(Seconds(m.matched)) + multiset(m.unmatched2) == multiset(images2)
  }

  // ---------------------------------------------------------------------------
  // Index matching
  // ---------------------------------------------------------------------------

  function Min(a: nat, b: nat): nat
  {
    if a <= b then a else b
  }

  /** The result of `match_images_by_position`: as many pairs as the shorter
      list has images, and nothing left over on that side. */
  function IndexMatch(images1: seq<ImageBlock>, images2: seq<ImageBlock>): (r: Matching)
    ensures |r.matched| == Min(|images1|, |images2|)
    ensures |r.matched| + |r.unmatched1| == |images1| && |r.matched| + |r.unmatched2| == |images2|
    ensures r.unmatched1 == [] || r.unmatched2 == []
  {
    var n := Min(|images1|, |images2|);
    Matching(seq(n, i requires 0 <= i < n => (images1[i], images2[i])), images1[n..], images2[n..])
  }

  /** Index matching pairs the `i`-th images for every `i` below the shorter
      length, leaves the rest of each list unmatched in order, so at least one
      side has nothing left, and partitions both inputs. */
  lemma IndexMatchProperties(images1: seq<ImageBlock>, images2: seq<ImageBlock>)
    ensures var m := IndexMatch(images1, images2); var n := Min(|images1|, |images2|);
      |m.matched| == n
      && (forall i :: 0 <= i < n ==> m.matched[i] == (images1[i], images2[i]))
      && m.unmatched1 == images1[n..] && m.unmatched2 == images2[n..]
      && (m.unmatched1 == [] || m.unmatched2 == [])
      && Partitions(m, images1, images2)
  {
    var m := IndexMatch(images1, images2);
    var n := Min(|images1|, |images2|);
    assert Firsts(m.matched) == images1[..n];
    assert Seconds(m.matched) == images2[..n];
    assert images1[..n] + images1[n..] == images1;
    assert images2[..n] + images2[n..] == images2;
  }

  method MatchImagesByPosition(images1: seq<ImageBlock>, images2: seq<ImageBlock>) returns (r: Matching)
    ensures r == IndexMatch(images1, images2)
  {
    var matched: seq<(ImageBlock, ImageBlock)> := [];
    var minCount := if |images1| <= |images2| then |images1| else |images2|;
    for i := 0 to minCount
      invariant matched == seq(i, k requires 0 <= k < i => (images1[k], images2[k]))
    {
      matched := matched + [(images1[i], images2[i])];
    }
    var unmatched1 := if |images1| > minCount then images1[minCount..] else [];
    var unmatched2 := if |images2| > minCount then images2[minCount..] else [];
    return Matching(matched, unmatched1, unmatched2);
  }

  /** `match_images_by_proximity`: the aligned text positions are not
      consulted; the images are matched by index. */
  method MatchImagesByProximity(images1: seq<ImageBlock>, images2: seq<ImageBlock>,
                                alignedTextPositions: seq<(real, real)>) returns (r: Matching)
    ensures r == IndexMatch(images1, images2)
  {
    r := MatchImagesByPosition(images1, images2);
  }

  // ---------------------------------------------------------------------------
  // Nearest candidate
  // ---------------------------------------------------------------------------

  function Distance(a: ImageBlock, b: ImageBlock): real
  {
    if a.position >= b.position then a.position - b.position else b.position - a.position
  }

  /** A match is accepted only below this distance. */
  const Threshold: real := 0.1

  /** The inner scan over the first `n` candidates: the running best is
      replaced only by a strictly closer candidate (the first candidate
      always beats the initial infinite distance). */
  function NearestUpTo(x: ImageBlock, cands: seq<ImageBlock>, n: nat): (r: Option<nat>)
    requires n <= |cands|
    ensures r.Some? ==> r.value < n
  {
    if n == 0 then None
    else
      var prev := NearestUpTo(x, cands, n - 1);
      if prev.None? || Distance(x, cands[n - 1]) < Distance(x, cands[prev.value]) then Some(n - 1)
      else prev
  }

  /** The candidate the inner loop of `match_images_by_page` settles on:
      none exactly when there are no candidates, else the first of the
      closest ones. */
  function Nearest(x: ImageBlock, cands: seq<ImageBlock>): (r: Option<nat>)
    ensures r.None? <==> cands == []
    ensures r.Some? ==> r.value < |cands|
    ensures r.Some? ==> forall j :: 0 <= j < |cands| ==> Distance(x, cands[r.value]) <= Distance(x, cands[j])
    ensures r.Some? ==> forall j :: 0 <= j < r.value ==> Distance(x, cands[r.value]) < Distance(x, cands[j])
  {
    NearestIsFirstClosest(x, cands, |cands|);
    NearestUpTo(x, cands, |cands|)
  }

  /** The scan finds a candidate exactly when there is one; the one it finds
      is at least as close as every candidate and strictly closer than every
      earlier one, so ties go to the earliest. */
  lemma {:induction false} NearestIsFirstClosest(x: ImageBlock, cands: seq<ImageBlock>, n: nat)
    requires n <= |cands|
    ensures NearestUpTo(x, cands, n).None? <==> n == 0
    ensures NearestUpTo(x, cands, n).Some? ==>
      var b := NearestUpTo(x, cands, n).value;
      (forall j :: 0 <= j < n ==> Distance(x, cands[b]) <= Distance(x, cands[j]))
      && (forall j :: 0 <= j < b ==> Distance(x, cands[b]) < Distance(x, cands[j]))
  {
    if n > 0 {
      NearestIsFirstClosest(x, cands, n - 1);
    }
  }

  // ---------------------------------------------------------------------------
  // list.remove
  // ---------------------------------------------------------------------------

  /** `s.remove(x)`: drop the first element equal to `x`. */
  function Remove(s: seq<ImageBlock>, x: ImageBlock): (r: seq<ImageBlock>)
    ensures x in s ==> |r| == |s| - 1
    ensures x !in s ==> r == s
  {
    if s == [] then []
    else if s[0] == x then s[1..]
    else [s[0]] + Remove(s[1..], x)
  }

  /** Removing a present element takes exactly one copy of it away. */
  lemma {:induction false} RemoveOne(s: seq<ImageBlock>, x: ImageBlock)
    requires x in s
    ensures multiset(Remove(s, x)) + multiset{x} == multiset(s)
  {
    assert s == [s[0]] + s[1..];
    if s[0] != x {
      RemoveOne(s[1..], x);
    }
  }

  /** `a` is `b` with some elements dropped, the rest kept in order. */
  predicate SubseqOf(a: seq<ImageBlock>, b: seq<ImageBlock>)
    decreases |b|
  {
    a == [] || (b != [] && ((a[0] == b[0] && SubseqOf(a[1..], b[1..])) || SubseqOf(a, b[1..])))
  }

  lemma {:induction false} SubseqOfSelf(s: seq<ImageBlock>)
    ensures SubseqOf(s, s)
    decreases |s|
  {
    if s != [] {
      SubseqOfSelf(s[1..]);
    }
  }

  lemma {:induction false} RemoveKeepsOrder(s: seq<ImageBlock>, x: ImageBlock)
    ensures SubseqOf(Remove(s, x), s)
    decreases |s|
  {
    if s != [] {
      if s[0] == x {
        SubseqOfSelf(s[1..]);
        var r := s[1..];
        if r != [] {
          assert SubseqOf(r, s[1..]);
        }
      } else {
        RemoveKeepsOrder(s[1..], x);
        var r := Remove(s, x);
        assert r[0] == s[0] && r[1..] == Remove(s[1..], x);
      }
    }
  }

  lemma {:induction false} SubseqTrans(a: seq<ImageBlock>, b: seq<ImageBlock>, c: seq<ImageBlock>)
    requires SubseqOf(a, b) && SubseqOf(b, c)
    ensures SubseqOf(a, c)
    decreases |c|
  {
    if a != [] {
      assert b != [] && c != [];
      if b[0] == c[0] && SubseqOf(b[1..], c[1..]) {
        if a[0] == b[0] && SubseqOf(a[1..], b[1..]) {
          SubseqTrans(a[1..], b[1..], c[1..]);
        } else {
          SubseqTrans(a, b[1..], c[1..]);
        }
      } else {
        SubseqTrans(a, b, c[1..]);
      }
    }
  }

  // ---------------------------------------------------------------------------
  // Page matching
  // ---------------------------------------------------------------------------

  /** One step of the greedy pass: `x` takes its nearest remaining candidate
      when that is closer than the threshold, and both leave their lists. */
  function GreedyStep(m: Matching, x: ImageBlock): (r: Matching)
    ensures |m.matched| <= |r.matched| <= |m.matched| + 1
    ensures r.matched[..|m.matched|] == m.matched
  {
    var b := Nearest(x, m.unmatched2);
    if b.Some? && Distance(x, m.unmatched2[b.value]) < Threshold then
      var y := m.unmatched2[b.value];
      Matching(m.matched + [(x, y)], Remove(m.unmatched1, x), Remove(m.unmatched2, y))
    else m
  }

  /** The state of page matching after the first `i` images of `images1`. */
  function GreedyUpTo(images1: seq<ImageBlock>, images2: seq<ImageBlock>, i: nat): Matching
    requires i <= |images1|
  {
    if i == 0 then Matching([], images1, images2)
    else GreedyStep(GreedyUpTo(images1, images2, i - 1), images1[i - 1])
  }

  /** Page matching falls back to index matching when either list is empty
      or either list's first image has no page. */
  predicate FallsBack(images1: seq<ImageBlock>, images2: seq<ImageBlock>)
  {
    images1 == [] || images2 == [] || images1[0].page.None? || images2[0].page.None?
  }

  /** The result of `match_images_by_page`; every image of either list ends
      up exactly once, matched or unmatched. */
  function PageMatch(images1: seq<ImageBlock>, images2: seq<ImageBlock>): (r: Matching)
    ensures Partitions(r, images1, images2)
  {
    if FallsBack(images1, images2) then
      IndexMatchProperties(images1, images2);
      IndexMatch(images1, images2)
    else
      GreedyUpToInvariant(images1, images2, |images1|);
      GreedyUpTo(images1, images2, |images1|)
  }

  /** What the greedy pass keeps true: the matched firsts are taken from the
      images processed so far, both inputs are partitioned, every matched
      pair is closer than the threshold, and the unmatched lists keep their
      input order. */
  predicate GreedyInvariant(m: Matching, images1: seq<ImageBlock>, images2: seq<ImageBlock>, i: nat)
    requires i <= |images1|
  {
    multiset(Firsts(m.matched)) <= multiset(images1[..i])
    && Partitions(m, images1, images2)
    && (forall k :: 0 <= k < |m.matched| ==> Distance(m.matched[k].0, m.matched[k].1) < Threshold)
    && SubseqOf(m.unmatched1, images1) && SubseqOf(m.unmatched2, images2)
  }

  /** The image about to be processed is still unmatched, so its removal
      never fails. */
  lemma NextStillUnmatched(m: Matching, images1: seq<ImageBlock>, images2: seq<ImageBlock>, i: nat)
    requires i < |images1|
    requires GreedyInvariant(m, images1, images2, i)
    ensures images1[i] in m.unmatched1
  {
    var x := images1[i];
    assert images1 == images1[..i] + images1[i..];
    assert images1[i..][0] == x;
    assert multiset(images1)[x] == multiset(images1[..i])[x] + multiset(images1[i..])[x];
    assert multiset(images1[i..])[x] >= 1;
  }

  /** Matching `x` with `y` and removing both keeps the inputs partitioned
      and the matched firsts within the processed prefix. */
  lemma MatchKeepsPartition(m: Matching, images1: seq<ImageBlock>, images2: seq<ImageBlock>, i: nat,
                            y: ImageBlock, m': Matching)
    requires 0 < i <= |images1|
    requires GreedyInvariant(m, images1, images2, i - 1)
    requires y in m.unmatched2
    requires m' == Matching(m.matched + [(images1[i - 1], y)], Remove(m.unmatched1, images1[i - 1]), Remove(m.unmatched2, y))
    ensures multiset(Firsts(m'.matched)) <= multiset(images1[..i])
    ensures Partitions(m', images1, images2)
  {
    var x := images1[i - 1];
    assert images1[..i] == images1[..i - 1] + [x];
    NextStillUnmatched(m, images1, images2, i - 1);
    RemoveOne(m.unmatched1, x);
    RemoveOne(m.unmatched2, y);
    assert Firsts(m'.matched) == Firsts(m.matched) + [x];
    assert Seconds(m'.matched) == Seconds(m.matched) + [y];
  }

  /** ... and keeps the unmatched lists in input order. */
  lemma MatchKeepsOrder(m: Matching, images1: seq<ImageBlock>, images2: seq<ImageBlock>,
                        x: ImageBlock, y: ImageBlock, m': Matching)
    requires SubseqOf(m.unmatched1, images1) && SubseqOf(m.unmatched2, images2)
    requires m' == Matching(m.matched + [(x, y)], Remove(m.unmatched1, x), Remove(m.unmatched2, y))
    ensures SubseqOf(m'.unmatched1, images1) && SubseqOf(m'.unmatched2, images2)
  {
    RemoveKeepsOrder(m.unmatched1, x);
    RemoveKeepsOrder(m.unmatched2, y);
    SubseqTrans(m'.unmatched1, m.unmatched1, images1);
    SubseqTrans(m'.unmatched2, m.unmatched2, images2);
  }

  /** ... and keeps every matched pair within the threshold. */
  lemma MatchKeepsClose(m: Matching, x: ImageBlock, y: ImageBlock, m': Matching)
    requires forall k :: 0 <= k < |m.matched| ==> Distance(m.matched[k].0, m.matched[k].1) < Threshold
    requires Distance(x, y) < Threshold
    requires m'.matched == m.matched + [(x, y)]
    ensures forall k :: 0 <= k < |m'.matched| ==> Distance(m'.matched[k].0, m'.matched[k].1) < Threshold
  {
  }

  lemma GreedyStepKeeps(m: Matching, images1: seq<ImageBlock>, images2: seq<ImageBlock>, i: nat, m': Matching)
    requires 0 < i <= |images1|
    requires GreedyInvariant(m, images1, images2, i - 1)
    requires m' == GreedyStep(m, images1[i - 1])
    ensures GreedyInvariant(m', images1, images2, i)
  {
    var x := images1[i - 1];
    var b := Nearest(x, m.unmatched2);
    if b.Some? && Distance(x, m.unmatched2[b.value]) < Threshold {
      var y := m.unmatched2[b.value];
      MatchKeepsPartition(m, images1, images2, i, y, m');
      MatchKeepsOrder(m, images1, images2, x, y, m');
      MatchKeepsClose(m, x, y, m');
    } else {
      assert multiset(images1[..i]) == multiset(images1[..i - 1]) + multiset{x} by {
        assert images1[..i] == images1[..i - 1] + [x];
      }
    }
  }

  lemma {:induction false} GreedyUpToInvariant(images1: seq<ImageBlock>, images2: seq<ImageBlock>, i: nat)
    requires i <= |images1|
    ensures GreedyInvariant(GreedyUpTo(images1, images2, i), images1, images2, i)
  {
    if i == 0 {
      SubseqOfSelf(images1);
      SubseqOfSelf(images2);
    } else {
      GreedyUpToInvariant(images1, images2, i - 1);
      GreedyStepKeeps(GreedyUpTo(images1, images2, i - 1), images1, images2, i, GreedyUpTo(images1, images2, i));
    }
  }

  /** Page matching partitions both inputs, so no image is matched twice;
      when it does not fall back, every matched pair is closer than 0.1 and
      the unmatched lists keep their input order. */
  lemma PageMatchProperties(images1: seq<ImageBlock>, images2: seq<ImageBlock>)
    ensures Partitions(PageMatch(images1, images2), images1, images2)
    ensures |PageMatch(images1, images2).matched| + |PageMatch(images1, images2).unmatched1| == |images1|
    ensures |PageMatch(images1, images2).matched| + |PageMatch(images1, images2).unmatched2| == |images2|
    ensures !FallsBack(images1, images2) ==>
      var m := PageMatch(images1, images2);
      (forall k :: 0 <= k < |m.matched| ==> Distance(m.matched[k].0, m.matched[k].1) < Threshold)
      && SubseqOf(m.unmatched1, images1) && SubseqOf(m.unmatched2, images2)
  {
    var m := PageMatch(images1, images2);
    if FallsBack(images1, images2) {
      IndexMatchProperties(images1, images2);
    } else {
      GreedyUpToInvariant(images1, images2, |images1|);
    }
    assert |multiset(Firsts(m.matched))| + |multiset(m.unmatched1)| == |multiset(images1)|;
    assert |multiset(Seconds(m.matched))| + |multiset(m.unmatched2)| == |multiset(images2)|;
  }

  /** Image `i` of the first list, when it is matched, is matched to the
      remaining candidate nearest to it, the earliest on a tie. */
  lemma GreedyChoosesNearest(images1: seq<ImageBlock>, images2: seq<ImageBlock>, i: nat)
    requires i < |images1|
    ensures var before := GreedyUpTo(images1, images2, i);
      var after := GreedyUpTo(images1, images2, i + 1);
      var cands := before.unmatched2;
      |after.matched| == |before.matched| + 1 ==>
        exists b :: 0 <= b < |cands| && after.matched[|before.matched|] == (images1[i], cands[b])
          && Distance(images1[i], cands[b]) < Threshold
          && (forall j :: 0 <= j < |cands| ==> Distance(images1[i], cands[b]) <= Distance(images1[i], cands[j]))
          && (forall j :: 0 <= j < b ==> Distance(images1[i], cands[b]) < Distance(images1[i], cands[j]))
  {
    var before := GreedyUpTo(images1, images2, i);
    var cands := before.unmatched2;
    var x := images1[i];
    var nb := Nearest(x, cands);
    if nb.Some? && Distance(x, cands[nb.value]) < Threshold {
      NearestIsFirstClosest(x, cands, |cands|);
    }
  }

  /** Image `i` of the first list is matched exactly when its nearest
      remaining candidate is closer than 0.1; otherwise nothing changes. */
  lemma GreedyAccepts(images1: seq<ImageBlock>, images2: seq<ImageBlock>, i: nat)
    requires i < |images1|
    ensures var before := GreedyUpTo(images1, images2, i);
      var after := GreedyUpTo(images1, images2, i + 1);
      var b := Nearest(images1[i], before.unmatched2);
      var close := b.Some? && Distance(images1[i], before.unmatched2[b.value]) < Threshold;
      (close <==> |after.matched| == |before.matched| + 1)
      && (close ==> after.matched == before.matched + [(images1[i], before.unmatched2[b.value])])
      && (!close ==> after == before)
  {
  }

  /** Two images on page 1 at positions 0.5 and 0.55 are paired. */
  lemma PageMatchPairsClose(r1: Raster, r2: Raster)
    ensures var a := ImageBlock(r1, position := 0.5, page := Some(1));
      var b := ImageBlock(r2, position := 0.55, page := Some(1));
      PageMatch([a], [b]) == Matching([(a, b)], [], [])
  {
    var a := ImageBlock(r1, position := 0.5, page := Some(1));
    var b := ImageBlock(r2, position := 0.55, page := Some(1));
    assert GreedyUpTo([a], [b], 1) == GreedyStep(GreedyUpTo([a], [b], 0), a);
  }

  lemma NearestUpToNext(x: ImageBlock, cands: seq<ImageBlock>, k: nat)
    requires k < |cands|
    ensures var prev := NearestUpTo(x, cands, k);
      NearestUpTo(x, cands, k + 1)
        == if prev.None? || Distance(x, cands[k]) < Distance(x, cands[prev.value]) then Some(k) else prev
  {
  }

  lemma GreedyUpToNext(images1: seq<ImageBlock>, images2: seq<ImageBlock>, i: nat)
    requires i < |images1|
    ensures GreedyUpTo(images1, images2, i + 1) == GreedyStep(GreedyUpTo(images1, images2, i), images1[i])
  {
  }

  /** The inner loop of `match_images_by_page`: scan the candidates for
      the first one at the smallest distance from `img1`. */
  method ScanNearest(img1: ImageBlock, cands: seq<ImageBlock>)
    returns (bestMatch: Option<ImageBlock>, bestDistance: Option<real>)
    ensures NearestUpTo(img1, cands, |cands|).None? ==> bestMatch == None && bestDistance == None
    ensures NearestUpTo(img1, cands, |cands|).Some? ==>
      var b := NearestUpTo(img1, cands, |cands|).value;
      bestMatch == Some(cands[b]) && bestDistance == Some(Distance(img1, cands[b]))
  {
    bestMatch := None;
    bestDistance := None;
    for k := 0 to |cands|
      invariant NearestUpTo(img1, cands, k).None? ==> bestMatch == None && bestDistance == None
      invariant NearestUpTo(img1, cands, k).Some? ==>
        var b := NearestUpTo(img1, cands, k).value;
        bestMatch == Some(cands[b]) && bestDistance == Some(Distance(img1, cands[b]))
    {
      NearestUpToNext(img1, cands, k);
      var img2 := cands[k];
      var distance := if img1.position >= img2.position then img1.position - img2.position
                      else img2.position - img1.position;
      if bestDistance == None || distance < bestDistance.value {
        bestDistance := Some(distance);
        bestMatch := Some(img2);
      }
    }
  }

  /** `match_images_by_page`: copy both lists, then for each image of the
      first list in order scan the remaining second-list images for the
      nearest one and, if it is closer than 0.1, record the pair and remove
      both images from their lists. */
  method MatchImagesByPage(images1: seq<ImageBlock>, images2: seq<ImageBlock>) returns (r: Matching)
    ensures r == PageMatch(images1, images2)
  {
    if images1 == [] || images2 == [] || images1[0].page == None || images2[0].page == None {
      r := MatchImagesByPosition(images1, images2);
      return;
    }
    var matched: seq<(ImageBlock, ImageBlock)> := [];
    var unmatched1 := images1;
    var unmatched2 := images2;
    for i := 0 to |images1|
      invariant Matching(matched, unmatched1, unmatched2) == GreedyUpTo(images1, images2, i)
    {
      var img1 := images1[i];
      var bestMatch, bestDistance := ScanNearest(img1, unmatched2);
      GreedyUpToNext(images1, images2, i);
      ghost var before := Matching(matched, unmatched1, unmatched2);
      assert Nearest(img1, before.unmatched2) == NearestUpTo(img1, unmatched2, |unmatched2|);
      if bestMatch != None && bestDistance.value < Threshold {
        matched := matched + [(img1, bestMatch.value)];
        unmatched1 := Remove(unmatched1, img1);
        unmatched2 := Remove(unmatched2, bestMatch.value);
      }
    }
    return Matching(matched, unmatched1, unmatched2);
  }
}
