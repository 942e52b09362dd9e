/**
 * The two ways document_structure.py walks the lines of a text, stated over
 * the per-line answers of a test: the first line that passes (the detectors
 * stop there) and all lines that pass, in order (the chapter listing keeps
 * going). Which test it is does not matter here.
 */
module LineScan {
  import opened Wrappers

  /** The first index from `from` on whose flag is set. */
  function FirstFrom(f: seq<bool>, from: nat): (r: Option<nat>)
    requires from <= |f|
    decreases |f| - from
    ensures r.Some? ==> from <= r.value < |f| && f[r.value]
    ensures r.Some? ==> forall j :: from <= j < r.value ==> !f[j]
    ensures r.None? <==> forall j :: from <= j < |f| ==> !f[j]
  {
    if from == |f| then None
    else if f[from] then Some(from)
    else FirstFrom(f, from + 1)
  }

  /** A set flag with none set between `from` and it is what the scan finds. */
  lemma {:induction false} FirstFromIs(f: seq<bool>, from: nat, i: nat)
    requires from <= i < |f| && f[i]
    requires forall j :: from <= j < i ==> !f[j]
    decreases i - from
    ensures FirstFrom(f, from) == Some(i)
  {
    if from < i {
      FirstFromIs(f, from + 1, i);
    }
  }

  /** The indices below `n` whose flag is set, in increasing order. */
  function SetBefore(f: seq<bool>, n: nat): (idx: seq<nat>)
    requires n <= |f|
    ensures forall k :: 0 <= k < |idx| ==> idx[k] < n && f[idx[k]]
  {
    if n == 0 then []
    else SetBefore(f, n - 1) + (if f[n - 1] then [n - 1] else [])
  }

  /** Every set flag below `n` is listed. */
  lemma {:induction false} SetBeforeComplete(f: seq<bool>, n: nat, j: nat)
    requires j < n <= |f| && f[j]
    ensures j in SetBefore(f, n)
  {
    var prev := SetBefore(f, n - 1);
    var idx := SetBefore(f, n);
    if j == n - 1 {
      assert idx[|idx| - 1] == j;
    } else {
      SetBeforeComplete(f, n - 1, j);
      var k :| 0 <= k < |prev| && prev[k] == j;
      assert idx[k] == j;
    }
  }

  /** With every flag below `n` set, all of `0 .. n - 1` are listed. */
  lemma {:induction false} SetBeforeAll(f: seq<bool>, n: nat)
    requires n <= |f|
    requires forall j :: 0 <= j < n ==> f[j]
    ensures |SetBefore(f, n)| == n
    ensures forall k :: 0 <= k < n ==> SetBefore(f, n)[k] == k
  {
    if n > 0 {
      SetBeforeAll(f, n - 1);
    }
  }

  /** The listed indices strictly increase. */
  lemma {:induction false} SetBeforeIncreasing(f: seq<bool>, n: nat)
    requires n <= |f|
    ensures forall k, l :: 0 <= k < l < |SetBefore(f, n)| ==> SetBefore(f, n)[k] < SetBefore(f, n)[l]
  {
    if n > 0 {
      SetBeforeIncreasing(f, n - 1);
      var prev := SetBefore(f, n - 1);
      var idx := SetBefore(f, n);
      assert forall k :: 0 <= k < |prev| ==> idx[k] == prev[k];
    }
  }

  /** Nothing is listed only when no flag below `n` is set. */
  lemma {:induction false} SetBeforeEmpty(f: seq<bool>, n: nat)
    requires n <= |f| && SetBefore(f, n) == []
    ensures forall j :: 0 <= j < n ==> !f[j]
  {
    if n > 0 {
      assert SetBefore(f, n - 1) == [] && !f[n - 1] by {
        assert SetBefore(f, n) == SetBefore(f, n - 1) + (if f[n - 1] then [n - 1] else []);
      }
      SetBeforeEmpty(f, n - 1);
    }
  }

  /** The first index listed is the first set flag. */
  lemma {:induction false} SetBeforeStartsAtFirst(f: seq<bool>, n: nat)
    requires n <= |f| && SetBefore(f, n) != []
    ensures forall j :: 0 <= j < SetBefore(f, n)[0] ==> !f[j]
  {
    var prev := SetBefore(f, n - 1);
    var idx := SetBefore(f, n);
    if prev != [] {
      SetBeforeStartsAtFirst(f, n - 1);
      assert idx[0] == prev[0];
    } else {
      assert idx == [n - 1];
      SetBeforeEmpty(f, n - 1);
    }
  }

  /** The listing over all flags and the first-hit scan agree. */
  lemma SetBeforeAgreesWithFirst(f: seq<bool>)
    ensures SetBefore(f, |f|) == [] <==> FirstFrom(f, 0).None?
    ensures SetBefore(f, |f|) != [] ==> FirstFrom(f, 0) == Some(SetBefore(f, |f|)[0])
  {
    var idx := SetBefore(f, |f|);
    if idx != [] {
      SetBeforeStartsAtFirst(f, |f|);
      FirstFromIs(f, 0, idx[0]);
    } else {
      SetBeforeEmpty(f, |f|);
    }
  }
}
