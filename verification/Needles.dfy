/** Needles that cannot overlap themselves: where they are planted is where they are found. */
module Needles {
  import opened Wrappers
  import opened Utf8
  import opened Slices

  predicate Borderless(w: Bytes) {
    w != [] && forall k :: 0 < k < |w| ==> w[k..] != w[..|w| - k]
  }

  lemma OverlapIsBorder(h: Bytes, w: Bytes, p: nat, q: nat)
    requires MatchesAt(h, w, p) && MatchesAt(h, w, q) && p < q < p + |w|
    ensures w[q - p..] == w[..|w| - (q - p)]
  {
    var k := q - p;
    MatchIndices(h, w, p);
    MatchIndices(h, w, q);
    assert forall i :: 0 <= i < |w| - k ==> w[k..][i] == h[p + (k + i)] == h[q + i] == w[i];
  }

  /** A match that starts in front of the planted needle lies in front of it altogether. */
  lemma NoStraddleLeft(a: Bytes, w: Bytes, b: Bytes, p: nat)
    requires Borderless(w) && p < |a| && MatchesAt(a + w + b, w, p)
    ensures MatchesAt(a, w, p)
  {
    var h := a + w + b;
    MatchesPlanted(a, w, b);
    if p + |w| > |a| {
      OverlapIsBorder(h, w, p, |a|);
    } else {
      assert h[p..p + |w|] == a[p..p + |w|];
    }
  }

  lemma NoStraddleRight(a: Bytes, w: Bytes, b: Bytes, p: nat)
    requires Borderless(w) && p > |a| && MatchesAt(a + w + b, w, p)
    ensures p >= |a| + |w| && MatchesAt(b, w, p - |a| - |w|)
  {
    var h := a + w + b;
    MatchesPlanted(a, w, b);
    if p < |a| + |w| {
      OverlapIsBorder(h, w, |a|, p);
    } else {
      var q := p - |a| - |w|;
      assert h[p..p + |w|] == b[q..q + |w|];
    }
  }

  lemma MatchIndices(h: Bytes, n: Bytes, p: nat)
    requires MatchesAt(h, n, p)
    ensures forall j :: 0 <= j < |n| ==> h[p + j] == n[j]
  {
    forall j | 0 <= j < |n| ensures h[p + j] == n[j] {
      assert h[p..p + |n|][j] == n[j];
    }
  }

  lemma MatchesPlanted(a: Bytes, w: Bytes, b: Bytes)
    ensures MatchesAt(a + w + b, w, |a|)
  {
    assert (a + w + b)[|a|..|a| + |w|] == w;
  }

  lemma FirstPlanted(a: Bytes, w: Bytes, b: Bytes)
    requires Borderless(w) && !Contains(a, w)
    ensures FirstMatch(a + w + b, w, 0) == Some(|a|)
  {
    hide MatchesAt, Borderless;
    MatchesPlanted(a, w, b);
    var r := FirstMatch(a + w + b, w, 0);
    if r.Some? && r.value < |a| {
      NoStraddleLeft(a, w, b, r.value);
    }
  }

  lemma LastPlanted(a: Bytes, w: Bytes, b: Bytes)
    requires Borderless(w) && !Contains(b, w)
    ensures LastMatch(a + w + b, w, |a| + |b|) == Some(|a|)
  {
    hide MatchesAt, Borderless;
    MatchesPlanted(a, w, b);
    var r := LastMatch(a + w + b, w, |a| + |b|);
    if r.Some? && r.value > |a| {
      NoStraddleRight(a, w, b, r.value);
    }
  }
}
