/** What searching and slicing a string mean, as functions of its bytes.

    A string object is determined by its bytes, so every query it answers is a function
    of them. Searching runs over bytes, answers in code points; the lemmas connect both. */
module Slices {
  import opened Wrappers
  import opened Utf8
  import opened Arithmetic

  predicate MatchesAt(h: Bytes, n: Bytes, p: nat) {
    p + |n| <= |h| && h[p..p + |n|] == n
  }

  ghost predicate Contains(h: Bytes, n: Bytes) {
    exists p: nat :: MatchesAt(h, n, p)
  }

  /** The first byte position at or after `from` where `n` matches. */
  function FirstMatch(h: Bytes, n: Bytes, from: nat): (r: Option<nat>)
    ensures r.Some? ==> from <= r.value && MatchesAt(h, n, r.value)
    ensures forall q: nat :: from <= q && (r.Some? ==> q < r.value) ==> !MatchesAt(h, n, q)
    decreases |h| - from
  {
    if from + |n| > |h| then None
    else if MatchesAt(h, n, from) then Some(from)
    else FirstMatch(h, n, from + 1)
  }

  /** The last byte position at or before `upto` where `n` matches. */
  function LastMatch(h: Bytes, n: Bytes, upto: nat): (r: Option<nat>)
    ensures r.Some? ==> r.value <= upto && MatchesAt(h, n, r.value)
    ensures forall q: nat :: q <= upto && (r.Some? ==> r.value < q) ==> !MatchesAt(h, n, q)
  {
    if MatchesAt(h, n, upto) then Some(upto)
    else if upto == 0 then None
    else LastMatch(h, n, upto - 1)
  }

  function ToChars(h: Bytes, p: Option<nat>): Option<nat> {
    match p
    case None => None
    case Some(b) => Some(Covering(h, b))
  }

  function Find(h: Bytes, n: Bytes, offset: nat): Option<nat> {
    ToChars(h, FirstMatch(h, n, Offset(h, offset)))
  }

  function ReverseFind(h: Bytes, n: Bytes, offset: nat): Option<nat> {
    var b, i := Offset(h, offset), Offset(n, |n|);
    if b < i then None else ToChars(h, LastMatch(h, n, b - i))
  }

  // ---- slices ----

  function Left(h: Bytes, length: nat): Bytes {
    h[..Offset(h, length)]
  }

  function Right(h: Bytes, offset: nat): Bytes {
    if offset > Count(h) then [] else Normal(h[Offset(h, offset)..])
  }

  function Mid(h: Bytes, start: nat, end: nat): Bytes {
    if start < end && start <= Count(h) then Left(h[Offset(h, start)..], end - start) else []
  }

  function LeftOf(h: Bytes, n: Bytes): Bytes {
    match Find(h, n, 0)
    case None => []
    case Some(k) => Left(h, k)
  }

  function ReverseLeftOf(h: Bytes, n: Bytes): Bytes {
    match ReverseFind(h, n, |h|)
    case None => []
    case Some(k) => Left(h, k)
  }

  function After(h: Bytes, n: Bytes): Bytes {
    match Find(h, n, 0)
    case None => []
    case Some(k) => Right(h, k + Count(n))
  }

  function ReverseAfter(h: Bytes, n: Bytes): Bytes {
    match ReverseFind(h, n, |h|)
    case None => []
    case Some(k) => Right(h, k + Count(n))
  }

  function Between(h: Bytes, s: Bytes, e: Bytes): Bytes {
    match Find(h, s, 0)
    case None => []
    case Some(k) =>
      var t := k + Count(s);
      match Find(h, e, t)
      case None => []
      case Some(u) => Mid(h, t, u)
  }

  /** Appending writes behind the receiver's code-point count, not behind its last byte. */
  function Append(a: Bytes, b: Bytes, count: nat): Bytes {
    if b == [] || count == 0 then a else a[..Count(a)] + Left(b, count)
  }

  /** Cuts the code points `start..end` out of `h`. */
  function ReverseMid(h: Bytes, start: nat, end: nat): Bytes {
    if start > end then []
    else if end < Count(h) then Append(Left(h, start), Right(h, end), |h|)
    else Left(h, start)
  }

  // ---- bytes against code points ----

  /** The code points `n` occur in `h` at code-point index `i`. */
  predicate Occurs(h: seq<Bytes>, n: seq<Bytes>, i: nat) {
    i + |n| <= |h| && h[i..i + |n|] == n
  }

  lemma MatchSplits(h: Bytes, n: Bytes, p: nat)
    requires MatchesAt(h, n, p)
    ensures h[..p + |n|] == h[..p] + n
    ensures n != [] ==> h[p] == n[0]
  {
    if n != [] {
      assert h[p..p + |n|][0] == n[0];
    }
  }

  lemma MatchRebuild(h: Bytes, n: Bytes, p: nat, left: Bytes, after: Bytes)
    requires MatchesAt(h, n, p) && left == h[..p] && after == h[p + |n|..]
    ensures left + n + after == h
  {
    MatchSplits(h, n, p);
    assert h[..p + |n|] + h[p + |n|..] == h;
  }

  lemma MatchFits(h: Bytes, n: Bytes)
    ensures forall p: nat :: MatchesAt(h, n, p) ==> p + |n| <= |h|
  {
  }

  /** A byte match of a non-empty well-formed needle starts on a code-point boundary. */
  lemma MatchStarts(h: Bytes, n: Bytes, p: nat)
    requires WellFormed(h) && WellFormed(n) && n != [] && MatchesAt(h, n, p)
    ensures WellFormed(h[..p])
    ensures Covering(h, p) == Count(h[..p])
    ensures Offset(h, Count(h[..p])) == p
  {
    MatchSplits(h, n, p);
    BoundaryIff(h, p);
    CoveringBoundary(h, p);
    OffsetOfCount(h, p);
  }

  /** ... and ends on one, the needle's own code points further. */
  lemma MatchEnds(h: Bytes, n: Bytes, p: nat)
    requires WellFormed(h) && WellFormed(n) && n != [] && MatchesAt(h, n, p)
    ensures WellFormed(h[..p]) && WellFormed(h[..p + |n|])
    ensures Chars(h[..p + |n|]) == Chars(h[..p]) + Chars(n)
    ensures Offset(h, Count(h[..p]) + Count(n)) == p + |n|
    ensures Count(h[..p]) + Count(n) <= Count(h)
  {
    hide Head, WellFormed, Chars, Offset, Covering;
    MatchStarts(h, n, p);
    MatchSplits(h, n, p);
    CharsConcat(h[..p], n);
    OffsetOfCount(h, p + |n|);
  }

  lemma MatchOccurs(h: Bytes, n: Bytes, p: nat)
    requires WellFormed(h) && WellFormed(n) && n != [] && MatchesAt(h, n, p)
    ensures WellFormed(h[..p])
    ensures Occurs(Chars(h), Chars(n), Count(h[..p]))
  {
    hide Head, WellFormed, Chars, Offset, Covering;
    MatchEnds(h, n, p);
    SplitAt(h, p + |n|);
    ConcatOccurs(Chars(h[..p]), Chars(n), Chars(h[p + |n|..]));
  }

  lemma ConcatOccurs(a: seq<Bytes>, b: seq<Bytes>, c: seq<Bytes>)
    ensures Occurs(a + b + c, b, |a|)
  {
  }

  lemma {:induction false} FlattenPrefix(h: Bytes, i: nat)
    requires WellFormed(h) && i <= Count(h)
    ensures Flatten(Chars(h)[..i]) == h[..Offset(h, i)]
    ensures Count(h[..Offset(h, i)]) == i && WellFormed(h[..Offset(h, i)])
  {
    OffsetIsLongest(h, i);
    FlattenChars(h[..Offset(h, i)]);
  }

  lemma FlattenStep(h: Bytes, i: nat, j: nat)
    requires WellFormed(h) && i <= j <= Count(h)
    ensures h[..Offset(h, j)] == h[..Offset(h, i)] + Flatten(Chars(h)[i..j])
  {
    hide Head, WellFormed, Chars, Offset, Flatten;
    FlattenPrefix(h, i);
    FlattenPrefix(h, j);
    assert Chars(h)[..j] == Chars(h)[..i] + Chars(h)[i..j];
    FlattenConcat(Chars(h)[..i], Chars(h)[i..j]);
  }

  /** Conversely, an occurrence of the code points is a byte match at their offset. */
  lemma OccurrenceMatches(h: Bytes, n: Bytes, i: nat)
    requires WellFormed(h) && WellFormed(n) && Occurs(Chars(h), Chars(n), i)
    ensures MatchesAt(h, n, Offset(h, i))
    ensures Count(h[..Offset(h, i)]) == i && WellFormed(h[..Offset(h, i)])
  {
    hide Head, WellFormed, Chars, Offset, Flatten;
    FlattenPrefix(h, i);
    FlattenChars(n);
    FlattenStep(h, i, i + Count(n));
    PrefixMatches(h, Offset(h, i), n, Offset(h, i + Count(n)));
  }

  lemma PrefixMatches(h: Bytes, p: nat, n: Bytes, q: nat)
    requires p <= |h| && q <= |h| && h[..q] == h[..p] + n
    ensures MatchesAt(h, n, p)
  {
    assert q == p + |n|;
    assert forall k :: 0 <= k < |n| ==> h[p + k] == h[..q][p + k] == n[k];
  }

  lemma OffsetMonotone(h: Bytes, i: nat, j: nat)
    requires i <= j
    ensures Offset(h, i) <= Offset(h, j)
    ensures i < j <= Count(h) ==> Offset(h, i) < Offset(h, j)
  {
    OffsetIsLongest(h, i);
    OffsetIsLongest(h, j);
    if i < j <= Count(h) {
      assert Count(h[..Offset(h, i)]) != Count(h[..Offset(h, j)]);
    }
  }

  lemma CountMonotone(h: Bytes, p: nat, q: nat)
    requires p <= q <= |h| && WellFormed(h[..p]) && WellFormed(h[..q])
    ensures Count(h[..p]) <= Count(h[..q])
  {
    assert h[..q][..p] == h[..p];
    SplitAt(h[..q], p);
  }

  /** `Find` answers the code-point index of the first occurrence, and nothing iff there is none. */
  lemma FindIsFirstOccurrence(h: Bytes, n: Bytes, offset: nat)
    requires WellFormed(h) && WellFormed(n) && n != []
    ensures var r := Find(h, n, offset);
            var lo := Min(offset, Count(h));
            && (r.Some? ==> lo <= r.value && Occurs(Chars(h), Chars(n), r.value))
            && (forall i: nat :: lo <= i && (r.Some? ==> i < r.value) ==> !Occurs(Chars(h), Chars(n), i))
  {
    var lo := Min(offset, Count(h));
    OffsetAtMin(h, offset);
    var r, p := Find(h, n, offset), FirstMatch(h, n, Offset(h, lo));
    OffsetIsLongest(h, lo);
    if p.Some? {
      MatchStarts(h, n, p.value);
      MatchOccurs(h, n, p.value);
      CountMonotone(h, Offset(h, lo), p.value);
    }
    forall i: nat | lo <= i && (r.Some? ==> i < r.value) ensures !Occurs(Chars(h), Chars(n), i) {
      if Occurs(Chars(h), Chars(n), i) {
        OccurrenceMatches(h, n, i);
        OffsetMonotone(h, lo, i);
        if r.Some? {
          OffsetMonotone(h, i, r.value);
        }
        assert false;
      }
    }
  }

  lemma OffsetAtMin(h: Bytes, offset: nat)
    ensures Offset(h, offset) == Offset(h, Min(offset, Count(h)))
  {
    OffsetIsLongest(h, offset);
    if offset > Count(h) {
      OffsetSaturates(h, offset);
      OffsetSaturates(h, Count(h));
    }
  }

  lemma ReverseFindFrom(h: Bytes, n: Bytes, offset: nat)
    requires WellFormed(n)
    ensures var b := Offset(h, Min(offset, Count(h)));
            ReverseFind(h, n, offset) == if b < |n| then None else ToChars(h, LastMatch(h, n, b - |n|))
    ensures WellFormed(h) && offset >= |h| ==> Offset(h, offset) == |h|
  {
    hide Head, WellFormed, Chars, Covering, LastMatch, Offset;
    OffsetAtMin(h, offset);
    WholeOffset(n, |n|);
    if WellFormed(h) && offset >= |h| {
      WholeOffset(h, offset);
    }
  }

  lemma WholeOffset(s: Bytes, n: nat)
    requires WellFormed(s) && n >= |s|
    ensures Offset(s, n) == |s|
  {
    hide Head, WellFormed, Offset;
    OffsetIsLongest(s, n);
    assert s[..|s|] == s;
  }

  lemma ReverseFoundOccurs(h: Bytes, n: Bytes, hi: nat, p: nat)
    requires WellFormed(h) && WellFormed(n) && n != [] && hi <= Count(h)
    requires MatchesAt(h, n, p) && p + |n| <= Offset(h, hi)
    ensures Covering(h, p) + Count(n) <= hi && Occurs(Chars(h), Chars(n), Covering(h, p))
    ensures Offset(h, Covering(h, p)) == p
  {
    hide Head, WellFormed, Chars, Covering, Offset;
    OffsetIsLongest(h, hi);
    MatchStarts(h, n, p);
    MatchOccurs(h, n, p);
    MatchEnds(h, n, p);
    CountMonotone(h, p + |n|, Offset(h, hi));
  }

  lemma OccursWithin(h: Bytes, n: Bytes, hi: nat, i: nat)
    requires WellFormed(h) && WellFormed(n) && n != [] && hi <= Count(h)
    requires i + Count(n) <= hi && Occurs(Chars(h), Chars(n), i)
    ensures MatchesAt(h, n, Offset(h, i)) && Offset(h, i) + |n| <= Offset(h, hi)
  {
    hide Head, WellFormed, Chars, Covering, Offset, Occurs, MatchesAt;
    OccurrenceMatches(h, n, i);
    MatchEnds(h, n, Offset(h, i));
    OffsetMonotone(h, i + Count(n), hi);
  }

  /** `ReverseFind` answers the last occurrence that ends within the first `offset` code points. */
  lemma ReverseFindIsLastOccurrence(h: Bytes, n: Bytes, offset: nat)
    requires WellFormed(h) && WellFormed(n) && n != []
    ensures var r := ReverseFind(h, n, offset);
            var hi := Min(offset, Count(h));
            && (r.Some? ==> r.value + Count(n) <= hi && Occurs(Chars(h), Chars(n), r.value))
            && (forall i: nat :: i + Count(n) <= hi && (r.Some? ==> r.value < i) ==> !Occurs(Chars(h), Chars(n), i))
  {
    hide Head, WellFormed, Chars, Covering, LastMatch, Offset, ReverseFind, MatchesAt, Occurs;
    var hi := Min(offset, Count(h));
    var b := Offset(h, hi);
    ReverseFindFrom(h, n, offset);
    var r := ReverseFind(h, n, offset);
    if r.Some? {
      ReverseFoundOccurs(h, n, hi, LastMatch(h, n, b - |n|).value);
    }
    forall i: nat | i + Count(n) <= hi && (r.Some? ==> r.value < i) ensures !Occurs(Chars(h), Chars(n), i) {
      if Occurs(Chars(h), Chars(n), i) {
        OccursWithin(h, n, hi, i);
        if r.Some? {
          OffsetMonotone(h, r.value, i);
        }
        assert false;
      }
    }
  }

  /** The parts in front of and behind the found needle rebuild the string around it. */
  lemma RightAtBoundary(h: Bytes, p: nat)
    requires WellFormed(h) && p <= |h| && WellFormed(h[..p])
    ensures Right(h, Count(h[..p])) == h[p..] && Left(h, Count(h[..p])) == h[..p]
    ensures WellFormed(h[p..])
  {
    OffsetOfCount(h, p);
    SplitAt(h, p);
    NormalIsWellFormed(h[p..]);
  }

  lemma SlicesAroundMatch(h: Bytes, n: Bytes, p: nat)
    requires WellFormed(h) && WellFormed(n) && n != [] && MatchesAt(h, n, p)
    ensures Covering(h, p) + Count(n) <= Count(h)
    ensures Left(h, Covering(h, p)) == h[..p] && Right(h, Covering(h, p)) == h[p..]
    ensures Right(h, Covering(h, p) + Count(n)) == h[p + |n|..]
    ensures WellFormed(h[..p]) && WellFormed(h[p + |n|..])
  {
    hide Head, WellFormed, Chars, Offset, Covering, Left, Right;
    MatchStarts(h, n, p);
    MatchEnds(h, n, p);
    RightAtBoundary(h, p);
    RightAtBoundary(h, p + |n|);
  }

  lemma LeftAfterRebuild(h: Bytes, n: Bytes)
    requires WellFormed(h) && WellFormed(n) && n != []
    ensures Find(h, n, 0).Some? ==> LeftOf(h, n) + n + After(h, n) == h
    ensures Find(h, n, 0).None? ==> LeftOf(h, n) == [] == After(h, n)
    ensures Find(h, n, 0).Some? <==> Contains(h, n)
  {
    hide Head, WellFormed, Chars, Covering, Left, Right, FirstMatch, MatchesAt, Contains;
    FirstMatchIff(h, n);
    var p := FirstMatch(h, n, 0);
    if p.Some? {
      MatchFits(h, n);
      SlicesAroundMatch(h, n, p.value);
      MatchRebuild(h, n, p.value, LeftOf(h, n), After(h, n));
    }
  }

  lemma ReverseLeftAfterRebuild(h: Bytes, n: Bytes)
    requires WellFormed(h) && WellFormed(n) && n != []
    ensures ReverseFind(h, n, |h|).Some? ==> ReverseLeftOf(h, n) + n + ReverseAfter(h, n) == h
    ensures ReverseFind(h, n, |h|).None? ==> ReverseLeftOf(h, n) == [] == ReverseAfter(h, n)
    ensures ReverseFind(h, n, |h|).Some? <==> Contains(h, n)
  {
    hide Head, WellFormed, Chars, Covering, LastMatch, Offset, ReverseFind, MatchesAt, Contains, Normal, Right;
    ReverseFindFrom(h, n, |h|);
    OffsetAtMin(h, |h|);
    LastMatchIff(h, n);
    if |h| >= |n| {
      var p := LastMatch(h, n, |h| - |n|);
      if p.Some? {
        ReverseRebuildAt(h, n, p.value);
      }
    }
  }

  lemma ReverseRebuildAt(h: Bytes, n: Bytes, p: nat)
    requires WellFormed(h) && WellFormed(n) && n != [] && MatchesAt(h, n, p)
    requires ReverseFind(h, n, |h|) == Some(Covering(h, p))
    ensures ReverseLeftOf(h, n) + n + ReverseAfter(h, n) == h
  {
    hide Head, WellFormed, Chars, Covering, Left, Right, Offset, ReverseFind, MatchesAt;
    MatchFits(h, n);
    SlicesAroundMatch(h, n, p);
    MatchRebuild(h, n, p, ReverseLeftOf(h, n), ReverseAfter(h, n));
  }

  lemma LastMatchIff(h: Bytes, n: Bytes)
    ensures Contains(h, n) <==> |h| >= |n| && LastMatch(h, n, |h| - |n|).Some?
  {
    hide LastMatch;
    MatchFits(h, n);
  }

  lemma FirstMatchIff(h: Bytes, n: Bytes)
    ensures Contains(h, n) <==> FirstMatch(h, n, 0).Some?
  {
    hide FirstMatch;
  }

  /** Appending concatenates exactly when the receiver is all ASCII. */
  lemma AppendConcatenatesIff(a: Bytes, b: Bytes, count: nat)
    requires b != [] && count > 0
    ensures Append(a, b, count) == a + Left(b, count) <==> IsAscii(a)
  {
    CountIsSizeIff(a);
    if Count(a) == |a| {
      assert a[..|a|] == a;
    } else {
      assert |Append(a, b, count)| < |a + Left(b, count)|;
    }
  }

  // ---- slices in code points ----

  /** The first code points. */
  lemma LeftChars(h: Bytes, n: nat)
    ensures WellFormed(Left(h, n)) && Chars(Left(h, n)) == Chars(h)[..Min(n, Count(h))]
  {
    hide Head, WellFormed, Chars, Offset;
    OffsetIsLongest(h, n);
  }

  /** The code points from an index on. */
  lemma RightChars(h: Bytes, k: nat)
    requires WellFormed(h)
    ensures WellFormed(Right(h, k)) && Chars(Right(h, k)) == if k <= Count(h) then Chars(h)[k..] else []
  {
    hide Head, WellFormed, Chars, Offset, Normal;
    if k <= Count(h) {
      RestChars(h, k);
      NormalIsWellFormed(h[Offset(h, k)..]);
    } else {
      EmptyChars();
    }
  }

  lemma EmptyChars()
    ensures WellFormed([]) && Chars([]) == []
  {
  }

  lemma RestChars(h: Bytes, k: nat)
    requires WellFormed(h) && k <= Count(h)
    ensures var r := h[Offset(h, k)..]; WellFormed(r) && Chars(r) == Chars(h)[k..]
  {
    hide Head, WellFormed, Chars, Offset;
    OffsetIsLongest(h, k);
    SplitAt(h, Offset(h, k));
  }

  /** The code points of a range. */
  lemma MidChars(h: Bytes, start: nat, end: nat)
    requires WellFormed(h)
    ensures WellFormed(Mid(h, start, end))
    ensures Chars(Mid(h, start, end)) ==
            if start < end && start <= Count(h) then Chars(h)[start..Min(end, Count(h))] else []
  {
    hide Head, WellFormed, Chars, Offset, Left;
    EmptyChars();
    if start < end && start <= Count(h) {
      RestChars(h, start);
      LeftChars(h[Offset(h, start)..], end - start);
    }
  }

  /** What stands between two markers is what stands in front of the second in the text behind the first. */
  lemma BetweenIs(h: Bytes, s: Bytes, e: Bytes)
    requires WellFormed(h) && WellFormed(s) && WellFormed(e) && s != [] && e != []
    ensures Between(h, s, e) == LeftOf(After(h, s), e)
  {
    hide Head, WellFormed, Chars, Offset, FirstMatch, Covering, Left, Right, MatchesAt;
    hide Find, Between, LeftOf, After, Mid;
    FindAt(h, s);
    if FirstMatch(h, s, 0).Some? {
      BetweenAt(h, s, e, FirstMatch(h, s, 0).value);
    } else {
      NothingLeft(e);
      NotFoundParts(h, s, e);
    }
  }

  lemma FindAt(h: Bytes, n: Bytes)
    ensures Find(h, n, 0) == ToChars(h, FirstMatch(h, n, 0))
  {
    ZeroOffset(h);
  }

  lemma NotFoundParts(h: Bytes, s: Bytes, e: Bytes)
    requires Find(h, s, 0) == None
    ensures Between(h, s, e) == [] && After(h, s) == []
  {
  }

  lemma BetweenAt(h: Bytes, s: Bytes, e: Bytes, p: nat)
    requires WellFormed(h) && WellFormed(s) && WellFormed(e) && s != [] && e != []
    requires FirstMatch(h, s, 0) == Some(p)
    ensures Between(h, s, e) == LeftOf(After(h, s), e)
  {
    hide *;
    var b := p + |s|;
    AfterAt(h, s, p);
    BetweenUnfolds(h, s, e, Covering(h, p), b);
    LeftOfUnfolds(h[b..], e);
    FirstMatchBehind(h, e, b);
    if FirstMatch(h, e, b).Some? {
      BetweenFound(h, e, b, FirstMatch(h, e, b).value);
    }
  }

  lemma AfterAt(h: Bytes, s: Bytes, p: nat)
    requires WellFormed(h) && WellFormed(s) && s != [] && FirstMatch(h, s, 0) == Some(p)
    ensures var b := p + |s|;
            && b <= |h| && Find(h, s, 0) == Some(Covering(h, p)) && Offset(h, Covering(h, p) + Count(s)) == b
            && After(h, s) == h[b..] && WellFormed(h[b..])
            && WellFormed(h[..b]) && Covering(h, p) + Count(s) == Count(h[..b])
  {
    hide Head, WellFormed, Count, Offset, FirstMatch, Covering, Left, Right, MatchesAt, Find;
    MatchFits(h, s);
    SlicesAroundMatch(h, s, p);
    FindAt(h, s);
    MatchEndOffset(h, s, p);
  }

  lemma BetweenFound(h: Bytes, e: Bytes, b: nat, q: nat)
    requires WellFormed(h) && WellFormed(e) && e != [] && b <= |h| && WellFormed(h[..b]) && WellFormed(h[b..])
    requires FirstMatch(h, e, b) == Some(q)
    ensures b <= q && Mid(h, Count(h[..b]), Covering(h, q)) == Left(h[b..], Covering(h[b..], q - b))
  {
    hide Head, WellFormed, Count, Offset, FirstMatch, Covering, Left, Right, MatchesAt, Mid;
    MatchBehind(h, e, b, q);
    SlicesAroundMatch(h[b..], e, q - b);
    MidUpTo(h, e, b, q);
    assert h[b..][..q - b] == h[b..q];
  }

  lemma BetweenUnfolds(h: Bytes, s: Bytes, e: Bytes, k: nat, b: nat)
    requires Find(h, s, 0) == Some(k) && Offset(h, k + Count(s)) == b
    ensures After(h, s) == Right(h, k + Count(s))
    ensures Between(h, s, e) == match FirstMatch(h, e, b)
                                case None => []
                                case Some(q) => Mid(h, k + Count(s), Covering(h, q))
  {
    hide FirstMatch, Offset, Covering, Mid, Right;
  }

  lemma LeftOfUnfolds(h: Bytes, n: Bytes)
    ensures LeftOf(h, n) == match FirstMatch(h, n, 0) { case None => [] case Some(p) => Left(h, Covering(h, p)) }
  {
    hide FirstMatch, Covering, Left;
    FindAt(h, n);
  }

  lemma MatchBehind(h: Bytes, n: Bytes, b: nat, q: nat)
    requires b <= q && MatchesAt(h, n, q)
    ensures q + |n| <= |h| && MatchesAt(h[b..], n, q - b)
  {
    assert h[b..][q - b..q - b + |n|] == h[q..q + |n|];
  }

  lemma ZeroOffset(h: Bytes)
    ensures Offset(h, 0) == 0
  {
  }

  lemma NothingLeft(e: Bytes)
    requires e != []
    ensures LeftOf([], e) == []
  {
    assert !MatchesAt([], e, 0);
    OffsetStep([], 0);
  }

  lemma MatchEndOffset(h: Bytes, n: Bytes, p: nat)
    requires WellFormed(h) && WellFormed(n) && n != [] && MatchesAt(h, n, p)
    ensures Offset(h, Covering(h, p) + Count(n)) == p + |n| && WellFormed(h[..p + |n|])
    ensures Covering(h, p) + Count(n) == Count(h[..p + |n|])
  {
    hide Head, WellFormed, Chars, Offset, Covering, MatchesAt;
    MatchStarts(h, n, p);
    MatchEnds(h, n, p);
  }

  /** Searching behind a position is searching the rest. */
  lemma {:induction false} FirstMatchBehind(h: Bytes, n: Bytes, b: nat)
    requires b <= |h|
    ensures FirstMatch(h[b..], n, 0) ==
            match FirstMatch(h, n, b) { case None => None case Some(q) => Some(q - b) }
  {
    var r := h[b..];
    assert forall q: nat :: MatchesAt(r, n, q) <==> MatchesAt(h, n, b + q) by {
      forall q: nat ensures MatchesAt(r, n, q) <==> MatchesAt(h, n, b + q) {
        if q + |n| <= |r| {
          assert r[q..q + |n|] == h[b + q..b + q + |n|];
        }
      }
    }
    var x, y := FirstMatch(h, n, b), FirstMatch(r, n, 0);
    if x.Some? {
      assert MatchesAt(r, n, x.value - b);
    }
    if y.Some? {
      assert MatchesAt(h, n, b + y.value);
    }
  }

  lemma MidUpTo(h: Bytes, n: Bytes, b: nat, q: nat)
    requires WellFormed(h) && WellFormed(n) && n != [] && MatchesAt(h, n, q) && b <= q <= |h| && WellFormed(h[..b])
    ensures Mid(h, Count(h[..b]), Covering(h, q)) == h[b..q]
  {
    hide Head, WellFormed, Count, Offset, Covering, MatchesAt, Left;
    MatchStarts(h, n, q);
    OffsetOfCount(h, b);
    PieceCounts(h, b, q);
  }

  lemma PieceCounts(h: Bytes, b: nat, q: nat)
    requires b <= q <= |h| && WellFormed(h[..b]) && WellFormed(h[..q])
    ensures Count(h[..q]) == Count(h[..b]) + Count(h[b..q]) && Count(h[..b]) <= Count(h)
    ensures Left(h[b..], Count(h[b..q])) == h[b..q]
    ensures Count(h[b..q]) == 0 ==> h[b..q] == []
  {
    hide Head, WellFormed, Chars, Offset;
    assert h[..q][..b] == h[..b] && h[..q][b..] == h[b..q] && h[b..][..q - b] == h[b..q];
    SplitAt(h[..q], b);
    OffsetOfCount(h, b);
    OffsetOfCount(h[b..], q - b);
    ZeroOffset(h[b..]);
  }

  /** Cutting a range out leaves the two sides, exactly when nothing is behind it or the front is all ASCII. */
  lemma ReverseMidIff(h: Bytes, start: nat, end: nat)
    requires start <= end
    ensures ReverseMid(h, start, end) == Left(h, start) + Right(h, end) <==>
            Right(h, end) == [] || IsAscii(Left(h, start))
  {
    hide Head, WellFormed, Chars, Offset, Left, IsAscii;
    var a, b := Left(h, start), Right(h, end);
    RightIsWhole(h, end);
    if end < Count(h) && b != [] {
      AppendConcatenatesIff(a, b, |h|);
    } else {
      assert a + [] == a;
    }
  }

  lemma RightIsWhole(h: Bytes, k: nat)
    ensures |Right(h, k)| <= |h| && Left(Right(h, k), |h|) == Right(h, k)
    ensures k >= Count(h) ==> Right(h, k) == []
  {
    hide Head, WellFormed, Chars, Offset;
    if k <= Count(h) {
      var r := h[Offset(h, k)..];
      NormalIsWellFormed(r);
      WholeOffset(Normal(r), |h|);
      OffsetIsLongest(h, k);
      SplitAt(h, Offset(h, k));
      CountNormal(r);
    } else {
      ZeroOffset([]);
      OffsetStep([], |h|);
    }
  }

  lemma CountNormal(r: Bytes)
    ensures Count(r) == 0 ==> Normal(r) == []
  {
    hide Offset;
    OffsetStep(r, |r|);
  }
}
