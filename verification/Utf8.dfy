/** The byte-level view of UTF-8 that the string engine decodes with.

    The engine's classification is looser than section 3 of RFC 3629: overlong
    forms, surrogates and F5-F7 leads are accepted, and 7F is refused. */
module Utf8 {

  type Byte = b: int | 0 <= b < 256
  type Bytes = seq<Byte>

  /** How many bytes the sequence led by `b` occupies; 0 for a byte that cannot lead one. */
  function SequenceType(b: Byte): (t: nat)
    ensures t <= 4
    ensures t > 0 ==> !IsContinuation(b)
  {
    if b < 0x7f then 1
    else if b / 32 == 0x06 then 2
    else if b / 16 == 0x0e then 3
    else if b / 8 == 0x1e then 4
    else 0
  }

  predicate IsContinuation(b: Byte) {
    b / 64 == 0x02
  }

  predicate IsAscii(s: Bytes) {
    forall i :: 0 <= i < |s| ==> s[i] < 0x7f
  }

  /** The number of bytes the decoder takes from the front of `s`, 0 when it refuses. */
  function Head(s: Bytes): (n: nat)
    ensures n <= 4 && n <= |s|
    ensures n > 0 ==> n == SequenceType(s[0]) && forall k :: 1 <= k < n ==> IsContinuation(s[k])
  {
    if s == [] then 0 else
      var t := SequenceType(s[0]);
      if t <= |s| && forall k :: 1 <= k < t ==> IsContinuation(s[k]) then t else 0
  }

  predicate WellFormed(s: Bytes) {
    s == [] || (Head(s) > 0 && WellFormed(s[Head(s)..]))
  }

  /** The code points of the longest prefix of `s` that decodes. */
  function Chars(s: Bytes): (cs: seq<Bytes>)
    ensures |cs| <= |s|
  {
    if Head(s) == 0 then [] else [s[..Head(s)]] + Chars(s[Head(s)..])
  }

  function Count(s: Bytes): (n: nat)
    ensures n <= |s|
  {
    |Chars(s)|
  }

  /** The byte offset at which decoding stops after at most `n` code points. */
  function Offset(s: Bytes, n: nat): (r: nat)
    ensures r <= |s|
  {
    if n == 0 || Head(s) == 0 then 0 else Head(s) + Offset(s[Head(s)..], n - 1)
  }

  /** The code points needed to cover the first `count` bytes of `s`. */
  function Covering(s: Bytes, count: nat): nat
    decreases |s|
  {
    if count == 0 || Head(s) == 0 then 0 else
      var t := Head(s);
      1 + Covering(s[t..], if t < count then count - t else 0)
  }

  function Flatten(cs: seq<Bytes>): Bytes {
    if cs == [] then [] else cs[0] + Flatten(cs[1..])
  }

  /** What a string object keeps of the bytes it is given. */
  function Normal(s: Bytes): Bytes {
    s[..Offset(s, |s|)]
  }

  // ---- decoding and concatenation ----

  lemma HeadOfAppend(a: Bytes, b: Bytes)
    requires Head(a) > 0
    ensures Head(a + b) == Head(a)
    ensures (a + b)[Head(a)..] == a[Head(a)..] + b
    ensures (a + b)[..Head(a)] == a[..Head(a)]
  {
    assert forall k :: 0 <= k < |a| ==> (a + b)[k] == a[k];
  }

  /** Decoding distributes over concatenation behind a well-formed prefix. */
  lemma {:induction false} CharsConcat(a: Bytes, b: Bytes)
    requires WellFormed(a)
    ensures Chars(a + b) == Chars(a) + Chars(b)
    ensures WellFormed(a + b) <==> WellFormed(b)
    decreases |a|
  {
    if a == [] {
      assert a + b == b;
    } else {
      HeadOfAppend(a, b);
      CharsConcat(a[Head(a)..], b);
    }
  }

  /** Decoding loses nothing of a well-formed string. */
  lemma {:induction false} FlattenChars(s: Bytes)
    requires WellFormed(s)
    ensures Flatten(Chars(s)) == s
    decreases |s|
  {
    if s == [] {
    } else {
      FlattenChars(s[Head(s)..]);
      assert s == s[..Head(s)] + s[Head(s)..];
    }
  }

  lemma {:induction false} FlattenConcat(a: seq<Bytes>, b: seq<Bytes>)
    ensures Flatten(a + b) == Flatten(a) + Flatten(b)
  {
    if a == [] {
      assert a + b == b;
    } else {
      assert (a + b)[1..] == a[1..] + b;
      FlattenConcat(a[1..], b);
    }
  }

  /** Self-synchronisation: inside a well-formed string the code-point boundaries are
      exactly the positions that do not hold a continuation byte. */
  lemma {:induction false} BoundaryIff(s: Bytes, i: nat)
    requires WellFormed(s) && i <= |s|
    ensures WellFormed(s[..i]) <==> (i == |s| || !IsContinuation(s[i]))
    decreases |s|
  {
    var h := Head(s);
    if i == 0 || i == |s| {
      assert s[..|s|] == s;
    } else if i < h {
      assert s[..i][0] == s[0];
    } else {
      HeadOfAppend(s[..h], s[h..i]);
      assert s[..h] + s[h..i] == s[..i];
      assert Head(s[..h]) == h by {
        assert forall k :: 0 <= k < h ==> s[..h][k] == s[k];
      }
      assert s[..i][h..] == s[h..][..i - h];
      BoundaryIff(s[h..], i - h);
    }
  }

  lemma SplitAt(s: Bytes, i: nat)
    requires i <= |s| && WellFormed(s[..i])
    ensures Chars(s) == Chars(s[..i]) + Chars(s[i..])
    ensures Count(s) == Count(s[..i]) + Count(s[i..])
    ensures WellFormed(s) <==> WellFormed(s[i..])
  {
    assert s == s[..i] + s[i..];
    CharsConcat(s[..i], s[i..]);
  }

  // ---- offsets ----

  /** `Offset` stops at the longest decodable prefix of at most `n` code points. */
  lemma OffsetIsLongest(s: Bytes, n: nat)
    ensures var r := Offset(s, n);
            && WellFormed(s[..r]) && Count(s[..r]) <= n
            && Count(s[..r]) == (if n <= Count(s) then n else Count(s))
            && Chars(s[..r]) == Chars(s)[..Count(s[..r])]
    ensures forall k :: 0 <= k <= |s| && WellFormed(s[..k]) && Count(s[..k]) <= n ==> k <= Offset(s, n)
  {
    hide Offset, WellFormed, Chars;
    OffsetDecodes(s, n);
    SplitAt(s, Offset(s, n));
    NoneLonger(s, n);
  }

  lemma OffsetStep(t: Bytes, n: nat)
    ensures n == 0 || Head(t) == 0 ==> Offset(t, n) == 0
    ensures n > 0 && Head(t) > 0 ==> Offset(t, n) == Head(t) + Offset(t[Head(t)..], n - 1)
  {
  }

  lemma {:induction false} OffsetDecodes(s: Bytes, n: nat)
    ensures WellFormed(s[..Offset(s, n)])
    ensures Count(s[..Offset(s, n)]) == if n <= Count(s) then n else Count(s)
    decreases |s|
  {
    var h, r := Head(s), Offset(s, n);
    if n == 0 || h == 0 {
    } else {
      hide Head, WellFormed, Count, Offset;
      var t := s[h..];
      OffsetStep(s, n);
      OffsetDecodes(t, n - 1);
      HeadPrefix(s, r);
      TailOfPrefix(s, h, r);
      CountStep(s);
      CountStep(s[..r]);
    }
  }

  lemma TailOfPrefix(s: Bytes, h: nat, r: nat)
    requires h <= r <= |s|
    ensures s[..r][h..] == s[h..][..r - h]
  {
  }

  lemma CountStep(s: Bytes)
    requires Head(s) > 0
    ensures Count(s) == 1 + Count(s[Head(s)..])
    ensures WellFormed(s) <==> WellFormed(s[Head(s)..])
  {
  }

  lemma NoneLonger(s: Bytes, n: nat)
    ensures forall k :: 0 <= k <= |s| && WellFormed(s[..k]) && Count(s[..k]) <= n ==> k <= Offset(s, n)
  {
    forall k | 0 <= k <= |s| && WellFormed(s[..k]) && Count(s[..k]) <= n ensures k <= Offset(s, n) {
      NoLongerPrefix(s, n, k);
    }
  }

  lemma {:induction false} NoLongerPrefix(s: Bytes, n: nat, k: nat)
    requires k <= |s| && WellFormed(s[..k]) && Count(s[..k]) <= n
    ensures k <= Offset(s, n)
    decreases |s|
  {
    if k == 0 {
    } else {
      HeadOfPrefix(s, k);
      NoLongerPrefix(s[Head(s)..], n - 1, k - Head(s));
    }
  }

  lemma HeadOfPrefix(s: Bytes, k: nat)
    requires k <= |s| && Head(s[..k]) > 0
    ensures Head(s) == Head(s[..k])
    ensures s[..k][Head(s)..] == s[Head(s)..][..k - Head(s)]
  {
    HeadOfAppend(s[..k], s[k..]);
    assert s[..k] + s[k..] == s;
  }

  lemma HeadPrefix(s: Bytes, r: nat)
    requires Head(s) <= r <= |s|
    ensures Head(s) > 0 ==> Head(s[..r]) == Head(s) && s[..r][..Head(s)] == s[..Head(s)]
  {
    if Head(s) > 0 {
      assert forall k :: 0 <= k < r ==> s[..r][k] == s[k];
    }
  }

  /** Past the last code point the offset no longer moves. */
  lemma OffsetSaturates(s: Bytes, n: nat)
    requires n >= Count(s)
    ensures Offset(s, n) == Offset(s, |s|)
  {
    OffsetIsLongest(s, n);
    OffsetIsLongest(s, |s|);
  }

  lemma NormalIsWellFormed(s: Bytes)
    ensures WellFormed(Normal(s)) && Count(Normal(s)) == Count(s)
    ensures WellFormed(s) ==> Normal(s) == s
  {
    OffsetIsLongest(s, |s|);
    assert s[..|s|] == s;
  }

  /** On a boundary, the offset of the code-point count is the boundary itself. */
  lemma OffsetOfCount(s: Bytes, i: nat)
    requires i <= |s| && WellFormed(s[..i])
    ensures Offset(s, Count(s[..i])) == i
    ensures Count(s[..i]) <= Count(s)
  {
    hide Head, WellFormed, Offset, Chars;
    var n := Count(s[..i]);
    SplitAt(s, i);
    OffsetIsLongest(s, n);
    var r := Offset(s, n);
    assert i <= r;
    assert s[..r][..i] == s[..i];
    SplitAt(s[..r], i);
    FlattenChars(s[..r][i..]);
  }

  /** On a boundary, covering `i` bytes takes exactly the code points in front of it. */
  lemma {:induction false} CoveringBoundary(s: Bytes, i: nat)
    requires i <= |s| && WellFormed(s[..i])
    ensures Covering(s, i) == Count(s[..i])
    decreases |s|
  {
    if i == 0 {
    } else {
      HeadOfPrefix(s, i);
      CoveringBoundary(s[Head(s)..], i - Head(s));
    }
  }

  lemma {:induction false} AsciiIsWellFormed(s: Bytes)
    requires IsAscii(s)
    ensures WellFormed(s) && Count(s) == |s|
    decreases |s|
  {
    if s == [] {
    } else {
      AsciiIsWellFormed(s[1..]);
    }
  }

  /** Dropping the last byte leaves the count of code points alone exactly when that byte did not decode. */
  lemma {:induction false} DroppedByteCounts(s: Bytes)
    requires Count(s) > 0
    ensures Count(s[..|s| - 1]) == Count(s) <==> !WellFormed(s)
    decreases |s|
  {
    hide Chars, Count;
    var h := Head(s);
    var t, shorter := s[h..], s[..|s| - 1];
    CountIsPositiveIff(s);
    CountStep(s);
    CountIsPositiveIff(t);
    CountIsPositiveIff(shorter);
    if t == [] {
    } else {
      HeadPrefix(s, |s| - 1);
      CountStep(shorter);
      assert shorter[h..] == t[..|t| - 1];
      if Count(t) > 0 {
        DroppedByteCounts(t);
      } else {
        CountIsPositiveIff(t[..|t| - 1]);
        NoHeadInPrefix(t, |t| - 1);
      }
    }
  }

  lemma CountIsPositiveIff(s: Bytes)
    ensures Count(s) > 0 <==> Head(s) > 0
  {
  }

  lemma NoHeadInPrefix(s: Bytes, k: nat)
    requires k <= |s| && Head(s) == 0
    ensures Head(s[..k]) == 0
  {
    if Head(s[..k]) > 0 {
      HeadOfPrefix(s, k);
    }
  }

  /** Code points and bytes count the same exactly for a string of single-byte sequences. */
  lemma {:induction false} CountIsSizeIff(s: Bytes)
    ensures Count(s) == |s| <==> IsAscii(s)
    decreases |s|
  {
    if IsAscii(s) {
      AsciiIsWellFormed(s);
    } else if Head(s) > 0 {
      CountIsSizeIff(s[Head(s)..]);
      assert s == s[..Head(s)] + s[Head(s)..];
    }
  }

  /** In an all-ASCII string code-point and byte offsets coincide. */
  lemma AsciiOffset(s: Bytes, n: nat)
    requires IsAscii(s)
    ensures Offset(s, n) == if n <= |s| then n else |s|
  {
    var k := if n <= |s| then n else |s|;
    AsciiIsWellFormed(s[..k]);
    AsciiIsWellFormed(s);
    OffsetOfCount(s, k);
    if n > |s| {
      OffsetSaturates(s, n);
      OffsetSaturates(s, |s|);
    }
  }
}
