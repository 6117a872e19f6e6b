/** What trimming means: blanks are single bytes, so both ends are stripped bytewise,
    and no code point is ever cut in two. */
module Trimming {
  import opened Utf8

  /** `isspace` in the C locale. */
  predicate IsSpace(b: Byte) {
    b == 0x20 || 0x09 <= b <= 0x0d
  }

  /** `isprint` in the C locale. */
  predicate IsPrint(b: Byte) {
    0x20 <= b <= 0x7e
  }

  /** A single-byte code point that trimming removes. */
  predicate IsBlank(b: Byte) {
    b < 0x7f && !(!IsSpace(b) && IsPrint(b))
  }

  /** Exactly the bytes up to the space are blank. */
  lemma BlankIffLow(b: Byte)
    ensures IsBlank(b) <==> b <= 32
  {
  }

  predicate AllBlank(s: Bytes) {
    forall i :: 0 <= i < |s| ==> IsBlank(s[i])
  }

  function StripLeft(s: Bytes): (r: Bytes)
    ensures |r| <= |s| && r == s[|s| - |r|..] && AllBlank(s[..|s| - |r|])
    ensures r != [] ==> !IsBlank(r[0])
  {
    if s != [] && IsBlank(s[0]) then
      var r := StripLeft(s[1..]);
      assert s[..|s| - |r|] == [s[0]] + s[1..][..|s| - 1 - |r|];
      r
    else s
  }

  function StripRight(s: Bytes): (r: Bytes)
    ensures |r| <= |s| && r == s[..|r|] && AllBlank(s[|r|..])
    ensures r != [] ==> !IsBlank(r[|r| - 1])
  {
    if s != [] && IsBlank(s[|s| - 1]) then StripRight(s[..|s| - 1]) else s
  }

  function Trimmed(s: Bytes): Bytes {
    StripRight(StripLeft(s))
  }

  /** A code point that trimming keeps: one of several bytes, or a printable non-space. */
  predicate VisibleChar(c: Bytes) {
    |c| > 1 || (|c| == 1 && !IsBlank(c[0]))
  }

  lemma {:induction false} StripRightIs(s: Bytes, k: nat)
    requires k <= |s| && AllBlank(s[k..]) && (k > 0 ==> !IsBlank(s[k - 1]))
    ensures StripRight(s) == s[..k]
  {
    if k < |s| {
      assert IsBlank(s[k..][|s| - 1 - k]);
      assert s[..|s| - 1][k..] == s[k..][..|s| - 1 - k];
      StripRightIs(s[..|s| - 1], k);
      assert s[..|s| - 1][..k] == s[..k];
    } else {
      assert s[..k] == s;
    }
  }

  lemma {:induction false} StripLeftWellFormed(s: Bytes)
    requires WellFormed(s)
    ensures WellFormed(StripLeft(s))
  {
    if s != [] && IsBlank(s[0]) {
      assert Head(s) == 1;
      StripLeftWellFormed(s[1..]);
    }
  }

  lemma StripRightWellFormed(s: Bytes)
    requires WellFormed(s)
    ensures WellFormed(StripRight(s))
  {
    var k := |StripRight(s)|;
    if k < |s| {
      assert IsBlank(s[k..][0]);
    }
    BoundaryIff(s, k);
  }

  /** Trimming keeps a string well-formed, removes only blanks, and leaves a visible code point
      at either end: the result is the largest such piece. */
  lemma TrimmedIsMaximal(s: Bytes)
    requires WellFormed(s)
    ensures var r := Trimmed(s);
            && WellFormed(r)
            && (r != [] ==> VisibleChar(Chars(r)[0]) && VisibleChar(Chars(r)[Count(r) - 1]))
    ensures exists a, b :: s == a + Trimmed(s) + b && AllBlank(a) && AllBlank(b)
  {
    hide StripLeft, StripRight, WellFormed;
    var l := StripLeft(s);
    var r := StripRight(l);
    StripLeftWellFormed(s);
    StripRightWellFormed(l);
    Framed(s, s[..|s| - |l|], r, l[|r|..]);
    if r != [] {
      EndsVisible(r);
    }
  }

  lemma Framed(s: Bytes, a: Bytes, r: Bytes, b: Bytes)
    requires |a| + |r| + |b| == |s| && a == s[..|a|] && r + b == s[|a|..]
    ensures s == a + r + b
  {
    assert a + (r + b) == s;
  }

  lemma EndsVisible(r: Bytes)
    requires WellFormed(r) && r != [] && !IsBlank(r[0]) && !IsBlank(r[|r| - 1])
    ensures Count(r) > 0 && VisibleChar(Chars(r)[0]) && VisibleChar(Chars(r)[Count(r) - 1])
  {
    LastChar(r);
  }

  /** Any other piece framed by blanks whose ends are visible is the same piece. */
  lemma TrimmedIsUnique(s: Bytes, a: Bytes, r: Bytes, b: Bytes)
    requires s == a + r + b && AllBlank(a) && AllBlank(b)
    requires r != [] ==> !IsBlank(r[0]) && !IsBlank(r[|r| - 1])
    ensures Trimmed(s) == r
  {
    hide StripLeft, StripRight;
    var t := r + b;
    assert s == a + t;
    StripLeftPrefix(a, t);
    if r == [] {
      assert t == b + [];
      StripLeftPrefix(b, []);
      assert StripLeft([]) == [];
    } else {
      StripRightTail(r, b);
    }
  }

  lemma StripRightTail(r: Bytes, b: Bytes)
    requires r != [] && !IsBlank(r[0]) && !IsBlank(r[|r| - 1]) && AllBlank(b)
    ensures StripRight(StripLeft(r + b)) == r
  {
    var t := r + b;
    assert t[0] == r[0] && t[|r| - 1] == r[|r| - 1] && t[|r|..] == b && t[..|r|] == r;
    StripRightIs(t, |r|);
  }

  lemma {:induction false} StripLeftPrefix(a: Bytes, t: Bytes)
    requires AllBlank(a)
    ensures StripLeft(a + t) == StripLeft(t)
    decreases |a|
  {
    if a == [] {
      assert a + t == t;
    } else {
      assert (a + t)[1..] == a[1..] + t;
      StripLeftPrefix(a[1..], t);
    }
  }

  lemma {:induction false} LastChar(s: Bytes)
    requires WellFormed(s) && s != [] && !IsBlank(s[|s| - 1])
    ensures VisibleChar(Chars(s)[Count(s) - 1])
    decreases |s|
  {
    var t := s[Head(s)..];
    if t == [] {
    } else {
      LastChar(t);
      assert Chars(s)[1..] == Chars(t);
    }
  }

  lemma TrimmedIdempotent(s: Bytes)
    ensures Trimmed(Trimmed(s)) == Trimmed(s)
  {
    var r := Trimmed(s);
    if r != [] {
      assert r[0] == StripLeft(s)[0];
      StripRightIs(r, |r|);
    }
  }
}
