/** The pointer-walking loops over NUL-terminated buffers. A pointer is an array and an index;
    the ghost argument names the bytes in front of the terminator. */
module Walking {
  import opened Wrappers
  import opened Utf8
  import opened Trimming

  const UINT_MAX: nat := 0xFFFF_FFFF

  ghost predicate CString(buf: array<Byte>, p: nat, s: Bytes)
    reads buf
  {
    && p + |s| < buf.Length
    && buf[p..p + |s|] == s
    && buf[p + |s|] == 0
    && 0 !in s
  }

  lemma CStringAt(buf: array<Byte>, p: nat, s: Bytes, i: nat)
    requires CString(buf, p, s) && i <= |s|
    ensures p + |s| < buf.Length && CString(buf, p + i, s[i..])
    ensures i < |s| ==> buf[p + i] == s[i] && buf[p + i] != 0
    ensures buf[p + i] == 0 ==> i == |s|
  {
    if i < |s| {
      assert buf[p + i] == buf[p..p + |s|][i];
      assert s[i] in s;
    }
  }

  lemma CStringHead(buf: array<Byte>, p: nat, s: Bytes)
    requires CString(buf, p, s)
    ensures p + |s| < buf.Length && (buf[p] == 0 <==> s == []) && (s != [] ==> buf[p] == s[0])
  {
    CStringAt(buf, p, s, 0);
  }

  lemma CStringTail(buf: array<Byte>, p: nat, s: Bytes, i: nat)
    requires CString(buf, p, s) && i <= |s|
    ensures CString(buf, p + i, s[i..])
  {
    CStringAt(buf, p, s, i);
  }

  /** Follows a sequence of the given type, refusing it at the first byte that does not continue it. */
  method SkipBytes(buf: array<Byte>, p: nat, seqType: nat, ghost s: Bytes) returns (r: Option<nat>)
    requires CString(buf, p, s) && seqType == SequenceType(buf[p])
    ensures s != [] ==> r == if Head(s) == 0 then None else Some(p + Head(s))
    ensures s == [] ==> r == Some(p + 1)
  {
    forall i: nat | i <= |s| ensures buf[p + i] == if i < |s| then s[i] else 0 {
      CStringAt(buf, p, s, i);
    }
    if seqType == 0 {
      return None;
    }
    var q := p + 1;
    if seqType >= 4 {
      if !IsContinuation(buf[q]) { return None; }
      q := q + 1;
    }
    if seqType >= 3 {
      if !IsContinuation(buf[q]) { return None; }
      q := q + 1;
    }
    if seqType >= 2 {
      if !IsContinuation(buf[q]) { return None; }
      q := q + 1;
    }
    return Some(q);
  }

  lemma CoveringStep(t: Bytes, n: nat)
    ensures n == 0 || Head(t) == 0 ==> Covering(t, n) == 0
    ensures n > 0 && Head(t) > 0 ==>
              Covering(t, n) == 1 + Covering(t[Head(t)..], if SequenceType(t[0]) < n then n - SequenceType(t[0]) else 0)
  {
  }

  lemma StripLeftStep(t: Bytes)
    ensures t != [] && WellFormed(t) ==> Head(t) > 0 && WellFormed(t[Head(t)..])
    ensures t != [] && WellFormed(t) && IsBlank(t[0]) ==> Head(t) == 1 && StripLeft(t) == StripLeft(t[1..])
    ensures t != [] && !IsBlank(t[0]) ==> StripLeft(t) == t
    ensures t == [] ==> StripLeft(t) == []
    ensures t != [] && SequenceType(t[0]) == 1 ==> Head(t) == 1
  {
  }

  /** `__utf8_offset`: where at most `offset` code points end. */
  method Utf8Offset(buf: array<Byte>, p: nat, offset: nat, ghost s: Bytes) returns (q: nat)
    requires CString(buf, p, s)
    ensures q == p + Offset(s, offset)
  {
    hide Head, Offset, CString, SequenceType, IsContinuation;
    q := p;
    var left := offset;
    OffsetStep(s, 0);
    ghost var t := s;
    CStringHead(buf, p, s);
    while buf[q] != 0
      invariant q < buf.Length && CString(buf, q, t) && (buf[q] == 0 ==> t == [])
      invariant p + Offset(s, offset) == q + Offset(t, left)
      decreases |t|
    {
      OffsetStep(t, left);
      if left == 0 { break; }
      CStringHead(buf, q, t);
      var next := SkipBytes(buf, q, SequenceType(buf[q]), t);
      if next == None { break; }
      CStringTail(buf, q, t, next.value - q);
      t := t[next.value - q..];
      q := next.value;
      left := left - 1;
      CStringHead(buf, q, t);
    }
    OffsetStep(t, left);
  }

  /** `__utf8_length`: how many code points it takes to cover `count` bytes. */
  method Utf8Length(buf: array<Byte>, p: nat, count: nat, ghost s: Bytes) returns (result: nat)
    requires CString(buf, p, s)
    ensures result == Covering(s, count)
  {
    hide Head, Covering, CString, SequenceType, IsContinuation;
    result := 0;
    var q: nat, left := p, count;
    ghost var t := s;
    CStringHead(buf, p, s);
    while buf[q] != 0 && left > 0
      invariant q < buf.Length && CString(buf, q, t) && (buf[q] == 0 ==> t == [])
      invariant Covering(s, count) == result + Covering(t, left)
      decreases |t|
    {
      CoveringStep(t, left);
      var seqType := SequenceType(buf[q]);
      var next := SkipBytes(buf, q, seqType, t);
      CStringHead(buf, q, t);
      if next == None { break; }
      left := if seqType < left then left - seqType else 0;
      result := result + 1;
      CStringTail(buf, q, t, next.value - q);
      t := t[next.value - q..];
      q := next.value;
      CStringHead(buf, q, t);
    }
    CoveringStep(t, left);
  }

  lemma TypeOfBlank(b: Byte)
    ensures IsBlank(b) <==> SequenceType(b) == 1 && !(!IsSpace(b) && IsPrint(b))
  {
  }

  method SkipInvalidSequence(buf: array<Byte>, p: nat, ghost s: Bytes) returns (q: nat)
    requires CString(buf, p, s)
    ensures p <= q <= p + |s|
    ensures s != [] && SequenceType(s[0]) == 0 ==> q > p
  {
    q := p;
    CStringAt(buf, p, s, 0);
    while buf[q] != 0
      invariant p <= q <= p + |s| && buf[q] == if q < p + |s| then s[q - p] else 0
      invariant s != [] && SequenceType(s[0]) == 0 && q == p ==> buf[q] != 0
      decreases p + |s| - q
    {
      CStringAt(buf, p, s, q - p);
      if SequenceType(buf[q]) != 0 { break; }
      q := q + 1;
      CStringAt(buf, p, s, q - p);
    }
  }

  lemma SingleHead(s: Bytes)
    ensures s != [] && SequenceType(s[0]) == 1 ==> Head(s) == 1
  {
  }

  /** Skips the sequence at `p`, or, when it is refused, everything that leads none. */
  method StepOver(buf: array<Byte>, p: nat, seqType: nat, ghost s: Bytes) returns (q: nat, ghost t: Bytes)
    requires CString(buf, p, s) && s != [] && seqType == SequenceType(buf[p])
    requires seqType <= 1
    ensures q + |t| == p + |s| && |t| < |s| && CString(buf, q, t)
    ensures Head(s) > 0 ==> t == s[Head(s)..]
  {
    hide CString, SequenceType, IsContinuation, Head;
    CStringAt(buf, p, s, 0);
    SingleHead(s);
    var next := SkipBytes(buf, p, seqType, s);
    match next {
      case None => q := SkipInvalidSequence(buf, p, s);
      case Some(end) => q := end;
    }
    CStringAt(buf, p, s, q - p);
    t := s[q - p..];
  }

  /** `__utf8_trim_left`: the first code point worth keeping. */
  method TrimLeft(buf: array<Byte>, p: nat, ghost s: Bytes) returns (q: nat)
    requires CString(buf, p, s)
    ensures p <= q <= p + |s|
    ensures WellFormed(s) ==> q == p + |s| - |StripLeft(s)|
  {
    hide Head, WellFormed, CString, SequenceType, IsContinuation, StripLeft, IsBlank, IsSpace, IsPrint;
    q := p;
    ghost var t := s;
    CStringHead(buf, p, s);
    while buf[q] != 0
      invariant p <= q && q + |t| == p + |s|
      invariant q < buf.Length && CString(buf, q, t) && (buf[q] == 0 <==> t == []) && (t != [] ==> buf[q] == t[0])
      invariant WellFormed(s) ==> WellFormed(t) && StripLeft(s) == StripLeft(t)
      decreases |t|
    {
      var seqType := SequenceType(buf[q]);
      StripLeftStep(t);
      TypeOfBlank(buf[q]);
      if seqType == 1 {
        if !IsSpace(buf[q]) && IsPrint(buf[q]) { break; }
      } else if seqType != 0 {
        break;
      }
      q, t := StepOver(buf, q, seqType, t);
      CStringHead(buf, q, t);
    }
    StripLeftStep(t);
  }

  lemma HeadWithin(s: Bytes, e: nat, i: nat)
    requires i <= e <= |s| && Head(s[i..e]) > 0
    ensures Head(s[i..]) == Head(s[i..e])
  {
    HeadOfAppend(s[i..e], s[e..]);
    assert s[i..e] + s[e..] == s[i..];
  }

  /** Where the backward scan stands: behind it lie `count` continuation bytes, then only blanks. */
  ghost predicate Scanned(w: Bytes, i: nat, count: nat) {
    && i + 1 + count <= |w|
    && (forall k :: i < k <= i + count ==> IsContinuation(w[k]))
    && (forall k :: i + count < k < |w| ==> IsBlank(w[k]))
  }

  /** A lead byte reached by the scan announces exactly the continuation bytes counted behind it. */
  lemma ScanMeetsLead(w: Bytes, i: nat, count: nat)
    requires WellFormed(w) && Scanned(w, i, count) && (i == 0 || !IsContinuation(w[i]))
    ensures Head(w[i..]) == count + 1 == SequenceType(w[i])
  {
    hide WellFormed, Head;
    BoundaryIff(w, i);
    SplitAt(w, i);
    HeadIsBoundary(w[i..]);
    var h := Head(w[i..]);
    assert forall k :: 0 <= k < |w| - i ==> w[i..][k] == w[i + k];
    assert h > count + 1 ==> IsContinuation(w[i..][count + 1]);
  }

  /** The lead bytes the backward scan accepts behind `count` continuation bytes. */
  predicate IsLead(b: Byte, count: nat) {
    (b / 32 == 0x06 && count == 1) || (b / 16 == 0x0e && count == 2) || (b / 8 == 0x1e && count == 3)
  }

  lemma NoOtherByte(b: Byte, count: nat)
    requires b >= 0x7f && !IsContinuation(b) && SequenceType(b) == count + 1
    ensures IsLead(b, count)
  {
  }

  lemma LeadIsNotBlank(b: Byte)
    ensures b >= 0x7f ==> !IsBlank(b)
    ensures b < 0x7f ==> !IsContinuation(b)
    ensures forall count: nat :: IsLead(b, count) ==> !IsBlank(b) && !IsContinuation(b)
  {
  }

  lemma StripRightOfNothing()
    ensures StripRight([]) == []
  {
  }

  lemma NothingDecodes(s: Bytes)
    requires s != [] && Normal(s) == []
    ensures Head(s) == 0
  {
  }

  lemma HeadIsBoundary(t: Bytes)
    requires WellFormed(t) && t != []
    ensures Head(t) > 0
    ensures Head(t) < |t| ==> !IsContinuation(t[Head(t)])
  {
    HeadPrefix(t, Head(t));
    BoundaryIff(t, Head(t));
  }

  lemma ScanStep(w: Bytes, i: nat, count: nat)
    requires WellFormed(w) && Scanned(w, i, count) && i > 0
    ensures IsContinuation(w[i]) ==> Scanned(w, i - 1, count + 1)
    ensures w[i] < 0x7f ==> count == 0
    ensures IsBlank(w[i]) ==> Scanned(w, i - 1, count)
    ensures !IsContinuation(w[i]) ==> SequenceType(w[i]) == count + 1
  {
    if !IsContinuation(w[i]) {
      ScanMeetsLead(w, i, count);
    }
  }

  /** Where the scan stopped, the code point under it is the last one kept. */
  lemma ScanEnds(s: Bytes, i: nat, count: nat)
    requires Normal(s) != [] && Scanned(Normal(s), i, count)
    requires i == 0 || (!IsContinuation(s[i]) && !IsBlank(s[i]))
    ensures i < |s| && Head(s[i..]) == count + 1
    ensures StripRight(Normal(s)) == if IsBlank(s[i]) then [] else s[..i + 1 + count]
    ensures IsBlank(s[i]) ==> count == 0 == i
  {
    hide WellFormed, Head, StripRight;
    var w := Normal(s);
    NormalIsWellFormed(s);
    ScanMeetsLead(w, i, count);
    HeadWithin(s, |w|, i);
    if IsBlank(s[i]) {
      StripRightIs(w, 0);
    } else {
      StripRightIs(w, i + 1 + count);
      assert w[..i + 1 + count] == s[..i + 1 + count];
    }
  }

  /** `__utf8_trim_right`: scans back over the decodable prefix for the last code point worth keeping.
      When it finds none, it answers the end of the first code point. */
  method TrimRight(buf: array<Byte>, p: nat, ghost s: Bytes) returns (q: nat)
    requires CString(buf, p, s) && |s| <= UINT_MAX
    ensures var r := StripRight(Normal(s));
            q == if r != [] then p + |r| else if s != [] && Head(s) == 0 then p else p + 1
  {
    hide WellFormed, Head, StripRight, CString, SequenceType, IsContinuation, Offset, Normal, Scanned;
    var count := 0;
    ghost var w := Normal(s);
    NormalIsWellFormed(s);
    q := Utf8Offset(buf, p, UINT_MAX, s);
    NormalEnds(s);
    ScanBegins(w);
    if q != p {
      q := q - 1;
    }
    CStringAt(buf, p, s, q - p);
    while q > p
      invariant p <= q <= p + |s| && (w == [] ==> q == p) && (w != [] ==> q < p + |w|)
      invariant p + |s| < buf.Length && (q < p + |s| ==> buf[q] == s[q - p])
      invariant w != [] ==> Scanned(w, q - p, count)
      decreases q - p
    {
      CStringAt(buf, p, s, q - p - 1);
      ScanStep(w, q - p, count);
      TypeOfBlank(buf[q]);
      if buf[q] < 0x7f {
        if !IsSpace(buf[q]) && IsPrint(buf[q]) { break; }
      } else if IsContinuation(buf[q]) {
        count := count + 1;
      } else if IsLead(buf[q], count) {
        break;
      } else {
        NoOtherByte(buf[q], count);
        assert false;
      }
      if q > p {
        q := q - 1;
      }
    }
    LeadIsNotBlank(buf[q]);
    q := EndOfKept(buf, p, q, count, s);
  }

  lemma NormalEnds(s: Bytes)
    requires |s| <= UINT_MAX
    ensures Offset(s, UINT_MAX) == |Normal(s)| <= |s|
    ensures forall i :: 0 <= i < |Normal(s)| ==> Normal(s)[i] == s[i]
  {
    hide Offset;
    OffsetSaturates(s, UINT_MAX);
  }

  lemma ScanBegins(w: Bytes)
    requires WellFormed(w)
    ensures w != [] ==> Scanned(w, |w| - 1, 0)
  {
  }

  /** The end of `__utf8_trim_right`: steps over the sequence the scan stopped at. */
  method EndOfKept(buf: array<Byte>, p: nat, at: nat, ghost count: nat, ghost s: Bytes) returns (q: nat)
    requires CString(buf, p, s) && p <= at <= p + |s|
    requires Normal(s) == [] ==> at == p
    requires Normal(s) != [] ==> at < p + |s| && Scanned(Normal(s), at - p, count)
    requires Normal(s) != [] && at > p ==> !IsContinuation(buf[at]) && !IsBlank(buf[at])
    ensures var r := StripRight(Normal(s));
            q == if r != [] then p + |r| else if s != [] && Head(s) == 0 then p else p + 1
  {
    hide WellFormed, Head, StripRight, CString, SequenceType, IsContinuation, Offset, Scanned, IsBlank, Normal;
    CStringAt(buf, p, s, at - p);
    StripRightOfNothing();
    if Normal(s) != [] {
      ScanEnds(s, at - p, count);
    } else if s != [] {
      NothingDecodes(s);
    }
    ghost var t := s[at - p..];
    assert at == p ==> t == s;
    var next := SkipBytes(buf, at, SequenceType(buf[at]), t);
    match next {
      case Some(end) => q := end;
      case None => q := p;
    }
  }
}
