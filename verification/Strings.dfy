/** The engine's mutable string: a NUL-terminated byte buffer measured in code points. */
module Strings {
  import opened Wrappers
  import opened Utf8
  import opened Walking
  import Slices
  import Arithmetic
  import Trimming

  class String {
    var m_buffer: array<Byte>
    var m_length: nat
    var m_size: nat
    var m_capacity: nat

    /** The buffer ends in a NUL at `m_size` and holds none before it. */
    ghost predicate Terminated()
      reads this, m_buffer
    {
      && m_size < m_capacity == m_buffer.Length <= UINT_MAX
      && CString(m_buffer, 0, m_buffer[..m_size])
    }

    ghost function Contents(): (s: Bytes)
      requires Terminated()
      reads this, m_buffer
    {
      m_buffer[..m_size]
    }

    /** The class invariant: terminated, and `m_length` counts the code points. */
    ghost predicate Valid()
      reads this, m_buffer
    {
      Terminated() && m_length == Count(Contents())
    }

    constructor (buf: array?<Byte>, p: nat, count: nat, ghost s: Bytes)
      requires buf != null ==> CString(buf, p, s) && |s| < UINT_MAX
      ensures Valid() && fresh(m_buffer)
      ensures Contents() == if buf == null then [] else Slices.Left(s, count)
    {
      m_buffer := new Byte[0];
      m_length, m_size, m_capacity := 0, 0, 0;
      new;
      Assign(buf, p, count, s);
    }

    /** Stores the longest decodable prefix of at most `count` code points. The source bytes may lie
        in this string's own buffer, which is then never replaced. */
    method Assign(buf: array?<Byte>, p: nat, count: nat, ghost s: Bytes)
      requires m_capacity == m_buffer.Length <= UINT_MAX
      requires buf != null ==> CString(buf, p, s) && |s| < UINT_MAX
      modifies this, m_buffer
      ensures Valid()
      ensures Contents() == if buf == null then [] else Slices.Left(s, count)
      ensures m_buffer == old(m_buffer) || fresh(m_buffer)
      ensures buf == old(m_buffer) ==> m_buffer == old(m_buffer)
    {
      var size := 0;
      if buf != null && count > 0 {
        var end := Utf8Offset(buf, p, count, s);
        size := end - p;
      }
      Realloc(size + 1, false);
      if buf != null {
        Copy(buf, p, 0, size, s);
        assert Contents() == [] + s[..size];
      } else {
        m_buffer[0] := 0;
        m_size, m_length := 0, 0;
        assert Contents() == [];
      }
    }

    method Realloc(size: nat, keep: bool)
      requires m_capacity == m_buffer.Length <= UINT_MAX && size <= UINT_MAX
      requires keep ==> Terminated()
      modifies this`m_buffer, this`m_capacity
      ensures m_capacity == m_buffer.Length <= UINT_MAX && size <= m_capacity
      ensures if size <= old(m_capacity) then m_buffer == old(m_buffer) else fresh(m_buffer)
      ensures keep ==> Terminated() && Contents() == old(Contents())
    {
      if size > m_capacity {
        var buf := new Byte[size];
        if keep {
          Duplicate(buf);
        }
        m_buffer := buf;
        m_capacity := size;
      }
    }

    method Duplicate(buf: array<Byte>)
      requires Terminated() && buf != m_buffer && m_size < buf.Length
      modifies buf
      ensures CString(buf, 0, Contents())
    {
      for i := 0 to m_size
        modifies buf
        invariant forall k :: 0 <= k < i ==> buf[k] == m_buffer[k]
      {
        buf[i] := m_buffer[i];
      }
      buf[m_size] := 0;
      assert buf[..m_size] == m_buffer[..m_size];
    }

    /** Copies forward to byte `offset`, up to `count` bytes or the terminator. */
    method Copy(buf: array<Byte>, p: nat, offset: nat, count: nat, ghost s: Bytes)
      requires CString(buf, p, s) && m_capacity == m_buffer.Length <= UINT_MAX
      requires offset + count < m_capacity && 0 !in m_buffer[..offset]
      requires buf == m_buffer ==> offset <= p
      modifies this`m_size, this`m_length, m_buffer
      ensures Valid()
      ensures Contents() == old(m_buffer[..offset]) + s[..Arithmetic.Min(count, |s|)]
    {
      var i := CopyBytes(m_buffer, buf, p, offset, count, s);
      assert 0 !in old(m_buffer[..offset]) && 0 !in s[..i];
      m_size := offset + i;
      m_buffer[m_size] := 0;
      assert m_buffer[..m_size] == old(m_buffer[..offset]) + s[..i];
      Recount();
    }

    method Recount()
      requires Terminated()
      modifies this`m_length
      ensures Valid()
    {
      m_length := Utf8Length(m_buffer, 0, UINT_MAX, Contents());
      CoveringAll(Contents(), UINT_MAX);
    }

    static method CopyBytes(dest: array<Byte>, buf: array<Byte>, p: nat, offset: nat, count: nat, ghost s: Bytes)
      returns (i: nat)
      requires CString(buf, p, s) && offset + count < dest.Length
      requires buf == dest ==> offset <= p
      modifies dest
      ensures i == Arithmetic.Min(count, |s|)
      ensures dest[..offset + i] == old(dest[..offset]) + s[..i]
    {
      hide CString;
      i := 0;
      CStringBytes(buf, p, s);
      while i < count && buf[p + i] != 0
        invariant i <= count && i <= |s|
        invariant forall k :: 0 <= k < offset ==> dest[k] == old(dest[k])
        invariant forall k :: 0 <= k < i ==> dest[offset + k] == s[k]
        invariant forall k :: p + i <= k <= p + |s| ==> buf[k] == old(buf[k])
      {
        dest[offset + i] := buf[p + i];
        i := i + 1;
      }
    }

    /** Writes a prefix of `s` behind the receiver's `m_length` bytes. */
    method Append(s: String, count: nat)
      requires Valid() && s.Valid() && (s != this ==> s.m_buffer != m_buffer)
      requires m_size + s.m_size < UINT_MAX
      modifies this, m_buffer
      ensures Valid() && (m_buffer == old(m_buffer) || fresh(m_buffer))
      ensures Contents() == if s == this then old(Contents()) else old(Slices.Append(Contents(), s.Contents(), count))
      ensures s == this || count == 0 || old(s.m_size) == 0 ==> Contents() == old(Contents())
      ensures s != this && count > 0 && old(s.m_size) > 0 ==>
                Contents() == old(Contents()[..m_length]) + old(Slices.Left(s.Contents(), count))
    {
      if this == s {
        return;
      }
      hide Offset, Head, Chars, WellFormed;
      var size := s.m_size;
      if size > 0 && count > 0 {
        ghost var t, was := s.Contents(), Contents();
        var end := Utf8Offset(s.m_buffer, 0, count, t);
        if size > end {
          size := end;
        }
        Realloc(m_size + size + 1, true);
        assert m_buffer[..m_length] == was[..m_length];
        Copy(s.m_buffer, 0, m_length, size, t);
      }
    }

    /** The code-point index of the first match at or after code point `offset`. */
    method Find(buf: array?<Byte>, offset: nat, ghost n: Bytes) returns (r: Option<nat>)
      requires Valid() && (buf != null ==> CString(buf, 0, n))
      ensures r == if buf == null then None else Slices.Find(Contents(), n, offset)
    {
      hide CString, Slices.FirstMatch, Slices.MatchesAt, Offset, Covering, Chars;
      CStringAt(m_buffer, 0, Contents(), 0);
      var start := Utf8Offset(m_buffer, 0, offset, Contents());
      if buf != null {
        var p := FindBytes(buf, start, n);
        if p.Some? {
          var k := Utf8Length(m_buffer, 0, p.value, Contents());
          return Some(k);
        }
      }
      return None;
    }

    method FindBytes(buf: array<Byte>, start: nat, ghost n: Bytes) returns (r: Option<nat>)
      requires Terminated() && CString(buf, 0, n) && start <= m_size
      ensures r == Slices.FirstMatch(Contents(), n, start)
    {
      hide CString, Slices.FirstMatch, Slices.MatchesAt, WellFormed, Head, Count;
      ghost var h := Contents();
      var offset: nat, j: nat := start, 0;
      CStringAt(buf, 0, n, 0);
      while offset + j <= m_size
        invariant j <= |n| && offset <= m_size + 1 && (buf[j] == 0 <==> j == |n|)
        invariant (j > 0 ==> offset + j <= |h|) && (offset + j <= |h| ==> h[offset..offset + j] == n[..j])
        invariant Slices.FirstMatch(h, n, start) == Slices.FirstMatch(h, n, offset)
        decreases m_size + 1 - offset, |n| - j
      {
        CStringAt(buf, 0, n, j);
        CStringAt(m_buffer, 0, h, offset + j);
        if buf[j] == 0 {
          FirstMatchStep(h, n, offset);
          return Some(offset);
        }
        if m_buffer[offset + j] == buf[j] {
          ExtendMatch(h, n, offset, j);
          j := j + 1;
          CStringAt(buf, 0, n, j);
        } else {
          NoMatch(h, n, offset, j);
          FirstMatchStep(h, n, offset);
          offset := offset + 1;
          j := 0;
          CStringAt(buf, 0, n, 0);
        }
      }
      FirstMatchStep(h, n, offset);
      return None;
    }

    method ReverseFind(buf: array?<Byte>, offset: nat, ghost n: Bytes) returns (r: Option<nat>)
      requires Valid() && (buf != null ==> CString(buf, 0, n) && |n| <= UINT_MAX)
      ensures r == if buf == null then None else Slices.ReverseFind(Contents(), n, offset)
    {
      hide CString, Slices.LastMatch, Slices.MatchesAt, Offset, Covering, Chars;
      CStringAt(m_buffer, 0, Contents(), 0);
      var start := Utf8Offset(m_buffer, 0, offset, Contents());
      if buf != null {
        var p := ReverseFindBytes(buf, start, n);
        if p.Some? {
          var k := Utf8Length(m_buffer, 0, p.value, Contents());
          return Some(k);
        }
      }
      return None;
    }

    method ReverseFindBytes(buf: array<Byte>, start: nat, ghost n: Bytes) returns (r: Option<nat>)
      requires Terminated() && CString(buf, 0, n) && |n| <= UINT_MAX && start <= m_size
      ensures var i := Offset(n, |n|);
              r == if start < i then None else Slices.LastMatch(Contents(), n, start - i)
    {
      hide CString, Slices.LastMatch, Slices.MatchesAt, Offset, WellFormed, Head, Count;
      ghost var h := Contents();
      var i := Utf8Offset(buf, 0, UINT_MAX, n);
      OffsetSaturates(n, UINT_MAX);
      OffsetSaturates(n, |n|);
      if start < i {
        return None;
      }
      var offset: nat, j: nat := start - i, 0;
      CStringAt(buf, 0, n, 0);
      while true
        invariant j <= |n| && offset + j <= |h| && (buf[j] == 0 <==> j == |n|)
        invariant h[offset..offset + j] == n[..j]
        invariant Slices.LastMatch(h, n, start - i) == Slices.LastMatch(h, n, offset)
        decreases offset, |n| - j
      {
        CStringAt(buf, 0, n, j);
        CStringAt(m_buffer, 0, h, offset + j);
        if buf[j] == 0 {
          LastMatchStep(h, n, offset);
          return Some(offset);
        }
        if m_buffer[offset + j] == buf[j] {
          ExtendMatch(h, n, offset, j);
          j := j + 1;
          CStringAt(buf, 0, n, j);
        } else {
          NoMatch(h, n, offset, j);
          LastMatchStep(h, n, offset);
          if offset == 0 {
            break;
          }
          offset := offset - 1;
          j := 0;
          CStringAt(buf, 0, n, 0);
        }
      }
      return None;
    }

    method Trim()
      requires Valid()
      modifies this, m_buffer
      ensures Valid() && (m_buffer == old(m_buffer) || fresh(m_buffer))
      ensures WellFormed(old(Contents())) ==> Contents() == Trimming.Trimmed(old(Contents()))
    {
      hide CString, WellFormed, Trimming.Trimmed, Covering, Slices.Left, Offset, Head, Chars;
      ghost var s := Contents();
      var p := TrimLeft(m_buffer, 0, s);
      var t := TrimRight(m_buffer, 0, s);
      CStringAt(m_buffer, 0, s, p);
      // an end in front of the start wraps around to a huge unsigned count
      var count := if t < p then t + UINT_MAX + 1 - p else t - p;
      var n := Utf8Length(m_buffer, p, count, s[p..]);
      var temp := new String(m_buffer, p, n, s[p..]);
      TrimmedBetween(s, p, t, count);
      LeftWhole(s[p..], n);
      AssignString(temp, UINT_MAX);
    }

    method AssignString(s: String, count: nat)
      requires m_capacity == m_buffer.Length <= UINT_MAX && s.Valid() && s.m_buffer != m_buffer
      modifies this, m_buffer
      ensures Valid() && Contents() == Slices.Left(old(s.Contents()), count)
      ensures m_buffer == old(m_buffer) || fresh(m_buffer)
    {
      Assign(s.m_buffer, 0, count, s.Contents());
    }

    method Left(length: nat) returns (r: String)
      requires Valid()
      ensures fresh(r) && fresh(r.m_buffer) && r.Valid() && r.Contents() == Slices.Left(Contents(), length)
    {
      r := new String(m_buffer, 0, length, Contents());
    }

    method Right(offset: nat) returns (r: String)
      requires Valid()
      ensures fresh(r) && fresh(r.m_buffer) && r.Valid() && r.Contents() == Slices.Right(Contents(), offset)
    {
      hide CString, Slices.Left, Offset, Chars;
      ghost var s := Contents();
      SlicePastEnd(s, offset);
      if offset > m_length {
        r := new String(null, 0, 0, []);
      } else {
        var p := Utf8Offset(m_buffer, 0, offset, s);
        CStringAt(m_buffer, 0, s, p);
        r := new String(m_buffer, p, UINT_MAX, s[p..]);
        RightFrom(s, offset);
      }
    }

    method LeftOf(n: String) returns (r: String)
      requires Valid() && n.Valid()
      ensures fresh(r) && fresh(r.m_buffer) && r.Valid() && r.Contents() == Slices.LeftOf(Contents(), n.Contents())
    {
      hide CString, Slices.Left, Slices.Right, Slices.Find, Slices.ReverseFind;
      var k := Find(n.m_buffer, 0, n.Contents());
      match k {
        case None => r := new String(null, 0, 0, []);
        case Some(i) => r := Left(i);
      }
    }

    method After(n: String) returns (r: String)
      requires Valid() && n.Valid()
      ensures fresh(r) && fresh(r.m_buffer) && r.Valid() && r.Contents() == Slices.After(Contents(), n.Contents())
    {
      hide CString, Slices.Left, Slices.Right, Slices.Find, Slices.ReverseFind;
      var k := Find(n.m_buffer, 0, n.Contents());
      match k {
        case None => r := new String(null, 0, 0, []);
        case Some(i) => r := Right(i + n.m_length);
      }
    }

    method ReverseLeftOf(n: String) returns (r: String)
      requires Valid() && n.Valid()
      ensures fresh(r) && fresh(r.m_buffer) && r.Valid()
      ensures r.Contents() == Slices.ReverseLeftOf(Contents(), n.Contents())
    {
      hide CString, Slices.Left, Slices.Right, Slices.Find, Slices.ReverseFind;
      var k := ReverseFind(n.m_buffer, UINT_MAX, n.Contents());
      ReverseFindFromEnd(Contents(), n.Contents());
      match k {
        case None => r := new String(null, 0, 0, []);
        case Some(i) => r := Left(i);
      }
    }

    method ReverseAfter(n: String) returns (r: String)
      requires Valid() && n.Valid()
      ensures fresh(r) && fresh(r.m_buffer) && r.Valid()
      ensures r.Contents() == Slices.ReverseAfter(Contents(), n.Contents())
    {
      hide CString, Slices.Left, Slices.Right, Slices.Find, Slices.ReverseFind;
      var k := ReverseFind(n.m_buffer, UINT_MAX, n.Contents());
      ReverseFindFromEnd(Contents(), n.Contents());
      match k {
        case None => r := new String(null, 0, 0, []);
        case Some(i) => r := Right(i + n.m_length);
      }
    }

    method Mid(start: nat, end: nat) returns (r: String)
      requires Valid()
      ensures fresh(r) && fresh(r.m_buffer) && r.Valid() && r.Contents() == Slices.Mid(Contents(), start, end)
    {
      hide CString, Slices.Left, Offset, Chars;
      if start < end && start <= m_length {
        var p := Utf8Offset(m_buffer, 0, start, Contents());
        CStringAt(m_buffer, 0, Contents(), p);
        r := new String(m_buffer, p, end - start, Contents()[p..]);
      } else {
        r := new String(null, 0, 0, []);
      }
    }

    method Between(s: String, e: String) returns (r: String)
      requires Valid() && s.Valid() && e.Valid()
      ensures fresh(r) && fresh(r.m_buffer) && r.Valid()
      ensures r.Contents() == Slices.Between(Contents(), s.Contents(), e.Contents())
    {
      hide CString, Slices.Mid, Slices.Find;
      var k := Find(s.m_buffer, 0, s.Contents());
      if k.Some? {
        var t := k.value + s.m_length;
        var u := Find(e.m_buffer, t, e.Contents());
        if u.Some? {
          r := Mid(t, u.value);
          return;
        }
      }
      r := new String(null, 0, 0, []);
    }

    method ReverseMid(start: nat, end: nat) returns (r: String)
      requires Valid()
      ensures fresh(r) && fresh(r.m_buffer) && r.Valid()
      ensures r.Contents() == Slices.ReverseMid(Contents(), start, end)
    {
      hide CString, Slices.Left, Slices.Right, Slices.Append, Offset, Chars;
      if start > end {
        r := new String(null, 0, 0, []);
      } else {
        r := Left(start);
        if end < m_length {
          var rightPart := Right(end);
          PartsFit(Contents(), start, end);
          r.Append(rightPart, UINT_MAX);
          AppendWhole(Slices.Left(Contents(), start), Slices.Right(Contents(), end), |Contents()|);
        }
      }
    }

    /** The self-aliasing step `right = right.get(offset)` of the slot parser. */
    method DropInPlace(offset: nat)
      requires Valid() && offset <= m_length
      modifies this, m_buffer
      ensures Valid() && m_buffer == old(m_buffer)
      ensures Contents() == Slices.Right(old(Contents()), offset)
    {
      ghost var s := Contents();
      var p := Utf8Offset(m_buffer, 0, offset, s);
      CStringAt(m_buffer, 0, s, p);
      RightFrom(s, offset);
      Assign(m_buffer, p, UINT_MAX, s[p..]);
    }

    predicate IsEmpty()
      requires Valid()
      reads this, m_buffer
    {
      m_buffer[0] == 0 || m_length == 0
    }

    method Last() returns (r: Option<Byte>)
      requires Valid()
      ensures r == if Count(Contents()) == 0 then None else Some(Contents()[m_size - 1])
    {
      CStringAt(m_buffer, 0, Contents(), 0);
      if IsEmpty() { return None; }
      return Some(m_buffer[m_size - 1]);
    }

    /** Drops the last byte; `m_length` keeps its old value, which is still right exactly when the contents did
        not decode to their end. */
    method PopBack() returns (ok: bool)
      requires Valid()
      modifies this`m_size, m_buffer
      ensures Terminated() && ok == (old(Count(Contents())) > 0)
      ensures Contents() == if ok then old(Contents()[..m_size - 1]) else old(Contents())
      ensures ok ==> (Valid() <==> !WellFormed(old(Contents())))
    {
      hide Head, WellFormed, Chars;
      CStringAt(m_buffer, 0, Contents(), 0);
      if IsEmpty() { return false; }
      ghost var was := Contents();
      m_buffer[m_size - 1] := 0;
      m_size := m_size - 1;
      assert m_buffer[..m_size] == was[..m_size];
      DroppedByteCounts(was);
      return true;
    }
  }

  lemma CStringBytes(buf: array<Byte>, p: nat, s: Bytes)
    requires CString(buf, p, s)
    ensures p + |s| < buf.Length && buf[p + |s|] == 0
    ensures forall k :: p <= k < p + |s| ==> buf[k] == s[k - p] && buf[k] != 0
  {
    forall k | p <= k < p + |s| ensures buf[k] == s[k - p] && buf[k] != 0 {
      CStringAt(buf, p, s, k - p);
    }
  }

  lemma {:induction false} CoveringAll(s: Bytes, count: nat)
    requires count >= |s|
    ensures Covering(s, count) == Count(s)
    decreases |s|
  {
    if Head(s) > 0 {
      CoveringAll(s[Head(s)..], count - Head(s));
    }
  }

  /** Copying a string that was cut at a code point changes nothing. */
  lemma LeftWhole(s: Bytes, n: nat)
    requires |s| <= UINT_MAX
    ensures Slices.Left(Slices.Left(s, n), UINT_MAX) == Slices.Left(s, n)
  {
    var t := Slices.Left(s, n);
    OffsetIsLongest(s, n);
    NormalIsWellFormed(t);
    OffsetSaturates(t, UINT_MAX);
    OffsetSaturates(t, |t|);
  }

  lemma SlicePastEnd(s: Bytes, offset: nat)
    ensures offset > Count(s) ==> Slices.Right(s, offset) == []
  {
  }

  /** A copy from code point `offset` on is the right-hand slice. */
  lemma RightFrom(s: Bytes, offset: nat)
    requires |s| <= UINT_MAX && offset <= Count(s)
    ensures Slices.Left(s[Offset(s, offset)..], UINT_MAX) == Slices.Right(s, offset)
  {
    var t := s[Offset(s, offset)..];
    OffsetSaturates(t, UINT_MAX);
    OffsetSaturates(t, |t|);
  }

  lemma PartsFit(h: Bytes, start: nat, end: nat)
    requires start <= end
    ensures |Slices.Left(h, start)| + |Slices.Right(h, end)| <= |h|
  {
    Slices.OffsetMonotone(h, start, end);
  }

  lemma AppendWhole(a: Bytes, b: Bytes, n: nat)
    requires |b| <= n && |b| <= UINT_MAX && (n == 0 ==> b == [])
    ensures Slices.Append(a, b, UINT_MAX) == Slices.Append(a, b, n)
  {
    OffsetSaturates(b, n);
    OffsetSaturates(b, UINT_MAX);
  }

  lemma ReverseFindFromEnd(h: Bytes, n: Bytes)
    requires |h| <= UINT_MAX
    ensures Slices.ReverseFind(h, n, UINT_MAX) == Slices.ReverseFind(h, n, |h|)
  {
    OffsetSaturates(h, UINT_MAX);
    OffsetSaturates(h, |h|);
  }

  lemma FirstMatchStep(h: Bytes, n: Bytes, p: nat)
    ensures p > |h| ==> Slices.FirstMatch(h, n, p) == None
    ensures p + |n| <= |h| && h[p..p + |n|] == n ==> Slices.FirstMatch(h, n, p) == Some(p)
    ensures !Slices.MatchesAt(h, n, p) ==> Slices.FirstMatch(h, n, p) == Slices.FirstMatch(h, n, p + 1)
  {
  }

  lemma LastMatchStep(h: Bytes, n: Bytes, p: nat)
    ensures p + |n| <= |h| && h[p..p + |n|] == n ==> Slices.LastMatch(h, n, p) == Some(p)
    ensures !Slices.MatchesAt(h, n, p) ==>
              Slices.LastMatch(h, n, p) == if p == 0 then None else Slices.LastMatch(h, n, p - 1)
  {
  }

  lemma ExtendMatch(h: Bytes, n: Bytes, offset: nat, j: nat)
    requires offset + j < |h| && j < |n| && h[offset..offset + j] == n[..j] && h[offset + j] == n[j]
    ensures h[offset..offset + j + 1] == n[..j + 1]
  {
    assert h[offset..offset + j + 1] == h[offset..offset + j] + [h[offset + j]];
  }

  lemma MatchIndex(h: Bytes, n: Bytes, p: nat, j: nat)
    requires Slices.MatchesAt(h, n, p) && j < |n|
    ensures p + j < |h| && h[p + j] == n[j]
  {
    assert h[p..p + |n|][j] == n[j];
  }

  lemma NoMatch(h: Bytes, n: Bytes, offset: nat, j: nat)
    requires offset + j <= |h| && j < |n| && (offset + j < |h| ==> h[offset + j] != n[j])
    ensures !Slices.MatchesAt(h, n, offset)
  {
    if Slices.MatchesAt(h, n, offset) {
      MatchIndex(h, n, offset, j);
    }
  }

  /** The count computed between the two trimming pointers selects exactly the trimmed piece. */
  lemma TrimmedBetween(s: Bytes, p: nat, t: nat, count: nat)
    requires |s| < UINT_MAX && p <= |s|
    requires WellFormed(s) ==> p == |s| - |Trimming.StripLeft(s)|
    requires var r := Trimming.StripRight(Normal(s));
             t == if r != [] then |r| else if s != [] && Head(s) == 0 then 0 else 1
    requires count == if t < p then t + UINT_MAX + 1 - p else t - p
    ensures WellFormed(s) ==> Slices.Left(s[p..], Covering(s[p..], count)) == Trimming.Trimmed(s)
  {
    if WellFormed(s) {
      NormalIsWellFormed(s);
      var l := Trimming.StripLeft(s);
      Trimming.StripLeftWellFormed(s);
      assert s[p..] == l;
      var r := Trimming.Trimmed(s);
      Trimming.StripRightWellFormed(l);
      if l != [] {
        StripBothEnds(s, p);
        assert t == p + |r|;
        CoveringBoundary(l, |r|);
        OffsetOfCount(l, |r|);
      }
    }
  }

  lemma VisibleKept(l: Bytes)
    requires l != [] && !Trimming.IsBlank(l[0])
    ensures Trimming.StripRight(l) != []
  {
    if |l| > 1 && Trimming.IsBlank(l[|l| - 1]) {
      VisibleKept(l[..|l| - 1]);
    }
  }

  lemma StripBothEnds(s: Bytes, p: nat)
    requires p < |s| && s[p..] == Trimming.StripLeft(s)
    ensures |Trimming.StripRight(s)| == p + |Trimming.Trimmed(s)|
    ensures Trimming.Trimmed(s) != []
  {
    hide Trimming.StripRight, Trimming.StripLeft;
    var r := Trimming.Trimmed(s);
    var k := p + |r|;
    VisibleKept(s[p..]);
    assert s[k..] == s[p..][|r|..];
    assert s[k - 1] == r[|r| - 1];
    Trimming.StripRightIs(s, k);
  }
}
