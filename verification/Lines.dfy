/** Splitting command output into lines, cleaning mdadm's messages, and the last-error text. */
module Lines {
  import opened Wrappers
  import opened Utf8
  import opened Slices
  import opened Arithmetic
  import opened Trimming
  import opened Selection

  /** The bytes of an ASCII literal. */
  function Ascii(s: string): (b: Bytes)
    requires forall i :: 0 <= i < |s| ==> s[i] < 127 as char
    ensures |b| == |s| && IsAscii(b)
    ensures forall i :: 0 <= i < |s| ==> b[i] == s[i] as int
  {
    seq(|s|, i requires 0 <= i < |s| => s[i] as int)
  }

  const NEWLINE: Bytes := [10]
  const SPACE: Bytes := [32]
  const DOT: Byte := 46
  const ABORTING: Bytes := Ascii(" Aborting...")

  // ---- splitting ----

  /** The number of bytes in front of the first newline. */
  function LineEnd(s: Bytes): (n: nat)
    ensures n <= |s| && 10 !in s[..n]
    ensures n < |s| ==> s[n] == 10
  {
    if s == [] || s[0] == 10 then 0 else
      assert forall k :: 0 < k < |s| ==> s[k] == s[1..][k - 1];
      1 + LineEnd(s[1..])
  }

  /** The newline-terminated segments; what follows the last newline is dropped. */
  function Segments(s: Bytes): seq<Bytes>
    decreases |s|
  {
    var n := LineEnd(s);
    if n == |s| then [] else [s[..n]] + Segments(s[n + 1..])
  }

  function Terminate(lines: seq<Bytes>): Bytes {
    if lines == [] then [] else lines[0] + [10] + Terminate(lines[1..])
  }

  /** The trimmed segments, without the blank ones. */
  function Kept(segments: seq<Bytes>): seq<Bytes> {
    if segments == [] then [] else
      var line := Trimmed(segments[0]);
      (if line == [] then [] else [line]) + Kept(segments[1..])
  }

  /** Segments are what the output was terminated from: together with an unterminated tail they
      rebuild it, and none contains a newline. */
  lemma {:induction false} SegmentsRebuild(s: Bytes)
    ensures Terminate(Segments(s)) <= s
    ensures 10 !in s[|Terminate(Segments(s))|..]
    ensures forall line :: line in Segments(s) ==> 10 !in line
    decreases |s|
  {
    hide LineEnd, Terminate;
    var n := LineEnd(s);
    if n == |s| {
      assert s[..n] == s;
      TerminateNone();
    } else {
      var rest := s[n + 1..];
      SegmentsRebuild(rest);
      TerminateStep(s[..n], Segments(rest));
      PrefixBehind(s, n, Terminate(Segments(rest)));
    }
  }

  /** Terminated lines are split into themselves. */
  lemma {:induction false} TerminatedSplits(lines: seq<Bytes>)
    requires forall line :: line in lines ==> 10 !in line
    ensures Segments(Terminate(lines)) == lines
  {
    hide LineEnd;
    if lines == [] {
      NothingEnds();
    } else {
      var rest := Terminate(lines[1..]);
      LineEndOf(lines[0], rest);
      TerminatedSplits(lines[1..]);
      assert Terminate(lines)[|lines[0]| + 1..] == rest && Terminate(lines)[..|lines[0]|] == lines[0];
    }
  }

  lemma NothingEnds()
    ensures LineEnd([]) == 0 && Terminate([]) == [] && Segments([]) == []
  {
  }

  lemma LineEndOf(m: Bytes, b: Bytes)
    requires 10 !in m
    ensures LineEnd(m + NEWLINE + b) == |m|
  {
    var s := m + NEWLINE + b;
    assert s[|m|] == 10;
    assert s[..|m|] == m;
    LineEndUnique(s, |m|);
  }

  lemma {:induction false} LineEndUnique(s: Bytes, n: nat)
    requires n < |s| && 10 !in s[..n] && s[n] == 10
    ensures LineEnd(s) == n
  {
    if n == 0 {
    } else {
      assert s[0] in s[..n];
      assert s[1..][..n - 1] == s[..n][1..];
      LineEndUnique(s[1..], n - 1);
    }
  }

  lemma TerminateNone()
    ensures Terminate([]) == []
  {
  }

  lemma TerminateStep(line: Bytes, lines: seq<Bytes>)
    ensures Terminate([line] + lines) == line + NEWLINE + Terminate(lines)
  {
    assert ([line] + lines)[1..] == lines;
  }

  lemma PrefixBehind(s: Bytes, n: nat, t: Bytes)
    requires n < |s| && s[n] == 10 && t <= s[n + 1..]
    ensures s[..n] + NEWLINE + t <= s
    ensures s[|s[..n] + NEWLINE + t|..] == s[n + 1..][|t|..]
  {
    assert s == s[..n] + NEWLINE + s[n + 1..];
  }

  lemma {:induction false} NewlineMatch(s: Bytes, from: nat)
    requires from <= |s|
    ensures FirstMatch(s, NEWLINE, from) ==
            if LineEnd(s[from..]) == |s| - from then None else Some(from + LineEnd(s[from..]))
    decreases |s| - from
  {
    if from < |s| {
      assert s[from..from + 1] == [s[from]];
      if s[from] != 10 {
        NewlineMatch(s, from + 1);
        assert s[from..][1..] == s[from + 1..];
      }
    }
  }

  /** One turn of the splitting loop: from boundary `b`, the next newline ends the first segment. */
  lemma SplitTurn(s: Bytes, b: nat, pos: nat)
    requires WellFormed(s) && b <= |s| && WellFormed(s[..b]) && pos == Count(s[..b])
    ensures var n := LineEnd(s[b..]);
            && Offset(s, pos) == b && pos <= Count(s)
            && (b + n == |s| <==> Find(s, NEWLINE, pos) == None)
            && (b + n < |s| ==>
                  && Find(s, NEWLINE, pos).Some?
                  && var next := Find(s, NEWLINE, pos).value;
                  && pos <= next
                  && Left(s[b..], next - pos) == s[b..b + n]
                  && WellFormed(s[b..b + n])
                  && WellFormed(s[..b + n + 1]) && Count(s[..b + n + 1]) == next + 1
                  && Segments(s[b..]) == [s[b..b + n]] + Segments(s[b + n + 1..]))
  {
    hide Head, WellFormed, Chars, Offset, Covering, FirstMatch, MatchesAt, Left, LineEnd, Segments;
    OffsetOfCount(s, b);
    NewlineMatch(s, b);
    var n := LineEnd(s[b..]);
    SegmentsStep(s[b..]);
    if b + n < |s| {
      var p := b + n;
      NewlineIsWellFormed();
      NewlineAt(s, p);
      MatchStarts(s, NEWLINE, p);
      MatchEnds(s, NEWLINE, p);
      CountMonotone(s, b, p);
      PieceBetween(s, b, p);
      assert s[b..][n + 1..] == s[p + 1..];
      assert s[b..][..n] == s[b..p];
    }
  }

  lemma SegmentsStep(s: Bytes)
    ensures var n := LineEnd(s);
            Segments(s) == if n == |s| then [] else [s[..n]] + Segments(s[n + 1..])
  {
    hide LineEnd;
  }

  lemma NewlineAt(s: Bytes, p: nat)
    requires p < |s| && s[p] == 10
    ensures MatchesAt(s, NEWLINE, p)
  {
    assert s[p..p + 1] == [s[p]];
  }

  lemma NewlineIsWellFormed()
    ensures WellFormed(NEWLINE) && Count(NEWLINE) == 1
  {
    AsciiIsWellFormed(NEWLINE);
  }

  lemma PieceBetween(s: Bytes, b: nat, p: nat)
    requires b <= p <= |s| && WellFormed(s[..b]) && WellFormed(s[..p])
    ensures WellFormed(s[b..p])
    ensures Count(s[..p]) == Count(s[..b]) + Count(s[b..p])
    ensures Left(s[b..], Count(s[b..p])) == s[b..p]
  {
    hide Head, WellFormed, Chars, Offset;
    assert s[..p][..b] == s[..b] && s[..p][b..] == s[b..p];
    SplitAt(s[..p], b);
    assert s[b..][..p - b] == s[b..p];
    OffsetOfCount(s[b..], p - b);
  }

  /** `splitStringToLines` with its default separator. */
  method SplitStringToLines(output: Bytes) returns (lines: seq<Bytes>)
    requires WellFormed(output)
    ensures lines == Kept(Segments(output))
    ensures forall line :: line in lines ==> line != [] && WellFormed(line)
    ensures Selects(AllTrimmed(Segments(output)), (line: Bytes) => line != [], lines)
  {
    hide Head, WellFormed, Chars, Offset, Find, Left, Segments, LineEnd, Trimmed, Kept;
    lines := [];
    var pos := 0;
    ghost var b := 0;
    assert output[0..] == output && output[..0] == [];
    EmptyText();
    SplitTurn(output, 0, 0);
    while Find(output, NEWLINE, pos).Some?
      invariant b <= |output| && WellFormed(output[..b]) && pos == Count(output[..b])
      invariant lines + Kept(Segments(output[b..])) == Kept(Segments(output))
      invariant forall line :: line in lines ==> line != [] && WellFormed(line)
      decreases |output| - b
    {
      SplitTurn(output, b, pos);
      var next := Find(output, NEWLINE, pos).value;
      ghost var end := b + LineEnd(output[b..]);
      var line := Left(output[Offset(output, pos)..], next - pos);
      KeptStep(output[b..end], Segments(output[end + 1..]));
      line := Trimmed(line);
      if line != [] {
        lines := lines + [line];
      }
      pos := next + 1;
      b := end + 1;
    }
    SplitTurn(output, b, pos);
    NoSegments(output[b..]);
    KeptAreSelected(Segments(output));
  }

  function AllTrimmed(segments: seq<Bytes>): seq<Bytes> {
    seq(|segments|, i requires 0 <= i < |segments| => Trimmed(segments[i]))
  }

  /** The lines kept are the trimmed segments that are not empty, in order. */
  lemma {:induction false} KeptAreSelected(segments: seq<Bytes>)
    ensures Selects(AllTrimmed(segments), (line: Bytes) => line != [], Kept(segments))
  {
    hide Trimmed, Selects;
    var picked := (line: Bytes) => line != [];
    if segments == [] {
      SelectsNothing(picked);
    } else {
      KeptAreSelected(segments[1..]);
      SelectsBefore(AllTrimmed(segments[1..]), picked, Kept(segments[1..]), Trimmed(segments[0]));
      assert AllTrimmed(segments) == [Trimmed(segments[0])] + AllTrimmed(segments[1..]);
    }
  }

  lemma KeptStep(segment: Bytes, segments: seq<Bytes>)
    requires WellFormed(segment)
    ensures WellFormed(Trimmed(segment))
    ensures Kept([segment] + segments) == (if Trimmed(segment) == [] then [] else [Trimmed(segment)]) + Kept(segments)
  {
    hide WellFormed, Trimmed;
    TrimmedIsMaximal(segment);
    assert ([segment] + segments)[1..] == segments;
  }

  lemma EmptyText()
    ensures WellFormed([]) && Count([]) == 0
  {
  }

  lemma NoSegments(s: Bytes)
    requires LineEnd(s) == |s|
    ensures Kept(Segments(s)) == []
  {
  }

  // ---- removing words ----

  /** Cuts one occurrence of `w` out of `line`, as the assignment through a string object does. */
  function Cut(line: Bytes, w: Bytes, at: nat): Bytes {
    Normal(ReverseMid(line, at, at + Count(w)))
  }

  lemma CutShrinks(line: Bytes, w: Bytes)
    requires WellFormed(line) && WellFormed(w) && w != [] && Find(line, w, 0).Some?
    ensures var c := Cut(line, w, Find(line, w, 0).value);
            WellFormed(c) && |c| < |line|
  {
    hide Head, WellFormed, Chars, Offset, Covering, Left, Right, Normal, Append, FirstMatch, MatchesAt;
    OffsetAtZero(line);
    var p := FirstMatch(line, w, 0).value;
    MatchFits(line, w);
    SlicesAroundMatch(line, w, p);
    var k := Covering(line, p);
    NormalNoLonger(ReverseMid(line, k, k + Count(w)));
    AppendNoLonger(line[..p], line[p + |w|..], |line|);
  }

  lemma OffsetAtZero(s: Bytes)
    ensures Offset(s, 0) == 0
  {
  }

  lemma AppendNoLonger(a: Bytes, b: Bytes, n: nat)
    ensures |Append(a, b, n)| <= |a| + |b|
  {
  }

  lemma NormalNoLonger(s: Bytes)
    ensures WellFormed(Normal(s)) && |Normal(s)| <= |s|
  {
    NormalIsWellFormed(s);
  }

  /** Cuts `w` until it no longer occurs. */
  function RemoveAll(line: Bytes, w: Bytes): (r: Bytes)
    requires WellFormed(line) && WellFormed(w) && w != []
    ensures WellFormed(r) && |r| <= |line|
    ensures !Contains(r, w)
    ensures r == line <==> !Contains(line, w)
    decreases |line|
  {
    LeftAfterRebuild(line, w);
    match Find(line, w, 0)
    case None => line
    case Some(k) =>
      CutShrinks(line, w);
      RemoveAll(Cut(line, w, k), w)
  }

  function Word(i: nat): (w: Bytes)
    requires i < 3
    ensures WellFormed(w) && w != [] && IsAscii(w)
  {
    var w := if i == 0 then Ascii("mdadm: ") else if i == 1 then Ascii("mdmon: ") else Ascii(" Aborting...");
    AsciiIsWellFormed(w);
    w
  }

  function Clean(line: Bytes, words: nat): (r: Bytes)
    requires WellFormed(line) && words <= 3
    ensures WellFormed(r)
  {
    if words == 0 then line else RemoveAll(Clean(line, words - 1), Word(words - 1))
  }

  lemma LastWord()
    ensures Word(2) == ABORTING
  {
  }

  predicate AllWellFormed(lines: seq<Bytes>) {
    forall i :: 0 <= i < |lines| ==> WellFormed(lines[i])
  }

  function Cleaned(lines: seq<Bytes>): (r: seq<Bytes>)
    requires AllWellFormed(lines)
  {
    if lines == [] then [] else
      var line := Clean(lines[0], 3);
      (if line == [] then [] else [line]) + Cleaned(lines[1..])
  }

  lemma {:induction false} CleanedLeavesNone(lines: seq<Bytes>)
    requires AllWellFormed(lines)
    ensures forall i :: 0 <= i < |Cleaned(lines)| ==>
              var line := Cleaned(lines)[i];
              line != [] && WellFormed(line) && !Contains(line, ABORTING)
  {
    hide WellFormed, RemoveAll, Contains, Word;
    if lines == [] {
    } else {
      CleanedLeavesNone(lines[1..]);
      assert Clean(lines[0], 3) == RemoveAll(Clean(lines[0], 2), Word(2));
      LastWord();
    }
  }

  lemma {:induction false} CleanedConcat(a: seq<Bytes>, b: seq<Bytes>)
    requires AllWellFormed(a) && AllWellFormed(b)
    ensures AllWellFormed(a + b) && Cleaned(a + b) == Cleaned(a) + Cleaned(b)
  {
    hide WellFormed, Clean;
    if a == [] {
      assert a + b == b;
    } else {
      assert (a + b)[1..] == a[1..] + b;
      CleanedConcat(a[1..], b);
    }
  }

  /** On an ASCII line a cut removes exactly the matched bytes. */
  lemma CutIsExact(line: Bytes, w: Bytes)
    requires IsAscii(line) && IsAscii(w) && w != [] && FirstMatch(line, w, 0).Some?
    ensures var p := FirstMatch(line, w, 0).value;
            && Find(line, w, 0) == Some(p)
            && Cut(line, w, p) == line[..p] + line[p + |w|..]
  {
    hide Head, WellFormed, Chars, Offset, Covering, FirstMatch, MatchesAt, Append, Left, Right, Normal;
    var p := FirstMatch(line, w, 0).value;
    MatchFits(line, w);
    var left, right := line[..p], line[p + |w|..];
    AsciiOffset(line, 0);
    AsciiIsWellFormed(line);
    AsciiIsWellFormed(w);
    AsciiIsWellFormed(left);
    MatchStarts(line, w, p);
    SlicesAroundMatch(line, w, p);
    AppendAscii(left, right, |line|);
    AsciiIsWellFormed(left + right);
    NormalIsWellFormed(left + right);
    if p + |w| == |line| {
      assert left + right == left;
    }
  }

  lemma AppendAscii(a: Bytes, b: Bytes, count: nat)
    requires IsAscii(a) && IsAscii(b) && count >= |b|
    ensures Append(a, b, count) == a + b
  {
    hide Chars, Head;
    AsciiIsWellFormed(a);
    AsciiOffset(b, count);
    assert a[..|a|] == a && b[..|b|] == b;
  }

  /** `mdadmErrorLines`: cleans the lines in place, erasing those left empty. */
  method MdadmErrorLines(output: Bytes) returns (lines: seq<Bytes>)
    requires WellFormed(output)
    ensures AllWellFormed(Kept(Segments(output))) && lines == Cleaned(Kept(Segments(output)))
    ensures forall line :: line in lines ==> line != [] && !Contains(line, ABORTING)
  {
    hide WellFormed, Head, RemoveAll, Contains, Word, Find, Cut, Clean, Segments, Trimmed, Cleaned, Kept;
    lines := SplitStringToLines(output);
    CleanedNothing();
    ghost var all := lines;
    var iter := 0;
    assert all[..0] == [] && all[0..] == all;
    ghost var done := 0;
    while iter < |lines|
      invariant done <= |all| && AllWellFormed(all) && iter <= |lines| && AllWellFormed(lines)
      invariant lines[..iter] == Cleaned(all[..done])
      invariant lines[iter..] == all[done..]
      decreases |lines| - iter
    {
      assert lines[iter] == lines[iter..][0] == all[done];
      var line := CleanLine(lines[iter]);
      CleanedConcat(all[..done], [all[done]]);
      assert all[..done + 1] == all[..done] + [all[done]];
      CleanedOne(all[done]);
      assert lines[iter + 1..] == all[done + 1..];
      if line == [] {
        lines := lines[..iter] + lines[iter + 1..];
      } else {
        lines := lines[iter := line];
        iter := iter + 1;
      }
      done := done + 1;
    }
    assert all[..done] == all && lines[..iter] == lines;
    CleanedLeavesNone(all);
  }

  lemma CleanedNothing()
    ensures Cleaned([]) == []
  {
  }

  lemma CleanedOne(line: Bytes)
    requires WellFormed(line)
    ensures Cleaned([line]) == if Clean(line, 3) == [] then [] else [Clean(line, 3)]
  {
    hide WellFormed, Clean;
    assert [line][1..] == [];
  }

  /** The loop over the words for one line. */
  method CleanLine(text: Bytes) returns (line: Bytes)
    requires WellFormed(text)
    ensures line == Clean(text, 3) && WellFormed(line)
  {
    hide WellFormed, Head, Contains, Word, Find, Cut;
    line := text;
    for i := 0 to 3
      invariant line == Clean(text, i) && WellFormed(line)
    {
      var w := Word(i);
      while Find(line, w, 0).Some?
        invariant WellFormed(line) && RemoveAll(line, w) == Clean(text, i + 1)
        decreases |line|
      {
        var found := Find(line, w, 0).value;
        CutShrinks(line, w);
        line := Cut(line, w, found);
      }
    }
  }

  // ---- the last error message ----

  function Joined(lines: seq<Bytes>): Bytes {
    if lines == [] then []
    else if |lines| == 1 then lines[0]
    else lines[0] + SPACE + Joined(lines[1..])
  }

  /** The lines `shellEx` reports: the last `linesNum`, after skipping `offset` from the end. */
  function Window(lines: seq<Bytes>, linesNum: nat, offset: nat): (w: seq<Bytes>)
    ensures |w| <= linesNum
  {
    lines[|lines| - Min(linesNum + offset, |lines|)..|lines| - Min(offset, |lines|)]
  }

  /** The window is what lies between the lines skipped at the end and all but `linesNum` of the others. */
  lemma WindowIs(front: seq<Bytes>, w: seq<Bytes>, back: seq<Bytes>, linesNum: nat, offset: nat)
    requires |back| <= offset && (|back| < offset ==> front == [] && w == [])
    requires |w| <= linesNum && (|w| < linesNum ==> front == [])
    ensures Window(front + w + back, linesNum, offset) == w
  {
  }

  function WithoutFinalDot(s: Bytes): Bytes {
    if s != [] && s[|s| - 1] == DOT then s[..|s| - 1] else s
  }

  predicate AllAscii(lines: seq<Bytes>) {
    forall i :: 0 <= i < |lines| ==> IsAscii(lines[i])
  }

  /** Every line but the last is ASCII. */
  predicate AsciiButLast(w: seq<Bytes>) {
    forall i :: 0 <= i < |w| - 1 ==> IsAscii(w[i])
  }

  /** Joins the window line by line with the engine's append, which overwrites behind a text that is not ASCII:
      the result is the plain join exactly when every line of the window but the last is ASCII. */
  method JoinWindow(lines: seq<Bytes>, linesNum: nat, offset: nat) returns (message: Bytes)
    requires AllWellFormed(lines)
    ensures var w := Window(lines, linesNum, offset);
            message == Joined(w) <==> AsciiButLast(w)
    ensures AsciiButLast(Window(lines, linesNum, offset)) ==> WellFormed(message)
    ensures message == Appended(Window(lines, linesNum, offset), |Window(lines, linesNum, offset)|)
  {
    hide WellFormed, Append, JoinedOpen, Joined;
    message := [];
    var size := |lines|;
    var i := if linesNum + offset > size then size else linesNum + offset;
    ghost var w, k := Window(lines, linesNum, offset), 0;
    JoinedOpenNone(w);
    while i > offset
      invariant i <= size && k <= |w| && (i > offset ==> i == offset + |w| - k) && (i <= offset ==> k == |w|)
      invariant JoinedSoFar(w, k, message) && message == Appended(w, k)
      decreases i
    {
      assert w[k] == lines[size - i];
      ghost var was := message;
      message := Append(message, lines[size - i], |lines[size - i]|);
      if i > offset + 1 {
        message := Append(message, SPACE, 1);
      }
      JoinedTurn(w, k, was);
      i := i - 1;
      k := k + 1;
    }
    JoinedOpenAll(w);
    SoFarAtEnd(w, message);
  }

  /** The first `k` lines joined, with the separator that announces the next one. */
  function JoinedOpen(w: seq<Bytes>, k: nat): Bytes
    requires k <= |w|
  {
    if k == 0 then [] else JoinedOpen(w, k - 1) + w[k - 1] + if k < |w| then SPACE else []
  }

  /** The first `k` lines appended one by one, with the engine's append. */
  function Appended(w: seq<Bytes>, k: nat): Bytes
    requires k <= |w|
  {
    if k == 0 then [] else
      var half := Append(Appended(w, k - 1), w[k - 1], |w[k - 1]|);
      if k < |w| then Append(half, SPACE, 1) else half
  }

  /** The message after `k` lines is their join as long as all lines that were not the last are ASCII; otherwise
      bytes have been lost. */
  ghost predicate JoinedSoFar(w: seq<Bytes>, k: nat, message: Bytes)
    requires k <= |w|
  {
    if AsciiUpTo(w, k) then message == JoinedOpen(w, k) && WellFormed(message) && (k < |w| ==> IsAscii(message))
    else |message| < |JoinedOpen(w, k)|
  }

  predicate AsciiUpTo(w: seq<Bytes>, k: nat)
    requires k <= |w|
  {
    forall i :: 0 <= i < k && i < |w| - 1 ==> IsAscii(w[i])
  }

  lemma JoinedOpenNone(w: seq<Bytes>)
    ensures JoinedSoFar(w, 0, [])
  {
  }

  lemma SoFarAtEnd(w: seq<Bytes>, message: Bytes)
    requires JoinedSoFar(w, |w|, message)
    ensures message == JoinedOpen(w, |w|) <==> AsciiButLast(w)
    ensures AsciiButLast(w) ==> WellFormed(message)
  {
    assert AsciiUpTo(w, |w|) <==> AsciiButLast(w);
  }

  /** One turn of the joining loop. */
  lemma JoinedTurn(w: seq<Bytes>, k: nat, was: Bytes)
    requires k < |w| && WellFormed(w[k]) && JoinedSoFar(w, k, was)
    ensures var half := Append(was, w[k], |w[k]|);
            JoinedSoFar(w, k + 1, if k + 1 < |w| then Append(half, SPACE, 1) else half)
  {
    hide WellFormed, Append, JoinedOpen;
    var half := Append(was, w[k], |w[k]|);
    AppendLength(was, w[k]);
    AppendLength(half, SPACE);
    JoinedOpenStep(w, k);
    if AsciiUpTo(w, k) {
      AppendToAscii(was, w[k]);
      assert half == JoinedOpen(w, k) + w[k];
      if k + 1 < |w| && IsAscii(w[k]) {
        AppendAscii(half, SPACE, 1);
        AsciiIsWellFormed(half + SPACE);
      } else if k + 1 < |w| {
        AsciiParts(JoinedOpen(w, k), w[k]);
        assert !AsciiUpTo(w, k + 1);
      }
    } else {
      assert !AsciiUpTo(w, k + 1);
    }
  }

  /** Appending a whole well-formed text never gains more than its bytes, and loses some behind a text that is
      not ASCII. */
  lemma AppendLength(a: Bytes, b: Bytes)
    ensures |Append(a, b, |b|)| <= |a| + |b|
    ensures b != [] && !IsAscii(a) ==> |Append(a, b, |b|)| < |a| + |b|
  {
    CountIsSizeIff(a);
  }

  lemma AsciiParts(a: Bytes, b: Bytes)
    ensures IsAscii(a + b) ==> IsAscii(b)
  {
    assert forall i :: 0 <= i < |b| ==> b[i] == (a + b)[|a| + i];
  }

  lemma AppendToAscii(a: Bytes, b: Bytes)
    requires IsAscii(a) && WellFormed(b)
    ensures Append(a, b, |b|) == a + b && WellFormed(a + b)
  {
    AsciiIsWellFormed(a);
    CharsConcat(a, b);
    WholeOffset(b, |b|);
    assert a[..|a|] == a && b[..|b|] == b;
  }

  /** Joining sets one space between two lists of lines. */
  lemma {:induction false} JoinedParts(a: seq<Bytes>, b: seq<Bytes>)
    requires a != [] && b != []
    ensures Joined(a + b) == Joined(a) + [32] + Joined(b)
  {
    if |a| == 1 {
      assert (a + b)[1..] == b;
    } else {
      assert (a + b)[1..] == a[1..] + b;
      JoinedParts(a[1..], b);
    }
  }

  lemma JoinedOne(line: Bytes)
    ensures Joined([line]) == line && Joined([]) == []
  {
  }

  lemma JoinedOpenStep(w: seq<Bytes>, k: nat)
    requires k < |w|
    ensures k + 1 < |w| ==> JoinedOpen(w, k + 1) == JoinedOpen(w, k) + w[k] + SPACE
    ensures k + 1 == |w| ==> JoinedOpen(w, k + 1) == JoinedOpen(w, k) + w[k]
  {
  }

  lemma {:induction false} JoinedOpenTail(w: seq<Bytes>, k: nat)
    requires 0 < k <= |w|
    ensures JoinedOpen(w, k) == w[0] + (if |w| > 1 then SPACE else []) + JoinedOpen(w[1..], k - 1)
  {
    if k > 1 {
      JoinedOpenTail(w, k - 1);
      assert w[1..][k - 2] == w[k - 1];
    }
  }

  lemma {:induction false} JoinedOpenAll(w: seq<Bytes>)
    ensures JoinedOpen(w, |w|) == Joined(w)
  {
    if w == [] {
    } else {
      JoinedOpenTail(w, |w|);
      JoinedOpenAll(w[1..]);
    }
  }

  /** The process-wide error text. */
  class LastError {
    var m_text: Bytes

    constructor ()
      ensures m_text == []
    {
      m_text := [];
    }

    /** `setLastErrorMessage`: stores the message and drops one final dot. */
    method Set(message: Bytes)
      modifies this
      ensures m_text == WithoutFinalDot(Normal(message))
      ensures || m_text + [46] == Normal(message)
              || (m_text == Normal(message) && (m_text != [] ==> m_text[|m_text| - 1] != 46))
    {
      hide Normal, WellFormed, Head;
      m_text := Normal(message);
      NormalIsWellFormed(message);
      if Count(m_text) > 0 && m_text[|m_text| - 1] == DOT {
        m_text := m_text[..|m_text| - 1];
      }
    }

    /** `shellEx`: on failure the window of cleaned lines becomes the error text; otherwise it is kept. */
    method ShellEx(commandStatus: int, output: Bytes, linesNum: nat, offset: nat) returns (status: int)
      requires WellFormed(output)
      modifies this
      ensures status == commandStatus
      ensures commandStatus == 0 ==> m_text == old(m_text)
      ensures commandStatus != 0 ==>
                var w := Window(CleanedOutput(output), linesNum, offset);
                m_text == WithoutFinalDot(Normal(Appended(w, |w|)))
      ensures commandStatus != 0
              && (IsAscii(output) || AsciiButLast(Window(CleanedOutput(output), linesNum, offset))) ==>
                m_text == WithoutFinalDot(Joined(Window(CleanedOutput(output), linesNum, offset)))
    {
      hide Window, Appended, AsciiButLast, CleanedOutput, WellFormed, IsAscii, Normal, Joined, WithoutFinalDot;
      hide AllWellFormed;
      status := commandStatus;
      if status != 0 {
        CleanedOutputIs(output);
        var lines := MdadmErrorLines(output);
        var message := JoinWindow(lines, linesNum, offset);
        Set(message);
        NormalIsWellFormed(message);
        if IsAscii(output) {
          AsciiOutputGivesAsciiLines(output);
          AsciiWindow(lines, linesNum, offset);
        }
      }
    }
  }

  lemma CleanedOutputIs(output: Bytes)
    requires WellFormed(output)
    ensures AllWellFormed(Kept(Segments(output)))
    ensures CleanedOutput(output) == Cleaned(Kept(Segments(output))) && AllWellFormed(CleanedOutput(output))
  {
    hide Cleaned, Segments, Kept;
    KeptWellFormed(output);
    CleanedLeavesNone(Kept(Segments(output)));
  }

  lemma AsciiWindow(lines: seq<Bytes>, linesNum: nat, offset: nat)
    requires AllAscii(lines)
    ensures AsciiButLast(Window(lines, linesNum, offset))
  {
    var w := Window(lines, linesNum, offset);
    forall i | 0 <= i < |w| - 1 ensures IsAscii(w[i]) {
      assert w[i] == lines[|lines| - Min(linesNum + offset, |lines|) + i];
    }
  }

  /** All lines reported of an ASCII output are ASCII. */
  lemma AsciiOutputGivesAsciiLines(output: Bytes)
    requires IsAscii(output)
    ensures WellFormed(output) && AllAscii(CleanedOutput(output))
  {
    AsciiIsWellFormed(output);
    KeptWellFormed(output);
    AsciiKept(output);
    AsciiCleaned(Kept(Segments(output)));
  }

  lemma {:induction false} AsciiKept(s: Bytes)
    requires IsAscii(s)
    ensures AllAscii(Kept(Segments(s)))
    decreases |s|
  {
    hide *;
    var n := LineEnd(s);
    SegmentsStep(s);
    if n == |s| {
      NothingKept();
    } else {
      AsciiPieces(s, n);
      AsciiKept(s[n + 1..]);
      AsciiTrimmed(s[..n]);
      AsciiIsWellFormed(s[..n]);
      KeptStep(s[..n], Segments(s[n + 1..]));
      AllAsciiJoin(Trimmed(s[..n]), Kept(Segments(s[n + 1..])));
    }
  }

  lemma NothingKept()
    ensures Kept([]) == [] && AllAscii([])
  {
  }

  lemma AsciiPieces(s: Bytes, n: nat)
    requires IsAscii(s) && n < |s|
    ensures IsAscii(s[..n]) && IsAscii(s[n + 1..])
  {
  }

  lemma AllAsciiJoin(line: Bytes, lines: seq<Bytes>)
    requires IsAscii(line) && AllAscii(lines)
    ensures AllAscii((if line == [] then [] else [line]) + lines)
  {
  }

  lemma AsciiTrimmed(s: Bytes)
    requires IsAscii(s)
    ensures IsAscii(Trimmed(s))
  {
  }

  lemma {:induction false} AsciiCleaned(lines: seq<Bytes>)
    requires AllWellFormed(lines) && AllAscii(lines)
    ensures AllAscii(Cleaned(lines))
  {
    hide RemoveAll, WellFormed;
    if lines == [] {
    } else {
      AsciiCleaned(lines[1..]);
      AsciiClean(lines[0], 3);
    }
  }

  lemma {:induction false} AsciiClean(line: Bytes, words: nat)
    requires IsAscii(line) && WellFormed(line) && words <= 3
    ensures IsAscii(Clean(line, words))
  {
    hide RemoveAll, WellFormed, Word;
    if words == 0 {
    } else {
      AsciiClean(line, words - 1);
      AsciiRemoved(Clean(line, words - 1), Word(words - 1));
    }
  }

  lemma {:induction false} AsciiRemoved(line: Bytes, w: Bytes)
    requires IsAscii(line) && IsAscii(w) && w != [] && WellFormed(line) && WellFormed(w)
    ensures IsAscii(RemoveAll(line, w))
    decreases |line|
  {
    hide WellFormed, Cut, RemoveAll, FirstMatch, Contains, LeftOf, After;
    FirstMatchIff(line, w);
    LeftAfterRebuild(line, w);
    if FirstMatch(line, w, 0).Some? {
      var p := FirstMatch(line, w, 0).value;
      CutIsExact(line, w);
      CutShrinks(line, w);
      RemoveAllStep(line, w);
      AsciiPiecesJoin(line, p, p + |w|);
      AsciiRemoved(Cut(line, w, p), w);
    }
  }

  lemma RemoveAllStep(line: Bytes, w: Bytes)
    requires WellFormed(line) && WellFormed(w) && w != [] && Find(line, w, 0).Some?
    ensures var cut := Cut(line, w, Find(line, w, 0).value);
            WellFormed(cut) && RemoveAll(line, w) == RemoveAll(cut, w)
  {
    hide WellFormed, Cut, Find;
    CutShrinks(line, w);
  }

  lemma AsciiPiecesJoin(s: Bytes, i: nat, j: nat)
    requires IsAscii(s) && i <= j <= |s|
    ensures IsAscii(s[..i] + s[j..])
  {
  }

  ghost function CleanedOutput(output: Bytes): seq<Bytes>
    requires WellFormed(output)
  {
    KeptWellFormed(output);
    Cleaned(Kept(Segments(output)))
  }

  lemma {:induction false} KeptWellFormed(s: Bytes)
    requires WellFormed(s)
    ensures AllWellFormed(Kept(Segments(s)))
    decreases |s|
  {
    hide Head, WellFormed, Chars, Trimmed;
    var n := LineEnd(s);
    if n < |s| {
      EmptyText();
      assert s[..0] == [] && s[0..] == s;
      SplitTurn(s, 0, 0);
      SplitAt(s, n + 1);
      KeptWellFormed(s[n + 1..]);
      TrimmedIsMaximal(s[..n]);
      assert Segments(s)[1..] == Segments(s[n + 1..]);
    }
  }
}
