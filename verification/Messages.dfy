/** The messages mdadm and mdmon print, as lines of text, and that cleaning their output gives the messages back. */
module Messages {
  import opened Wrappers
  import opened Utf8
  import opened Slices
  import opened Needles
  import opened Trimming
  import opened Lines

  const MDADM: Bytes := Ascii("mdadm: ")
  const MDMON: Bytes := Ascii("mdmon: ")
  const ANNOUNCEMENT: Bytes := Ascii(" Aborting...")
  const MDADM_NAME: Bytes := Ascii("mdadm:")
  const MDMON_NAME: Bytes := Ascii("mdmon:")

  datatype Tool = NoTool | Mdadm | Mdmon

  /** A message behind the name of the tool that prints it, perhaps announcing that the tool gives up. */
  datatype Message = Message(tool: Tool, text: Bytes, aborting: bool) {
    function Prefix(): Bytes {
      match tool
      case NoTool => []
      case Mdadm => MDADM
      case Mdmon => MDMON
    }

    function Suffix(): Bytes {
      if aborting then ANNOUNCEMENT else []
    }

    function Line(): Bytes {
      Prefix() + text + Suffix()
    }

    /** The text is visible at both ends, on one line, and holds none of the three words, not even together with the
        blank behind it. */
    ghost predicate Good() {
      && IsAscii(text) && text != [] && text[0] > 32 && text[|text| - 1] > 32 && 10 !in text
      && !Contains(text, MDADM) && !Contains(text, MDMON)
      && !Contains(text, ANNOUNCEMENT)
      && (aborting ==> !EndsWith(text, MDADM_NAME) && !EndsWith(text, MDMON_NAME))
    }
  }

  predicate EndsWith(s: Bytes, w: Bytes) {
    |w| <= |s| && s[|s| - |w|..] == w
  }

  // ---- words in joined texts ----

  /** A word in two joined texts lies in one of them, or across the joint. */
  lemma ContainsJoined(a: Bytes, b: Bytes, w: Bytes) returns (k: nat)
    requires Contains(a + b, w) && !Contains(a, w) && !Contains(b, w)
    ensures 0 < k < |w| && EndsWith(a, w[..k]) && |w| - k <= |b| && b[..|w| - k] == w[k..]
  {
    var p: nat :| MatchesAt(a + b, w, p);
    MatchInParts(a, b, w, p);
    k := |a| - p;
    MatchAcross(a, b, w, p);
  }

  lemma MatchInParts(a: Bytes, b: Bytes, w: Bytes, p: nat)
    requires MatchesAt(a + b, w, p)
    ensures p + |w| <= |a| + |b|
    ensures p >= |a| ==> Contains(b, w)
    ensures p + |w| <= |a| ==> Contains(a, w)
  {
    var h := a + b;
    if p >= |a| {
      assert b[p - |a|..p - |a| + |w|] == h[p..p + |w|];
      assert MatchesAt(b, w, p - |a|);
    }
    if p + |w| <= |a| {
      assert a[p..p + |w|] == h[p..p + |w|];
      assert MatchesAt(a, w, p);
    }
  }

  lemma MatchAcross(a: Bytes, b: Bytes, w: Bytes, p: nat)
    requires MatchesAt(a + b, w, p) && p < |a| < p + |w| <= |a| + |b|
    ensures var k := |a| - p; EndsWith(a, w[..k]) && b[..|w| - k] == w[k..]
  {
    MatchIndices(a + b, w, p);
    var k := |a| - p;
    forall j | 0 <= j < k ensures a[p..][j] == w[..k][j] {
      assert (a + b)[p + j] == w[j];
    }
    forall j | 0 <= j < |w| - k ensures b[..|w| - k][j] == w[k..][j] {
      assert (a + b)[p + (k + j)] == w[k + j];
    }
  }

  /** A word that has a byte the text lacks is not in the text. */
  lemma LacksByte(s: Bytes, w: Bytes, j: nat)
    requires j < |w| && w[j] !in s
    ensures !Contains(s, w)
  {
    if Contains(s, w) {
      HasByte(s, w, j);
    }
  }

  lemma HasByte(s: Bytes, w: Bytes, j: nat)
    requires j < |w| && Contains(s, w)
    ensures w[j] in s
  {
    var p: nat :| MatchesAt(s, w, p);
    MatchIndices(s, w, p);
    assert s[p + j] in s;
  }

  lemma LiteralWords()
    ensures Word(0) == MDADM && Word(1) == MDMON && Word(2) == ANNOUNCEMENT
    ensures !Contains(MDMON, MDADM) && !Contains(ANNOUNCEMENT, MDADM) && !Contains(ANNOUNCEMENT, MDMON)
    ensures Borderless(ANNOUNCEMENT)
  {
    LacksByte(MDMON, MDADM, 2);
    LacksByte(ANNOUNCEMENT, MDADM, 0);
    LacksByte(ANNOUNCEMENT, MDMON, 0);
    forall k | 0 < k < |ANNOUNCEMENT| ensures ANNOUNCEMENT[k..] != ANNOUNCEMENT[..|ANNOUNCEMENT| - k] {
      assert ANNOUNCEMENT[k..][0] == ANNOUNCEMENT[k] != ANNOUNCEMENT[0];
    }
  }

  /** In a tool's name the only blank is the last byte. */
  lemma NameBlanks(w: Bytes)
    requires w == MDADM || w == MDMON
    ensures |w| == 7 && w[6] == 32 && forall k :: 0 <= k < 6 ==> w[k] != 32
    ensures w == MDADM ==> w[..6] == MDADM_NAME
    ensures w == MDMON ==> w[..6] == MDMON_NAME
  {
  }

  /** A name across the joint with a text that starts with a blank ends the text in front, but for its blank. */
  lemma NameAcross(a: Bytes, b: Bytes, w: Bytes)
    requires |w| == 7 && (forall k :: 0 <= k < 6 ==> w[k] != 32) && b != [] && b[0] == 32
    requires Contains(a + b, w) && !Contains(a, w) && !Contains(b, w)
    ensures EndsWith(a, w[..6])
  {
    hide Contains;
    var k := ContainsJoined(a, b, w);
    assert w[k..][0] == w[k] && b[..7 - k][0] == b[0];
  }

  /** No tool's name comes about where the suffix follows the text. */
  lemma NoNameAcrossSuffix(m: Message, w: Bytes)
    requires m.Good() && (w == MDADM || w == MDMON)
    ensures !Contains(m.text + m.Suffix(), w)
  {
    hide *;
    LiteralWords();
    NameBlanks(w);
    GoodParts(m);
    SuffixStartsBlank();
    if m.aborting && Contains(m.text + ANNOUNCEMENT, w) {
      NameAcross(m.text, ANNOUNCEMENT, w);
    }
  }

  lemma GoodParts(m: Message)
    requires m.Good()
    ensures !Contains(m.text, MDADM) && !Contains(m.text, MDMON)
    ensures m.aborting ==> !EndsWith(m.text, MDADM_NAME) && !EndsWith(m.text, MDMON_NAME)
    ensures m.text + m.Suffix() == if m.aborting then m.text + ANNOUNCEMENT else m.text
  {
    hide Contains, EndsWith;
  }

  lemma SuffixStartsBlank()
    ensures var b := ANNOUNCEMENT; b != [] && b[0] == 32
  {
  }

  /** Across a joint behind a blank no name comes about that has its only blank at the end. */
  lemma NotBehindBlank(a: Bytes, b: Bytes, w: Bytes)
    requires |w| == 7 && (forall k :: 0 <= k < 6 ==> w[k] != 32) && a != [] && a[|a| - 1] == 32
    requires !Contains(a, w) && !Contains(b, w)
    ensures !Contains(a + b, w)
  {
    hide Contains;
    if Contains(a + b, w) {
      var k := ContainsJoined(a, b, w);
      LastBytes(a, w, k);
    }
  }

  lemma LastBytes(a: Bytes, w: Bytes, k: nat)
    requires 0 < k < |w| && EndsWith(a, w[..k])
    ensures a != [] && w[k - 1] == a[|a| - 1]
  {
    assert a[|a| - k..][k - 1] == w[..k][k - 1];
  }

  /** The other tool's name does not come about behind a prefix. */
  lemma NoNameBehind(rest: Bytes)
    requires !Contains(rest, MDADM)
    ensures !Contains(MDMON + rest, MDADM)
  {
    hide *;
    LiteralWords();
    NameBlanks(MDADM);
    NameBlanks(MDMON);
    NotBehindBlank(MDMON, rest, MDADM);
  }

  // ---- cleaning ----

  /** A word in front of a text without it is removed. */
  lemma RemovedInFront(w: Bytes, rest: Bytes)
    requires IsAscii(w) && IsAscii(rest) && w != [] && !Contains(rest, w)
    ensures WellFormed(w + rest) && WellFormed(w) && RemoveAll(w + rest, w) == rest
  {
    hide Contains, RemoveAll, Cut, WellFormed, FirstMatch;
    var line := w + rest;
    assert IsAscii(line) && line[0..|w|] == w;
    assert MatchesAt(line, w, 0);
    MatchAtZero(line, w);
    CutIsExact(line, w);
    AsciiIsWellFormed(line);
    AsciiIsWellFormed(w);
    AsciiIsWellFormed(rest);
    RemoveAllStep(line, w);
    assert line[..0] + line[|w|..] == rest;
  }

  lemma MatchAtZero(h: Bytes, w: Bytes)
    requires MatchesAt(h, w, 0)
    ensures FirstMatch(h, w, 0) == Some(0)
  {
  }

  /** A word that cannot overlap itself is removed behind a text without it. */
  lemma RemovedBehind(text: Bytes, w: Bytes)
    requires IsAscii(w) && IsAscii(text) && Borderless(w) && !Contains(text, w)
    ensures WellFormed(text + w) && WellFormed(w) && RemoveAll(text + w, w) == text
  {
    hide Contains, RemoveAll, Cut, WellFormed, FirstMatch;
    var line := text + w;
    assert IsAscii(line) && line == text + w + [];
    FirstPlanted(text, w, []);
    CutIsExact(line, w);
    AsciiIsWellFormed(line);
    AsciiIsWellFormed(w);
    AsciiIsWellFormed(text);
    RemoveAllStep(line, w);
    assert line[..|text|] + line[|line|..] == text;
  }

  /** Cleaning a message's line gives its text: the tool's name and the announcement go, and nothing else. */
  lemma MessageCleans(m: Message)
    requires m.Good()
    ensures IsAscii(m.Line()) && WellFormed(m.Line()) && Clean(m.Line(), 3) == m.text
  {
    hide *;
    LiteralWords();
    LineIsAscii(m);
    AsciiIsWellFormed(m.Line());
    CleanSteps(m.Line());
    NamesRemoved(m);
    AnnouncementRemoved(m);
  }

  lemma NamesRemoved(m: Message)
    requires m.Good() && WellFormed(m.Line())
    ensures WellFormed(MDADM) && WellFormed(MDMON)
    ensures RemoveAll(RemoveAll(m.Line(), MDADM), MDMON) == m.text + m.Suffix()
  {
    hide Contains, RemoveAll, WellFormed, IsAscii, Message.Good;
    var rest := m.text + m.Suffix();
    NamesAreWellFormed();
    RestIsAscii(m);
    assert m.Line() == m.Prefix() + rest;
    NoNameAcrossSuffix(m, MDADM);
    NoNameAcrossSuffix(m, MDMON);
    AsciiIsWellFormed(rest);
    match m.tool {
      case NoTool =>
        assert m.Line() == rest;
      case Mdadm =>
        RemovedInFront(MDADM, rest);
      case Mdmon =>
        NoNameBehind(rest);
        RemovedInFront(MDMON, rest);
    }
  }

  lemma NamesAreWellFormed()
    ensures WellFormed(MDADM) && WellFormed(MDMON) && WellFormed(ANNOUNCEMENT)
    ensures MDADM != [] && MDMON != [] && ANNOUNCEMENT != []
  {
    hide WellFormed;
    AsciiIsWellFormed(MDADM);
    AsciiIsWellFormed(MDMON);
    AsciiIsWellFormed(ANNOUNCEMENT);
  }

  lemma AnnouncementRemoved(m: Message)
    requires m.Good()
    ensures WellFormed(m.text + m.Suffix()) && WellFormed(ANNOUNCEMENT)
    ensures RemoveAll(m.text + m.Suffix(), ANNOUNCEMENT) == m.text
  {
    hide Contains, RemoveAll, WellFormed, IsAscii, EndsWith, Borderless;
    LiteralWords();
    NamesAreWellFormed();
    RestIsAscii(m);
    AsciiIsWellFormed(m.text);
    if m.aborting {
      RemovedBehind(m.text, ANNOUNCEMENT);
    } else {
      assert m.text + [] == m.text;
    }
  }

  lemma CleanSteps(line: Bytes)
    requires WellFormed(line)
    ensures WellFormed(RemoveAll(line, Word(0))) && WellFormed(RemoveAll(RemoveAll(line, Word(0)), Word(1)))
    ensures Clean(line, 3) == RemoveAll(RemoveAll(RemoveAll(line, Word(0)), Word(1)), Word(2))
  {
    hide RemoveAll, WellFormed, Word;
    assert Clean(line, 0) == line;
    assert Clean(line, 1) == RemoveAll(line, Word(0));
    assert Clean(line, 2) == RemoveAll(Clean(line, 1), Word(1));
  }

  lemma RestIsAscii(m: Message)
    requires m.Good()
    ensures IsAscii(m.text + m.Suffix()) && IsAscii(m.text)
  {
    hide Contains;
  }

  lemma LineIsAscii(m: Message)
    requires m.Good()
    ensures IsAscii(m.Line())
  {
    hide Contains;
  }

  // ---- whole outputs ----

  function LinesOf(messages: seq<Message>): seq<Bytes> {
    seq(|messages|, i requires 0 <= i < |messages| => messages[i].Line())
  }

  function TextsOf(messages: seq<Message>): seq<Bytes> {
    seq(|messages|, i requires 0 <= i < |messages| => messages[i].text)
  }

  ghost predicate AllGood(messages: seq<Message>) {
    forall i :: 0 <= i < |messages| ==> messages[i].Good()
  }

  /** A message's line has nothing to trim and stays one line. */
  lemma LineIsTrimmed(m: Message)
    requires m.Good()
    ensures 10 !in m.Line() && Trimmed(m.Line()) == m.Line() && m.Line() != []
  {
    hide Trimmed;
    LineEnds(m);
    VisibleIsTrimmed(m.Line());
  }

  lemma LineEnds(m: Message)
    requires m.Good()
    ensures var line := m.Line(); line != [] && line[0] > 32 && line[|line| - 1] > 32 && 10 !in line
  {
    hide Contains;
    PrefixIsVisible(m);
  }

  lemma PrefixIsVisible(m: Message)
    ensures m.Prefix() != [] ==> m.Prefix()[0] > 32
    ensures m.Suffix() != [] ==> m.Suffix()[|m.Suffix()| - 1] > 32
    ensures 10 !in m.Prefix() && 10 !in m.Suffix()
  {
  }

  lemma VisibleIsTrimmed(line: Bytes)
    requires line != [] && line[0] > 32 && line[|line| - 1] > 32
    ensures Trimmed(line) == line
  {
    hide Trimmed;
    assert line == [] + line + [];
    BlankIffLow(line[0]);
    BlankIffLow(line[|line| - 1]);
    TrimmedIsUnique(line, [], line, []);
  }

  /** The output that consists of the messages' lines is cleaned to their texts, all of them and in order. */
  lemma MessagesReadBack(messages: seq<Message>)
    requires AllGood(messages)
    ensures var output := Terminate(LinesOf(messages));
            IsAscii(output) && WellFormed(output) && CleanedOutput(output) == TextsOf(messages)
  {
    hide Message.Good, Message.Line, WellFormed, IsAscii, Cleaned, Kept, Segments, Terminate;
    var lines := LinesOf(messages);
    forall line | line in lines ensures 10 !in line {
      var i :| 0 <= i < |lines| && lines[i] == line;
      LineIsTrimmed(messages[i]);
    }
    OutputIsAscii(messages);
    AsciiIsWellFormed(Terminate(lines));
    TerminatedSplits(lines);
    LinesAreKept(messages);
    LinesClean(messages);
    CleanedOutputIs(Terminate(lines));
  }

  lemma {:induction false} OutputIsAscii(messages: seq<Message>)
    requires AllGood(messages)
    ensures IsAscii(Terminate(LinesOf(messages)))
  {
    hide Message.Good, Message.Line;
    if messages == [] {
    } else {
      LineIsAscii(messages[0]);
      OutputIsAscii(messages[1..]);
      assert LinesOf(messages)[1..] == LinesOf(messages[1..]);
    }
  }

  lemma {:induction false} LinesAreKept(messages: seq<Message>)
    requires AllGood(messages)
    ensures Kept(LinesOf(messages)) == LinesOf(messages)
  {
    hide Message.Good, Message.Line, Trimmed;
    if messages == [] {
    } else {
      LineIsTrimmed(messages[0]);
      LinesAreKept(messages[1..]);
      assert LinesOf(messages)[1..] == LinesOf(messages[1..]);
      assert LinesOf(messages) == [messages[0].Line()] + LinesOf(messages[1..]);
    }
  }

  lemma {:induction false} LinesClean(messages: seq<Message>)
    requires AllGood(messages)
    ensures AllWellFormed(LinesOf(messages)) && Cleaned(LinesOf(messages)) == TextsOf(messages)
  {
    hide Message.Line, Clean, WellFormed, Contains, IsAscii;
    if messages == [] {
    } else {
      MessageCleans(messages[0]);
      LinesClean(messages[1..]);
      assert LinesOf(messages)[1..] == LinesOf(messages[1..]);
      assert LinesOf(messages) == [messages[0].Line()] + LinesOf(messages[1..]);
      assert TextsOf(messages) == [messages[0].text] + TextsOf(messages[1..]);
    }
  }
}
