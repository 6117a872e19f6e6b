/** Looking a RAID device up in mdadm's map file, by device name or by array name. */
module MapFile {
  import opened Wrappers
  import opened Utf8
  import opened Slices
  import opened Lines

  const SLASH: Bytes := [47]

  /** What a line is searched under. */
  function Key(line: Bytes, byName: bool): Bytes {
    if byName then ReverseAfter(line, SLASH) else LeftOf(line, SPACE)
  }

  lemma AfterShrinks(file: Bytes)
    requires LeftOf(file, NEWLINE) != []
    ensures |After(file, NEWLINE)| < |file|
  {
    NewlineIsWellFormed();
    var k := Find(file, NEWLINE, 0).value;
    assert Offset(file, k + 1) > 0;
  }

  /** The first line whose key contains `name`; a blank line ends the search. */
  function FoundLine(file: Bytes, byName: bool, name: Bytes): Option<Bytes>
    decreases |file|
  {
    var line := LeftOf(file, NEWLINE);
    if line == [] then None
    else if Find(Key(line, byName), name, 0).Some? then Some(line)
    else
      AfterShrinks(file);
      FoundLine(After(file, NEWLINE), byName, name)
  }

  class RaidDevice {
    var m_Name: Bytes
    var m_DevName: Bytes
    var m_Uuid: Bytes

    constructor (name: Bytes, devName: Bytes)
      ensures m_Name == name && m_DevName == devName && m_Uuid == []
    {
      m_Name, m_DevName, m_Uuid := name, devName, [];
    }

    /** `__internal_update`: answers false where the source throws. A device that has a name is being
        created and learns its device; one that has none learns its name. */
    method InternalUpdate(text: Bytes) returns (ok: bool)
      modifies this
      ensures var byName := old(m_Name) != [];
              var found := FoundLine(Append(text, NEWLINE, 1), byName, old(if m_Name != [] then m_Name else m_DevName));
              && ok == found.Some?
              && (if ok then
                    && m_DevName == (if byName then LeftOf(found.value, SPACE) else old(m_DevName))
                    && m_Name == (if byName then old(m_Name) else ReverseAfter(found.value, SLASH))
                    && m_Uuid == ReverseAfter(ReverseLeftOf(found.value, SPACE), SPACE)
                  else
                    m_Name == old(m_Name) && m_DevName == old(m_DevName) && m_Uuid == old(m_Uuid))
      ensures var found := Lookup(text, old(m_Name), old(m_DevName));
              ok == found.Some? && (ok ==> (m_DevName, m_Name, m_Uuid) == found.value)
    {
      hide LeftOf, After, ReverseAfter, ReverseLeftOf, Find, Append;
      var file := Append(text, NEWLINE, 1);
      var line := LeftOf(file, NEWLINE);
      var create := m_Name != [];
      var name := if create then m_Name else m_DevName;
      ghost var all := file;
      while line != []
        modifies {}
        invariant line == LeftOf(file, NEWLINE)
        invariant FoundLine(all, create, name) == FoundLine(file, create, name)
        decreases |file|
      {
        var tmp := if create then ReverseAfter(line, SLASH) else LeftOf(line, SPACE);
        if Find(tmp, name, 0).Some? {
          break;
        }
        AfterShrinks(file);
        file := After(file, NEWLINE);
        line := LeftOf(file, NEWLINE);
      }
      if line == [] {
        return false;
      }
      if create {
        m_DevName := LeftOf(line, SPACE);
      } else {
        m_Name := ReverseAfter(line, SLASH);
      }
      line := ReverseLeftOf(line, SPACE);
      m_Uuid := ReverseAfter(line, SPACE);
      return true;
    }
  }

  // ---- a map file rendered from a table ----

  datatype Entry = Entry(dev: Bytes, metadata: Bytes, uuid: Bytes, dir: Bytes, name: Bytes) {
    function Key(byName: bool): Bytes {
      if byName then name else dev
    }

    /** The fields are ASCII and keep clear of the separators that delimit them. */
    predicate Plain() {
      && IsAscii(dev) && IsAscii(metadata) && IsAscii(uuid) && IsAscii(dir) && IsAscii(name)
      && 10 !in dev && 10 !in metadata && 10 !in uuid && 10 !in dir && 10 !in name
      && 32 !in dev && 32 !in uuid && 32 !in dir && 32 !in name
      && 47 !in name
    }

    function Path(): Bytes {
      dir + SLASH + name
    }

    function Head(): Bytes {
      (dev + SPACE + metadata) + SPACE + uuid
    }

    function Line(): Bytes {
      Head() + SPACE + Path()
    }
  }

  predicate AllPlain(entries: seq<Entry>) {
    forall i :: 0 <= i < |entries| ==> entries[i].Plain()
  }

  function Render(entries: seq<Entry>): Bytes {
    if entries == [] then [] else entries[0].Line() + NEWLINE + Render(entries[1..])
  }

  function FirstHit(entries: seq<Entry>, byName: bool, name: Bytes): Option<Entry> {
    if entries == [] then None
    else if Find(entries[0].Key(byName), name, 0).Some? then Some(entries[0])
    else FirstHit(entries[1..], byName, name)
  }

  lemma SeparatorMatches(a: Bytes, c: Byte, b: Bytes)
    ensures MatchesAt(a + [c] + b, [c], |a|)
    ensures forall p: nat :: MatchesAt(a + [c] + b, [c], p) ==> p < |a| + 1 + |b| && (a + [c] + b)[p] == c
  {
    var h := a + [c] + b;
    assert h[|a|..|a| + 1] == [c];
    forall p: nat | MatchesAt(h, [c], p) ensures p < |h| && h[p] == c {
      MatchSplits(h, [c], p);
    }
  }

  /** A separator byte that does not occur in front of itself splits the text there. */
  lemma SplitFirst(a: Bytes, c: Byte, b: Bytes)
    requires IsAscii(a) && IsAscii(b) && c < 0x7f && c !in a
    ensures LeftOf(a + [c] + b, [c]) == a && After(a + [c] + b, [c]) == b
  {
    hide Head, WellFormed, Chars, Covering, Offset, Left, Right, FirstMatch, MatchesAt;
    var h := a + [c] + b;
    SeparatorMatches(a, c, b);
    assert FirstMatch(h, [c], 0) == Some(|a|);
    AsciiIsWellFormed(h);
    AsciiIsWellFormed([c]);
    OffsetAtZero(h);
    SlicesAroundMatch(h, [c], |a|);
    assert h[..|a|] == a && h[|a| + 1..] == b;
  }

  /** A separator byte that does not occur behind itself splits the text there from the end. */
  lemma SplitLast(a: Bytes, c: Byte, b: Bytes)
    requires IsAscii(a) && IsAscii(b) && c < 0x7f && c !in b
    ensures ReverseLeftOf(a + [c] + b, [c]) == a && ReverseAfter(a + [c] + b, [c]) == b
  {
    hide Head, WellFormed, Chars, Covering, Offset, Left, Right, LastMatch, ReverseFind, MatchesAt;
    var h := a + [c] + b;
    SeparatorMatches(a, c, b);
    AsciiIsWellFormed(h);
    AsciiIsWellFormed([c]);
    ReverseFindFrom(h, [c], |h|);
    OffsetAtMin(h, |h|);
    assert LastMatch(h, [c], |h| - 1) == Some(|a|);
    SlicesAroundMatch(h, [c], |a|);
    assert h[..|a|] == a && h[|a| + 1..] == b;
  }

  /** Every field of a rendered line is read back. */
  lemma LineReadsBack(e: Entry)
    requires e.Plain()
    ensures LeftOf(e.Line(), SPACE) == e.dev
    ensures ReverseAfter(e.Line(), SLASH) == e.name
    ensures ReverseLeftOf(e.Line(), SPACE) == e.Head()
    ensures ReverseAfter(e.Head(), SPACE) == e.uuid
    ensures e.Line() != [] && IsAscii(e.Line()) && 10 !in e.Line()
  {
    hide LeftOf, After, ReverseLeftOf, ReverseAfter;
    var rest := e.metadata + SPACE + e.uuid + SPACE + e.Path();
    assert e.Line() == e.dev + SPACE + rest;
    SplitFirst(e.dev, 32, rest);
    var front := e.Head() + SPACE + e.dir;
    assert e.Line() == front + SLASH + e.name;
    SplitLast(front, 47, e.name);
    SplitLast(e.Head(), 32, e.Path());
    SplitLast(e.dev + SPACE + e.metadata, 32, e.uuid);
  }

  lemma {:induction false} RenderIsAscii(entries: seq<Entry>)
    requires AllPlain(entries)
    ensures IsAscii(Render(entries))
  {
    if entries == [] {
    } else {
      LineReadsBack(entries[0]);
      RenderIsAscii(entries[1..]);
    }
  }

  /** On a rendered table the scan finds the line of the first entry whose key contains the name.
      When there is none it throws at the first blank line, whatever follows that line. */
  lemma {:induction false} RenderedLookup(entries: seq<Entry>, tail: Bytes, byName: bool, name: Bytes)
    requires AllPlain(entries) && IsAscii(tail)
    ensures FoundLine(Render(entries) + (NEWLINE + tail), byName, name) ==
            match FirstHit(entries, byName, name) { case None => None case Some(e) => Some(e.Line()) }
  {
    hide LeftOf, After, ReverseLeftOf, ReverseAfter, Find, IsAscii;
    if entries == [] {
      assert [] + (NEWLINE + tail) == [] + NEWLINE + tail;
      EmptyIsAscii();
      SplitFirst([], 10, tail);
    } else {
      var e, rest := entries[0], Render(entries[1..]) + (NEWLINE + tail);
      LineReadsBack(e);
      RenderIsAscii(entries[1..]);
      AsciiTail(Render(entries[1..]), tail);
      assert Render(entries) + (NEWLINE + tail) == e.Line() + NEWLINE + rest;
      SplitFirst(e.Line(), 10, rest);
      RenderedLookup(entries[1..], tail, byName, name);
    }
  }

  lemma EmptyIsAscii()
    ensures IsAscii([])
  {
  }

  lemma AsciiTail(s: Bytes, tail: Bytes)
    requires IsAscii(s) && IsAscii(tail)
    ensures IsAscii(s + (NEWLINE + tail))
  {
  }

  /** The map the scan sees: the appended newline lands behind the rendered text. */
  lemma RenderedText(entries: seq<Entry>)
    requires AllPlain(entries)
    ensures Append(Render(entries), NEWLINE, 1) == Render(entries) + NEWLINE
  {
    RenderIsAscii(entries);
    AppendAscii(Render(entries), NEWLINE, 1);
  }

  /** Entry `i` is the one found under its own key exactly when no earlier key contains that key. */
  lemma {:induction false} OwnKeyHitIff(entries: seq<Entry>, byName: bool, i: nat)
    requires i < |entries|
    requires forall j :: 0 <= j < i ==> entries[j] != entries[i]
    ensures FirstHit(entries, byName, entries[i].Key(byName)) == Some(entries[i]) <==>
            forall j :: 0 <= j < i ==> !Contains(entries[j].Key(byName), entries[i].Key(byName))
  {
    hide Contains, Find;
    var key := entries[i].Key(byName);
    FindIffContains(entries[0].Key(byName), key);
    if i == 0 {
      ContainsItself(key);
    } else {
      assert entries[1..][i - 1] == entries[i];
      OwnKeyHitIff(entries[1..], byName, i - 1);
      assert forall j :: 0 < j < i ==> entries[j] == entries[1..][j - 1];
    }
  }

  lemma FindIffContains(h: Bytes, n: Bytes)
    ensures Find(h, n, 0).Some? <==> Contains(h, n)
  {
    OffsetAtZero(h);
    FirstMatchIff(h, n);
  }

  lemma ContainsItself(s: Bytes)
    ensures Contains(s, s)
  {
    assert MatchesAt(s, s, 0);
  }

  /** No device name is part of another, no array name is part of another, and none is empty. */
  ghost predicate KeysIndependent(entries: seq<Entry>) {
    && (forall i :: 0 <= i < |entries| ==> entries[i].dev != [] && entries[i].name != [])
    && (forall i, j, byName :: 0 <= i < j < |entries| ==> !Contains(entries[i].Key(byName), entries[j].Key(byName)))
  }

  /** The outcome of one lookup as a function of the file: the device, name and uuid afterwards. */
  function Lookup(text: Bytes, name: Bytes, devName: Bytes): Option<(Bytes, Bytes, Bytes)> {
    var byName := name != [];
    match FoundLine(Append(text, NEWLINE, 1), byName, if byName then name else devName)
    case None => None
    case Some(line) =>
      Some((if byName then LeftOf(line, SPACE) else devName,
            if byName then name else ReverseAfter(line, SLASH),
            ReverseAfter(ReverseLeftOf(line, SPACE), SPACE)))
  }

  /** Looking entry `i` up by device and by array name are inverse to one another, and both
      answer that entry's uuid. */
  lemma LookupsAreInverse(entries: seq<Entry>, i: nat)
    requires AllPlain(entries) && KeysIndependent(entries) && i < |entries|
    ensures var e := entries[i];
            && Lookup(Render(entries), [], e.dev) == Some((e.dev, e.name, e.uuid))
            && Lookup(Render(entries), e.name, []) == Some((e.dev, e.name, e.uuid))
  {
    hide Contains, FoundLine, LeftOf, ReverseAfter, ReverseLeftOf, Append;
    var e := entries[i];
    RenderedText(entries);
    LineReadsBack(e);
    forall byName: bool ensures FirstHit(entries, byName, e.Key(byName)) == Some(e) {
      DistinctEntries(entries, i);
      OwnKeyHitIff(entries, byName, i);
    }
    EmptyIsAscii();
    assert NEWLINE + [] == NEWLINE;
    RenderedLookup(entries, [], false, e.Key(false));
    RenderedLookup(entries, [], true, e.Key(true));
  }

  lemma DistinctEntries(entries: seq<Entry>, i: nat)
    requires KeysIndependent(entries) && i < |entries|
    ensures forall j :: 0 <= j < i ==> entries[j] != entries[i]
  {
    hide Contains;
    forall j | 0 <= j < i ensures entries[j] != entries[i] {
      ContainsItself(entries[j].Key(true));
    }
  }
}
