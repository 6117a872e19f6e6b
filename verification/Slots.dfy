/** Reading an enclosure's slots out of the text of its element descriptor page. */
module Slots {
  import opened Wrappers
  import opened Utf8
  import opened Slices
  import opened Needles
  import opened Lines
  import opened Numbers

  const MARK: Bytes := Ascii("element index")
  const BAY: Bytes := Ascii("bay number: ")
  const SAS: Bytes := Ascii("SAS address:")

  datatype Slot = Slot(slotNumber: nat, sasAddress: nat)

  /** What one information block contributes: nothing without a bay number or with a zero address. */
  function SlotOf(info: Bytes): seq<Slot> {
    var tmp := Between(info, BAY, NEWLINE);
    if tmp == [] then [] else
      var sas := ParseUll(LeftOf(ReverseAfter(info, SAS), NEWLINE));
      if sas != 0 then [Slot(ParseUll(tmp), sas)] else []
  }

  /** Where the next block starts; a marker right at the front counts as none. */
  function NextMark(right: Bytes): nat {
    match Find(right, MARK, 0)
    case None => 0
    case Some(k) => k
  }

  lemma RightShrinks(s: Bytes, k: nat)
    requires k > 0 && Head(s) > 0
    ensures |Right(s, k)| < |s|
  {
  }

  lemma NextMarkDecodes(right: Bytes)
    ensures NextMark(right) > 0 ==> Head(right) > 0
  {
  }

  /** The slots of all blocks from here on. */
  function SlotsFrom(right: Bytes): seq<Slot>
    decreases |right|
  {
    var k := NextMark(right);
    if right == [] then []
    else if k == 0 then SlotOf(right)
    else
      NextMarkDecodes(right);
      RightShrinks(right, k + |MARK|);
      SlotOf(Left(right, k)) + SlotsFrom(Right(right, k + |MARK|))
  }

  lemma SlotsFromStep(right: Bytes)
    requires right != []
    ensures var k := NextMark(right);
            if k == 0 then SlotsFrom(right) == SlotOf(right) + SlotsFrom([])
            else
              && SlotsFrom(right) == SlotOf(Left(right, k)) + SlotsFrom(Right(right, k + |MARK|))
              && |Right(right, k + |MARK|)| < |right|
  {
    hide SlotOf, Find, Left, Right;
    NextMarkDecodes(right);
    if NextMark(right) > 0 {
      RightShrinks(right, NextMark(right) + |MARK|);
    }
  }

  lemma SlotsFromNothing()
    ensures SlotsFrom([]) == []
  {
  }

  class Enclosure {
    var m_Slots: seq<Slot>

    constructor ()
      ensures m_Slots == []
    {
      m_Slots := [];
    }

    method GetSlotInfo(buffer: Bytes)
      modifies this
      ensures m_Slots == old(m_Slots) + SlotsFrom(After(buffer, MARK))
      ensures forall i :: |old(m_Slots)| <= i < |m_Slots| ==> 0 < m_Slots[i].sasAddress <= 0xffff_ffff_ffff_ffff
    {
      hide Find, Left, Right, After, Between, LeftOf, ReverseAfter, ParseUll, Head, SlotsFrom, NextMark;
      var right := After(buffer, MARK);
      while right != []
        invariant m_Slots + SlotsFrom(right) == old(m_Slots) + SlotsFrom(After(buffer, MARK))
        invariant |old(m_Slots)| <= |m_Slots|
        invariant forall i :: |old(m_Slots)| <= i < |m_Slots| ==> 0 < m_Slots[i].sasAddress <= 0xffff_ffff_ffff_ffff
        decreases |right|
      {
        ghost var was := m_Slots;
        SlotsFromStep(right);
        var offset := NextMark(right);
        var info := if offset != 0 then Left(right, offset) else right;
        var tmp := Between(info, BAY, NEWLINE);
        if tmp != [] {
          var number := ParseUll(tmp);
          tmp := ReverseAfter(info, SAS);
          tmp := LeftOf(tmp, NEWLINE);
          var address := ParseUll(tmp);
          if address != 0 {
            m_Slots := m_Slots + [Slot(number, address)];
          }
        }
        assert m_Slots == was + SlotOf(info);
        right := if offset != 0 then Right(right, offset + |MARK|) else [];
      }
      SlotsFromNothing();
    }

    /** The first slot with the address, all ones when there is none. */
    method GetSlotNumber(sasAddress: nat) returns (number: nat)
      ensures number == NumberOf(m_Slots, sasAddress)
    {
      for i := 0 to |m_Slots|
        invariant NumberOf(m_Slots, sasAddress) == NumberOf(m_Slots[i..], sasAddress)
      {
        if m_Slots[i].sasAddress == sasAddress {
          return m_Slots[i].slotNumber;
        }
      }
      return ULLONG_MAX;
    }
  }

  function NumberOf(slots: seq<Slot>, sasAddress: nat): nat {
    if slots == [] then ULLONG_MAX
    else if slots[0].sasAddress == sasAddress then slots[0].slotNumber
    else NumberOf(slots[1..], sasAddress)
  }

  lemma {:induction false} NumberOfIsFirst(slots: seq<Slot>, sasAddress: nat)
    ensures (forall i :: 0 <= i < |slots| ==> slots[i].sasAddress != sasAddress)
            || exists i :: 0 <= i < |slots| && slots[i].sasAddress == sasAddress
                 && NumberOf(slots, sasAddress) == slots[i].slotNumber
                 && forall j :: 0 <= j < i ==> slots[j].sasAddress != sasAddress
    ensures (forall i :: 0 <= i < |slots| ==> slots[i].sasAddress != sasAddress) ==>
              NumberOf(slots, sasAddress) == ULLONG_MAX
  {
    if slots == [] {
    } else {
      NumberOfIsFirst(slots[1..], sasAddress);
      assert forall i :: 0 < i < |slots| ==> slots[i] == slots[1..][i - 1];
    }
  }

  // ---- the needles ----

  lemma NeedlesAreBorderless()
    ensures Borderless(MARK) && Borderless(BAY) && Borderless(SAS) && Borderless(NEWLINE)
  {
    forall k | 0 < k < |MARK| ensures MARK[k..] != MARK[..|MARK| - k] {
      assert MARK[k..][12 - k] == MARK[12] != MARK[12 - k];
    }
    forall k | 0 < k < |BAY| ensures BAY[k..] != BAY[..|BAY| - k] {
      if k == 7 {
        assert BAY[k..][1] == BAY[8] != BAY[1];
      } else {
        assert BAY[k..][0] == BAY[k] != BAY[0];
      }
    }
    forall k | 0 < k < |SAS| ensures SAS[k..] != SAS[..|SAS| - k] {
      if k == 2 {
        assert SAS[k..][1] == SAS[3] != SAS[1];
      } else {
        assert SAS[k..][0] == SAS[k] != SAS[0];
      }
    }
  }

  // ---- ASCII: bytes and code points coincide ----

  lemma AsciiCovering(s: Bytes, p: nat)
    requires IsAscii(s) && p <= |s|
    ensures Covering(s, p) == p
  {
    hide Chars, Head, WellFormed;
    AsciiIsWellFormed(s[..p]);
    CoveringBoundary(s, p);
  }

  lemma AsciiFind(h: Bytes, n: Bytes, from: nat)
    requires IsAscii(h) && from <= |h|
    ensures Find(h, n, from) == FirstMatch(h, n, from)
  {
    hide Chars, Head, WellFormed, Offset, Covering, FirstMatch;
    AsciiOffset(h, from);
    var p := FirstMatch(h, n, from);
    if p.Some? {
      AsciiCovering(h, p.value);
    }
  }

  lemma AsciiPieces(h: Bytes, p: nat)
    requires IsAscii(h) && p <= |h|
    ensures Left(h, p) == h[..p] && Right(h, p) == h[p..] && Count(h) == |h|
  {
    hide Chars, Head, WellFormed, Offset;
    AsciiOffset(h, p);
    AsciiIsWellFormed(h);
    AsciiIsWellFormed(h[p..]);
    NormalIsWellFormed(h[p..]);
  }

  lemma AsciiReverseAfter(a: Bytes, w: Bytes, b: Bytes)
    requires IsAscii(a) && IsAscii(w) && IsAscii(b) && Borderless(w) && !Contains(b, w)
    ensures ReverseAfter(a + w + b, w) == b
  {
    hide Chars, Head, WellFormed, Offset, Covering, LastMatch, Right, Borderless, Contains, ReverseFind;
    var h := a + w + b;
    AsciiIsWellFormed(h);
    AsciiIsWellFormed(w);
    ReverseFindFrom(h, w, |h|);
    OffsetAtMin(h, |h|);
    LastPlanted(a, w, b);
    AsciiCovering(h, |a|);
    AsciiPieces(h, |a| + |w|);
    assert h[|a| + |w|..] == b;
  }

  lemma AsciiMid(h: Bytes, t: nat, u: nat)
    requires IsAscii(h) && t <= u <= |h|
    ensures Mid(h, t, u) == h[t..u]
  {
    hide Chars, Head, WellFormed, Offset;
    AsciiOffset(h, t);
    AsciiPieces(h, t);
    AsciiPieces(h[t..], u - t);
    assert h[t..][..u - t] == h[t..u];
  }

  /** In ASCII text the piece between a needle and the next newline is what stands there. */
  lemma AsciiBetween(a: Bytes, w: Bytes, m: Bytes, b: Bytes)
    requires IsAscii(a) && IsAscii(w) && IsAscii(m) && IsAscii(b)
    requires Borderless(w) && !Contains(a, w) && 10 !in m
    ensures Between(a + w + (m + NEWLINE + b), w, NEWLINE) == m
  {
    hide Chars, Head, WellFormed, Offset, Covering, FirstMatch, Find, Borderless, Contains, LineEnd, Mid;
    var rest := m + NEWLINE + b;
    var h, t := a + w + rest, |a| + |w|;
    AsciiIsWellFormed(w);
    FirstPlanted(a, w, rest);
    AsciiFind(h, w, 0);
    FieldAt(a + w, m, b, h);
    NewlineMatch(h, t);
    AsciiFind(h, NEWLINE, t);
    AsciiMid(h, t, t + |m|);
  }

  lemma FieldAt(front: Bytes, m: Bytes, b: Bytes, h: Bytes)
    requires h == front + (m + NEWLINE + b) && 10 !in m
    ensures var t := |front|;
            LineEnd(h[t..]) == |m| && h[t..t + |m|] == m && t + |m| < |h|
  {
    hide LineEnd;
    assert h[|front|..] == m + NEWLINE + b;
    LineEndOf(m, b);
  }

  // ---- rendered pages ----

  function Page(blocks: seq<Bytes>): Bytes {
    if blocks == [] then [] else Ascii("element index") + blocks[0] + Page(blocks[1..])
  }

  function SlotsOfBlocks(blocks: seq<Bytes>): seq<Slot> {
    if blocks == [] then [] else SlotOf(blocks[0]) + SlotsOfBlocks(blocks[1..])
  }

  ghost predicate GoodBlocks(blocks: seq<Bytes>) {
    forall i :: 0 <= i < |blocks| ==> IsAscii(blocks[i]) && !Contains(blocks[i], MARK)
  }

  lemma {:induction false} PageIsAscii(blocks: seq<Bytes>)
    requires GoodBlocks(blocks)
    ensures IsAscii(Page(blocks))
  {
    hide Contains;
    if blocks == [] {
    } else {
      PageIsAscii(blocks[1..]);
    }
  }

  /** The first block that is empty and not the last one; the number of blocks when there is none. */
  function FirstGap(blocks: seq<Bytes>): (e: nat)
    ensures e <= |blocks|
    ensures e < |blocks| ==> blocks[e] == [] && e + 1 < |blocks|
    ensures forall i :: 0 <= i < e && i + 1 < |blocks| ==> blocks[i] != []
  {
    if |blocks| <= 1 then |blocks| else if blocks[0] == [] then 0 else 1 + FirstGap(blocks[1..])
  }

  /** What is read of a page: each block for itself up to the first gap, and all behind the gap as one block. */
  function ReadOf(blocks: seq<Bytes>): seq<Slot> {
    var e := FirstGap(blocks);
    SlotsOfBlocks(blocks[..e]) + if e < |blocks| then SlotOf(Page(blocks[e + 1..])) else []
  }

  lemma ReadOfIs(blocks: seq<Bytes>, e: nat)
    requires e == FirstGap(blocks)
    ensures ReadOf(blocks) == SlotsOfBlocks(blocks[..e]) + if e < |blocks| then SlotOf(Page(blocks[e + 1..])) else []
  {
  }

  lemma ReadOfStep(blocks: seq<Bytes>)
    requires |blocks| > 1
    ensures blocks[0] == [] ==> ReadOf(blocks) == SlotOf(Page(blocks[1..]))
    ensures blocks[0] != [] ==> ReadOf(blocks) == SlotOf(blocks[0]) + ReadOf(blocks[1..])
  {
    hide SlotOf, Page;
    if blocks[0] != [] {
      var e := FirstGap(blocks);
      assert blocks[..e][1..] == blocks[1..][..e - 1];
      assert e < |blocks| ==> blocks[e + 1..] == blocks[1..][e..];
    }
  }

  lemma ReadOfOne(b: Bytes)
    ensures ReadOf([b]) == SlotOf(b)
  {
    hide SlotOf;
    assert [b][..1] == [b] && [b][1..] == [];
    assert SlotsOfBlocks([b]) == SlotOf(b) + SlotsOfBlocks([]);
  }

  /** Behind a marker, the blocks are read in order until a gap. */
  lemma {:induction false} PageSlots(blocks: seq<Bytes>)
    requires GoodBlocks(blocks) && blocks != []
    ensures SlotsFrom(blocks[0] + Page(blocks[1..])) == ReadOf(blocks)
    decreases |blocks|
  {
    hide Find, Left, Right, SlotOf, Contains, IsAscii, ReadOf, FirstGap;
    var b := blocks[0];
    if |blocks| == 1 {
      assert b + [] == b && blocks == [b];
      NoMarkIn(b);
      NoSlotInNothing();
      ReadOfOne(b);
    } else {
      var rest := blocks[1] + Page(blocks[2..]);
      assert blocks[1..][1..] == blocks[2..];
      PageIsAscii(blocks[1..]);
      PageSplit(blocks[1], Page(blocks[2..]), Page(blocks[1..]));
      ReadOfStep(blocks);
      assert b + Page(blocks[1..]) == b + MARK + rest;
      if b == [] {
        assert b + MARK + rest == MARK + rest;
        MarkInFront(rest);
      } else {
        MarkSplits(b, rest);
        PageSlots(blocks[1..]);
      }
    }
  }

  lemma NoSlotInNothing()
    ensures SlotOf([]) == []
  {
    assert !MatchesAt([], BAY, 0);
    FirstMatchIff([], BAY);
  }

  lemma PageSplit(b: Bytes, tail: Bytes, page: Bytes)
    requires page == MARK + b + tail && IsAscii(page)
    ensures page == MARK + (b + tail) && IsAscii(b + tail)
  {
    assert page[|MARK|..] == b + tail;
  }

  lemma NoMarkIn(b: Bytes)
    requires IsAscii(b) && !Contains(b, MARK)
    ensures NextMark(b) == 0
  {
    hide Contains;
    AsciiFind(b, MARK, 0);
    FirstMatchIff(b, MARK);
  }

  lemma MarkSplits(b: Bytes, rest: Bytes)
    requires IsAscii(b) && IsAscii(rest) && !Contains(b, MARK)
    ensures var h := b + MARK + rest;
            NextMark(h) == |b| && Left(h, |b|) == b && Right(h, |b| + |MARK|) == rest
  {
    hide Contains, Borderless, Find, FirstMatch, Left, Right;
    var h := b + MARK + rest;
    NeedlesAreBorderless();
    FirstPlanted(b, MARK, rest);
    AsciiFind(h, MARK, 0);
    AsciiPieces(h, |b|);
    AsciiPieces(h, |b| + |MARK|);
    assert h[..|b|] == b && h[|b| + |MARK|..] == rest;
  }

  /** A page of blocks, empty or not, behind any front matter, yields the slots of the blocks in front of the
      first empty one that is not the last, and then what all text behind that one reads as. */
  lemma PageReads(front: Bytes, blocks: seq<Bytes>)
    requires IsAscii(front) && !Contains(front, MARK) && GoodBlocks(blocks)
    ensures SlotsFrom(After(front + Page(blocks), MARK)) == ReadOf(blocks)
  {
    hide Contains, Borderless, Find, FirstMatch, Left, Right, SlotOf, IsAscii;
    if blocks == [] {
      assert front + [] == front;
      AsciiFind(front, MARK, 0);
      FirstMatchIff(front, MARK);
    } else {
      var rest := blocks[0] + Page(blocks[1..]);
      PageIsAscii(blocks);
      PageSplit(blocks[0], Page(blocks[1..]), Page(blocks));
      assert front + Page(blocks) == front + MARK + rest;
      MarkSplits(front, rest);
      MarkIsFound(front, rest);
      PageSlots(blocks);
    }
  }

  /** Where no block but the last is empty, each block is read for itself. */
  lemma PageReadsBack(front: Bytes, blocks: seq<Bytes>)
    requires IsAscii(front) && !Contains(front, MARK) && GoodBlocks(blocks)
    requires forall i :: 0 <= i < |blocks| - 1 ==> blocks[i] != []
    ensures SlotsFrom(After(front + Page(blocks), MARK)) == SlotsOfBlocks(blocks)
  {
    hide Contains, SlotOf, IsAscii, SlotsFrom, Page, SlotsOfBlocks;
    PageReads(front, blocks);
    assert FirstGap(blocks) == |blocks| && blocks[..|blocks|] == blocks;
  }

  lemma MarkIsFound(front: Bytes, rest: Bytes)
    requires IsAscii(front) && IsAscii(rest) && !Contains(front, MARK)
    ensures After(front + MARK + rest, MARK) == Right(front + MARK + rest, |front| + |MARK|)
  {
    hide Contains, Borderless, Find, FirstMatch, Left, Right, Head, Chars, WellFormed;
    NeedlesAreBorderless();
    FirstPlanted(front, MARK, rest);
    AsciiFind(front + MARK + rest, MARK, 0);
    AsciiIsWellFormed(MARK);
  }

  /** A marker right in front is not seen: everything is read as a single block. */
  lemma MarkInFront(rest: Bytes)
    requires IsAscii(rest)
    ensures SlotsFrom(MARK + rest) == SlotOf(MARK + rest)
  {
    hide SlotOf, Find;
    assert MatchesAt(MARK + rest, MARK, 0) by {
      assert (MARK + rest)[0..|MARK|] == MARK;
    }
    AsciiFind(MARK + rest, MARK, 0);
  }

  /** A record as the page shows it, with arbitrary text around its two fields; the address of an empty bay is 0. */
  datatype Record = Record(slot: nat, sas: nat, head: Bytes, mid: Bytes, tail: Bytes) {
    function AddressText(): Bytes {
      [32] + Hexadecimal(sas)
    }

    function Block(): Bytes {
      head + Ascii("bay number: ")
      + (Decimal(slot) + [10] + (mid + Ascii("SAS address:") + (AddressText() + [10] + tail)))
    }

    ghost predicate Good() {
      && slot <= ULLONG_MAX && sas <= ULLONG_MAX
      && IsAscii(head) && IsAscii(mid) && IsAscii(tail)
      && !Contains(head, Ascii("bay number: "))
      && !Contains(AddressText() + [10] + tail, Ascii("SAS address:"))
      && !Contains(Block(), Ascii("element index"))
    }
  }

  /** An occupied bay reads back as its slot, and an empty one as nothing. */
  lemma RecordReadsBack(r: Record)
    requires r.Good()
    ensures r.sas != 0 ==> SlotOf(r.Block()) == [Slot(r.slot, r.sas)]
    ensures r.sas == 0 ==> SlotOf(r.Block()) == []
    ensures r.Block() != [] && IsAscii(r.Block()) && !Contains(r.Block(), MARK)
  {
    hide Contains, Borderless, Between, ReverseAfter, LeftOf, ParseUll, Hexadecimal, Digits;
    NeedlesAreBorderless();
    HexadecimalParses(r.sas);
    DecimalParses(r.slot);
    var address := r.AddressText() + NEWLINE + r.tail;
    var front := r.head + BAY + (Decimal(r.slot) + NEWLINE + r.mid);
    AsciiBetween(r.head, BAY, Decimal(r.slot), r.mid + SAS + address);
    RecordSplits(r, front, address);
    AsciiReverseAfter(front, SAS, address);
    AsciiLeftOf(r.AddressText(), r.tail);
  }

  lemma RecordSplits(r: Record, front: Bytes, address: Bytes)
    requires address == r.AddressText() + NEWLINE + r.tail
    requires front == r.head + BAY + (Decimal(r.slot) + NEWLINE + r.mid)
    ensures r.Block() == front + SAS + address
  {
    hide Hexadecimal, Digits, Decimal;
  }

  lemma AsciiLeftOf(m: Bytes, b: Bytes)
    requires IsAscii(m) && IsAscii(b) && 10 !in m
    ensures LeftOf(m + NEWLINE + b, NEWLINE) == m
  {
    hide Chars, Head, WellFormed, Offset, Covering, FirstMatch, Find, LineEnd;
    var h := m + NEWLINE + b;
    LineEndOf(m, b);
    assert h[0..] == h;
    NewlineMatch(h, 0);
    AsciiFind(h, NEWLINE, 0);
    AsciiPieces(h, |m|);
    assert h[..|m|] == m;
  }

  function BlocksOf(records: seq<Record>): (b: seq<Bytes>)
    ensures |b| == |records| && forall i :: 0 <= i < |b| ==> b[i] == records[i].Block()
  {
    seq(|records|, i requires 0 <= i < |records| => records[i].Block())
  }

  /** The slots of the occupied bays, in order. */
  function SlotsOfRecords(records: seq<Record>): seq<Slot> {
    if records == [] then [] else SlotOfRecord(records[0]) + SlotsOfRecords(records[1..])
  }

  function SlotOfRecord(r: Record): seq<Slot> {
    if r.sas != 0 then [Slot(r.slot, r.sas)] else []
  }

  /** When no bay is empty, there is one slot for every record. */
  lemma {:induction false} AllOccupied(records: seq<Record>)
    requires forall i :: 0 <= i < |records| ==> records[i].sas != 0
    ensures var slots := SlotsOfRecords(records);
            && |slots| == |records|
            && forall i :: 0 <= i < |slots| ==> slots[i] == Slot(records[i].slot, records[i].sas)
  {
    if records == [] {
    } else {
      AllOccupied(records[1..]);
    }
  }

  /** Of any list of good records, rendered as a page, the occupied bays are read back exactly and in order. */
  lemma RecordsReadBack(front: Bytes, records: seq<Record>)
    requires IsAscii(front) && !Contains(front, MARK)
    requires forall i :: 0 <= i < |records| ==> records[i].Good()
    ensures SlotsFrom(After(front + Page(BlocksOf(records)), MARK)) == SlotsOfRecords(records)
  {
    hide SlotsFrom, Page, After, SlotsOfBlocks, SlotsOfRecords, BlocksOf, GoodBlocks, Record.Block, Record.Good;
    BlocksAreGood(records);
    PageReadsBack(front, BlocksOf(records));
    RecordSlots(records);
  }

  lemma BlocksAreGood(records: seq<Record>)
    requires forall i :: 0 <= i < |records| ==> records[i].Good()
    ensures GoodBlocks(BlocksOf(records)) && forall i :: 0 <= i < |records| ==> BlocksOf(records)[i] != []
  {
    hide Contains, IsAscii, SlotOf, Record.Block, Record.Good;
    forall i | 0 <= i < |records|
      ensures var b := BlocksOf(records)[i]; b != [] && IsAscii(b) && !Contains(b, MARK)
    {
      RecordReadsBack(records[i]);
    }
  }

  lemma {:induction false} SlotsConcat(a: seq<Record>, b: seq<Record>)
    ensures SlotsOfRecords(a + b) == SlotsOfRecords(a) + SlotsOfRecords(b)
  {
    hide SlotsOfRecords, SlotOfRecord;
    NoRecordsNoSlots();
    if a == [] {
      assert a + b == b;
    } else {
      var rest := a[1..];
      assert a + b == [a[0]] + (rest + b) && a == [a[0]] + rest;
      FirstSlot(a[0], rest + b);
      FirstSlot(a[0], rest);
      SlotsConcat(rest, b);
    }
  }

  lemma NoRecordsNoSlots()
    ensures SlotsOfRecords([]) == []
  {
  }

  lemma FirstSlot(r: Record, rest: seq<Record>)
    ensures SlotsOfRecords([r] + rest) == SlotOfRecord(r) + SlotsOfRecords(rest)
  {
    hide SlotOfRecord;
    assert ([r] + rest)[1..] == rest;
  }

  lemma {:induction false} NoSlotsIff(records: seq<Record>)
    ensures SlotsOfRecords(records) == [] <==> forall i :: 0 <= i < |records| ==> records[i].sas == 0
  {
    if records == [] {
    } else {
      NoSlotsIff(records[1..]);
      assert forall i :: 0 <= i < |records[1..]| ==> records[1..][i] == records[i + 1];
    }
  }

  lemma OneSlot(r: Record)
    ensures SlotsOfRecords([r]) == if r.sas != 0 then [Slot(r.slot, r.sas)] else []
  {
    assert [r][1..] == [];
  }

  lemma {:induction false} RecordSlots(records: seq<Record>)
    requires forall i :: 0 <= i < |records| ==> records[i].Good()
    ensures SlotsOfBlocks(BlocksOf(records)) == SlotsOfRecords(records)
  {
    hide SlotOf, Contains, IsAscii;
    if records == [] {
    } else {
      RecordReadsBack(records[0]);
      RecordSlots(records[1..]);
      assert BlocksOf(records)[1..] == BlocksOf(records[1..]);
    }
  }

  // ---- pages with empty blocks ----

  /** The blocks of a page in which some blocks are empty. */
  function BlocksWithGaps(entries: seq<Option<Record>>): (b: seq<Bytes>)
    ensures |b| == |entries|
    ensures forall i :: 0 <= i < |b| ==> b[i] == if entries[i].Some? then entries[i].value.Block() else []
  {
    seq(|entries|, i requires 0 <= i < |entries| => if entries[i].Some? then entries[i].value.Block() else [])
  }

  function RecordsOf(entries: seq<Option<Record>>): seq<Record> {
    if entries == [] then [] else (if entries[0].Some? then [entries[0].value] else []) + RecordsOf(entries[1..])
  }

  ghost predicate GoodEntries(entries: seq<Option<Record>>) {
    forall i :: 0 <= i < |entries| && entries[i].Some? ==> entries[i].value.Good()
  }

  /** The first empty block that is not the last; the number of blocks when there is none. */
  function FirstEmpty(entries: seq<Option<Record>>): (e: nat)
    ensures e <= |entries|
    ensures e < |entries| ==> entries[e] == None && e + 1 < |entries|
    ensures forall i :: 0 <= i < e && i + 1 < |entries| ==> entries[i].Some?
  {
    if |entries| <= 1 then |entries| else if entries[0] == None then 0 else 1 + FirstEmpty(entries[1..])
  }

  /** What becomes of the records behind an empty block: the bay number of the first of them with the address
      of the last, and nothing if that address is 0. */
  function Merged(records: seq<Record>): seq<Slot> {
    if records == [] || records[|records| - 1].sas == 0 then []
    else [Slot(records[0].slot, records[|records| - 1].sas)]
  }

  /** Merging loses nothing: there is at most one record, or every bay is empty, or only the last is occupied and the
      first has the same bay number. */
  predicate MergeIsHarmless(records: seq<Record>) {
    var n := |records|;
    || n <= 1
    || (forall i :: 0 <= i < n ==> records[i].sas == 0)
    || (records[0].slot == records[n - 1].slot && forall i :: 0 <= i < n - 1 ==> records[i].sas == 0)
  }

  /** For every page of good records and empty blocks, what is read. */
  lemma GapsRead(front: Bytes, entries: seq<Option<Record>>)
    requires IsAscii(front) && !Contains(front, MARK) && GoodEntries(entries)
    ensures var e := FirstEmpty(entries);
            SlotsFrom(After(front + Page(BlocksWithGaps(entries)), MARK)) ==
            SlotsOfRecords(RecordsOf(entries[..e])) +
            if e < |entries| then Merged(RecordsOf(entries[e + 1..])) else []
  {
    hide *;
    var blocks := BlocksWithGaps(entries);
    var e := FirstEmpty(entries);
    EntriesAreBlocks(entries);
    PageReads(front, blocks);
    SameGap(entries);
    ReadOfIs(blocks, e);
    BlockPieces(entries, 0, e);
    EntrySlots(entries[..e]);
    if e < |entries| {
      BlockPieces(entries, e + 1, |entries|);
      GapSlot(entries[e + 1..]);
    }
  }

  lemma BlockPieces(entries: seq<Option<Record>>, i: nat, j: nat)
    requires i <= j <= |entries| && GoodEntries(entries)
    ensures BlocksWithGaps(entries)[i..j] == BlocksWithGaps(entries[i..j]) && GoodEntries(entries[i..j])
    ensures i == 0 ==> BlocksWithGaps(entries)[..j] == BlocksWithGaps(entries[..j]) && GoodEntries(entries[..j])
    ensures j == |entries| ==> BlocksWithGaps(entries)[i..] == BlocksWithGaps(entries[i..]) && GoodEntries(entries[i..])
  {
    hide Record.Block, Record.Good;
    assert entries[i..j] == entries[..j][i..];
    assert i == 0 ==> entries[i..j] == entries[..j];
    assert j == |entries| ==> entries[i..j] == entries[i..];
  }

  /** A page is read back exactly if and only if there is no gap or merging the records behind the first is harmless. */
  lemma ReadBackIff(front: Bytes, entries: seq<Option<Record>>)
    requires IsAscii(front) && !Contains(front, MARK) && GoodEntries(entries)
    ensures var e := FirstEmpty(entries);
            SlotsFrom(After(front + Page(BlocksWithGaps(entries)), MARK)) == SlotsOfRecords(RecordsOf(entries)) <==>
            e == |entries| || MergeIsHarmless(RecordsOf(entries[e + 1..]))
  {
    hide *;
    GapsRead(front, entries);
    var e := FirstEmpty(entries);
    if e == |entries| {
      assert entries[..e] == entries;
      NothingBehind(SlotsOfRecords(RecordsOf(entries)));
    } else {
      RecordsSplit(entries, e);
      MergedIff(RecordsOf(entries[..e]), RecordsOf(entries[e + 1..]));
    }
  }

  lemma NothingBehind(slots: seq<Slot>)
    ensures slots + [] == slots
  {
  }

  lemma MergedIff(before: seq<Record>, behind: seq<Record>)
    ensures SlotsOfRecords(before) + Merged(behind) == SlotsOfRecords(before + behind) <==> MergeIsHarmless(behind)
  {
    hide SlotsOfRecords, MergeIsHarmless, Merged;
    SlotsConcat(before, behind);
    MergedBehindIff(behind);
    SameTail(SlotsOfRecords(before), Merged(behind), SlotsOfRecords(behind));
  }

  lemma MergedBehindIff(behind: seq<Record>)
    ensures Merged(behind) == SlotsOfRecords(behind) <==> MergeIsHarmless(behind)
  {
    hide SlotsOfRecords, MergeIsHarmless, Merged;
    NoSlotsIff(behind);
    var n := |behind|;
    if n == 0 {
      NothingMerged();
    } else {
      var init, last := behind[..n - 1], behind[n - 1];
      NoSlotsIff(init);
      assert behind == init + [last];
      SlotsConcat(init, [last]);
      OneSlot(last);
      MergeCases(init, last);
      AddedBehind(SlotsOfRecords(init), Slot(last.slot, last.sas), Slot(behind[0].slot, last.sas));
    }
  }

  lemma NothingMerged()
    ensures Merged([]) == [] && MergeIsHarmless([])
  {
  }

  lemma MergeCases(init: seq<Record>, last: Record)
    ensures var behind := init + [last];
            && Merged(behind) == (if last.sas == 0 then [] else [Slot(behind[0].slot, last.sas)])
            && ((forall i :: 0 <= i < |behind| ==> behind[i].sas == 0) <==>
                  last.sas == 0 && forall i :: 0 <= i < |init| ==> init[i].sas == 0)
            && (MergeIsHarmless(behind) <==>
                  if last.sas == 0 then forall i :: 0 <= i < |init| ==> init[i].sas == 0
                  else behind[0].slot == last.slot && forall i :: 0 <= i < |init| ==> init[i].sas == 0)
  {
    var behind := init + [last];
    assert forall i :: 0 <= i < |init| ==> behind[i] == init[i];
    assert behind[|init|] == last;
  }

  lemma AddedBehind(a: seq<Slot>, x: Slot, y: Slot)
    ensures [y] == a + [x] <==> a == [] && x == y
  {
    if a == [] {
      assert a + [x] == [x] && [x][0] == x && [y][0] == y;
    } else {
      assert |a + [x]| > 1;
    }
  }

  lemma SameTail(a: seq<Slot>, b: seq<Slot>, c: seq<Slot>)
    ensures a + b == a + c <==> b == c
  {
    assert b == (a + b)[|a|..] && c == (a + c)[|a|..];
  }

  /** Two records behind an empty block become one slot that belongs to neither, or none if the last bay is empty. */
  lemma EmptyBlockSwallowsRest(r1: Record, r2: Record)
    requires r1.Good() && r2.Good()
    ensures SlotsFrom(After(MARK + (MARK + r1.Block() + MARK + r2.Block()), MARK)) ==
            if r2.sas != 0 then [Slot(r1.slot, r2.sas)] else []
  {
    hide SlotsFrom, Contains, IsAscii, SlotsOfRecords, Merged, Record.Block, Record.Good, Page, After, RecordsOf;
    hide BlocksWithGaps;
    var entries := [None, Some(r1), Some(r2)];
    var blocks := BlocksWithGaps(entries);
    assert blocks == [[], r1.Block(), r2.Block()];
    assert GoodEntries(entries);
    ThreeBlocks(r1.Block(), r2.Block());
    NothingIsAscii();
    GapsRead([], entries);
    assert [] + Page(blocks) == Page(blocks);
    BothBehind(r1, r2);
  }

  lemma BothBehind(r1: Record, r2: Record)
    ensures var entries := [None, Some(r1), Some(r2)];
            && FirstEmpty(entries) == 0
            && SlotsOfRecords(RecordsOf(entries[..0])) == []
            && Merged(RecordsOf(entries[1..])) == if r2.sas != 0 then [Slot(r1.slot, r2.sas)] else []
  {
    hide Record.Block, Record.Good;
    var entries := [None, Some(r1), Some(r2)];
    assert entries[1..] == [Some(r1), Some(r2)] && entries[1..][1..] == [Some(r2)] && entries[..0] == [];
    assert RecordsOf([Some(r2)][1..]) == [];
    assert RecordsOf([Some(r2)]) == [r2];
    assert RecordsOf(entries[1..]) == [r1] + [r2];
  }

  lemma NothingIsAscii()
    ensures IsAscii([]) && !Contains([], MARK)
  {
  }

  lemma ThreeBlocks(b: Bytes, c: Bytes)
    ensures Page([[], b, c]) == MARK + (MARK + b + MARK + c)
  {
    assert [[], b, c][1..] == [b, c] && [b, c][1..] == [c] && [c][1..] == [];
    assert Page([c]) == MARK + c;
    assert Page([b, c]) == MARK + b + Page([c]);
    assert Page([[], b, c]) == MARK + [] + Page([b, c]);
  }

  lemma EntriesAreBlocks(entries: seq<Option<Record>>)
    requires GoodEntries(entries)
    ensures GoodBlocks(BlocksWithGaps(entries))
  {
    hide Contains;
    forall i | 0 <= i < |entries|
      ensures IsAscii(BlocksWithGaps(entries)[i]) && !Contains(BlocksWithGaps(entries)[i], MARK)
    {
      if entries[i].Some? {
        RecordReadsBack(entries[i].value);
      } else {
        NothingIsAscii();
      }
    }
  }

  lemma {:induction false} SameGap(entries: seq<Option<Record>>)
    requires GoodEntries(entries)
    ensures FirstGap(BlocksWithGaps(entries)) == FirstEmpty(entries)
  {
    hide Contains, Record.Block, IsAscii, SlotOf;
    if |entries| <= 1 {
    } else if entries[0] == None {
    } else {
      RecordReadsBack(entries[0].value);
      assert BlocksWithGaps(entries)[1..] == BlocksWithGaps(entries[1..]);
      SameGap(entries[1..]);
    }
  }

  lemma {:induction false} EntrySlots(entries: seq<Option<Record>>)
    requires GoodEntries(entries)
    ensures SlotsOfBlocks(BlocksWithGaps(entries)) == SlotsOfRecords(RecordsOf(entries))
  {
    hide SlotOf, Contains, Record.Block, Record.Good, IsAscii;
    if entries == [] {
    } else {
      EntrySlots(entries[1..]);
      assert BlocksWithGaps(entries)[1..] == BlocksWithGaps(entries[1..]);
      var rest := RecordsOf(entries[1..]);
      if entries[0].Some? {
        var r := entries[0].value;
        RecordReadsBack(r);
        SlotsConcat([r], rest);
        OneSlot(r);
      } else {
        NoSlotInNothing();
        assert [] + rest == rest;
      }
    }
  }

  lemma {:induction false} RecordsSplit(entries: seq<Option<Record>>, e: nat)
    requires e < |entries| && entries[e] == None
    ensures RecordsOf(entries) == RecordsOf(entries[..e]) + RecordsOf(entries[e + 1..])
  {
    if e == 0 {
      assert entries[..0] == [];
    } else {
      assert entries[..e][1..] == entries[1..][..e - 1];
      assert entries[1..][e..] == entries[e + 1..];
      RecordsSplit(entries[1..], e - 1);
    }
  }

  /** A needle no part of which runs across the beginning or the end of a marker. */
  predicate Foreign(w: Bytes) {
    && w != [] && |w| < |MARK| && w[0] !in MARK
    && forall k :: 0 <= k < |w| && w[k] == MARK[0] ==> k + 1 < |w| && w[k + 1] != MARK[1]
  }

  lemma FieldsAreForeign()
    ensures Foreign(BAY) && Foreign(SAS)
  {
  }

  lemma OverMark(a: Bytes, b: Bytes, w: Bytes, p: nat)
    requires MatchesAt(a + MARK + b, w, p)
    ensures forall j :: 0 <= j < |w| && 0 <= p + j - |a| < |MARK| ==> w[j] == MARK[p + j - |a|]
  {
    MatchIndices(a + MARK + b, w, p);
  }

  lemma OffMark(a: Bytes, b: Bytes, w: Bytes, p: nat)
    requires Foreign(w) && MatchesAt(a + MARK + b, w, p)
    ensures p < |a| || p >= |a| + |MARK|
    ensures p + |w| <= |a| || p >= |a|
  {
    hide MatchesAt;
    OverMark(a, b, w, p);
    var k := if 0 <= |a| - p < |w| then |a| - p else 0;
    assert w[k] in w;
    assert w[k] == MARK[0] ==> k + 1 < |w| && w[k + 1] != MARK[1];
  }

  /** A foreign needle does not come about by setting a marker between two texts. */
  lemma ContainsAside(a: Bytes, b: Bytes, w: Bytes)
    requires Foreign(w) && Contains(a + MARK + b, w)
    ensures Contains(a, w) || Contains(b, w)
  {
    hide Foreign;
    var h := a + MARK + b;
    var p: nat :| MatchesAt(h, w, p);
    OffMark(a, b, w, p);
    if p + |w| <= |a| {
      assert a[p..p + |w|] == h[p..p + |w|];
      assert MatchesAt(a, w, p);
    } else {
      var q := p - |a| - |MARK|;
      assert b[q..q + |w|] == h[p..p + |w|];
      assert MatchesAt(b, w, q);
    }
  }

  lemma NothingContained(w: Bytes)
    requires w != []
    ensures !Contains([], w)
  {
  }

  lemma NoneAcross(a: Bytes, b: Bytes, w: Bytes)
    requires Foreign(w) && !Contains(a, w) && !Contains(b, w)
    ensures !Contains(a + MARK + b, w)
  {
    hide Contains, Foreign;
    if Contains(a + MARK + b, w) {
      ContainsAside(a, b, w);
    }
  }

  lemma PageStep(entries: seq<Option<Record>>)
    requires entries != []
    ensures var b := if entries[0].Some? then entries[0].value.Block() else [];
            Page(BlocksWithGaps(entries)) == MARK + b + Page(BlocksWithGaps(entries[1..]))
  {
    assert BlocksWithGaps(entries)[1..] == BlocksWithGaps(entries[1..]);
  }

  lemma {:induction false} EntriesPageIsAscii(entries: seq<Option<Record>>)
    requires GoodEntries(entries)
    ensures IsAscii(Page(BlocksWithGaps(entries)))
  {
    hide Contains, IsAscii;
    EntriesAreBlocks(entries);
    PageIsAscii(BlocksWithGaps(entries));
  }

  /** Empty blocks behind a text bring no needle in. */
  lemma {:induction false} OnlyMarks(a: Bytes, entries: seq<Option<Record>>, w: Bytes)
    requires Foreign(w) && !Contains(a, w) && RecordsOf(entries) == []
    ensures !Contains(a + Page(BlocksWithGaps(entries)), w)
    decreases entries
  {
    hide Contains, Foreign;
    var page := Page(BlocksWithGaps(entries));
    if entries == [] {
      assert a + page == a;
    } else {
      var rest := Page(BlocksWithGaps(entries[1..]));
      PageStep(entries);
      EmptyHasNo(w);
      OnlyMarks([], entries[1..], w);
      assert [] + rest == rest;
      NoneAcross(a, rest, w);
      assert a + page == a + MARK + rest;
    }
  }

  lemma EmptyHasNo(w: Bytes)
    requires Foreign(w)
    ensures !Contains([], w)
  {
    NothingContained(w);
  }

  // ---- the text behind an empty block ----

  lemma AsciiJoin(a: Bytes, b: Bytes)
    requires IsAscii(a) && IsAscii(b)
    ensures IsAscii(a + b)
  {
  }

  lemma Regroup(m: Bytes, f: Bytes, w: Bytes, x: Bytes, rest: Bytes)
    ensures m + (f + w + x) + rest == (m + f) + w + (x + rest)
  {
  }

  lemma RegroupField(d: Bytes, n: Bytes, x: Bytes, rest: Bytes)
    ensures (d + n + x) + rest == d + n + (x + rest)
  {
  }

  /** The text of a marked record in front of other text, seen from its bay number. */
  lemma BayOf(r: Record, rest: Bytes) returns (behind: Bytes)
    requires r.Good() && IsAscii(rest)
    ensures MARK + r.Block() + rest == (MARK + r.head) + BAY + (Decimal(r.slot) + NEWLINE + behind)
    ensures IsAscii(MARK + r.head) && IsAscii(behind) && !Contains(MARK + r.head, BAY)
  {
    hide Contains, Foreign, Hexadecimal, Decimal, Digits;
    var x := r.mid + SAS + (r.AddressText() + NEWLINE + r.tail);
    behind := x + rest;
    HexadecimalParses(r.sas);
    Regroup(MARK, r.head, BAY, Decimal(r.slot) + NEWLINE + x, rest);
    RegroupField(Decimal(r.slot), NEWLINE, x, rest);
    FieldsAreForeign();
    EmptyHasNo(BAY);
    NoneAcross([], r.head, BAY);
    assert [] + MARK + r.head == MARK + r.head;
    AsciiJoin(MARK, r.head);
  }

  /** ... and from its address. */
  lemma SasOf(r: Record, rest: Bytes) returns (front: Bytes)
    requires r.Good() && IsAscii(rest)
    ensures MARK + r.Block() + rest == front + SAS + (r.AddressText() + NEWLINE + (r.tail + rest))
    ensures IsAscii(front) && IsAscii(r.tail + rest) && IsAscii(r.AddressText())
  {
    hide Contains, Hexadecimal, Decimal, Digits;
    var f := r.head + BAY + (Decimal(r.slot) + NEWLINE + r.mid);
    var address := r.AddressText() + NEWLINE + r.tail;
    front := MARK + f;
    HexadecimalParses(r.sas);
    DecimalIsAscii(r.slot);
    RecordSplits(r, f, address);
    Regroup(MARK, f, SAS, address, rest);
    RegroupField(r.AddressText(), NEWLINE, r.tail, rest);
    AsciiJoin(MARK, f);
    AsciiJoin(r.tail, rest);
  }

  lemma DecimalIsAscii(n: nat)
    ensures IsAscii(Decimal(n))
  {
  }

  /** In front of the first bay number stands no other. */
  lemma {:induction false} FirstBay(entries: seq<Option<Record>>) returns (front: Bytes, behind: Bytes)
    requires GoodEntries(entries) && RecordsOf(entries) != []
    ensures Page(BlocksWithGaps(entries)) ==
            front + BAY + (Decimal(RecordsOf(entries)[0].slot) + NEWLINE + behind)
    ensures IsAscii(front) && IsAscii(behind) && !Contains(front, BAY)
    decreases entries
  {
    hide Contains, Record.Good, Record.Block, IsAscii, Foreign, Hexadecimal, Decimal, Digits, Page;
    var rest := Page(BlocksWithGaps(entries[1..]));
    PageStep(entries);
    EntriesPageIsAscii(entries[1..]);
    if entries[0].Some? {
      front := MARK + entries[0].value.head;
      behind := BayOf(entries[0].value, rest);
    } else {
      var f;
      f, behind := FirstBay(entries[1..]);
      front := MARK + f;
      FieldsAreForeign();
      EmptyHasNo(BAY);
      NoneAcross([], f, BAY);
      AsciiJoin(MARK, f);
      assert [] + MARK + f == front;
      Regroup(MARK, f, BAY, Decimal(RecordsOf(entries)[0].slot) + NEWLINE + behind, []);
    }
  }

  /** Behind the last address stands no other. */
  lemma {:induction false} LastSas(entries: seq<Option<Record>>) returns (front: Bytes, tail: Bytes)
    requires GoodEntries(entries) && RecordsOf(entries) != []
    ensures var last := RecordsOf(entries)[|RecordsOf(entries)| - 1];
            && Page(BlocksWithGaps(entries)) == front + SAS + (last.AddressText() + NEWLINE + tail)
            && IsAscii(front) && IsAscii(tail) && IsAscii(last.AddressText())
            && !Contains(last.AddressText() + NEWLINE + tail, SAS)
    decreases entries
  {
    hide *;
    NoRecords();
    var rest := Page(BlocksWithGaps(entries[1..]));
    PageStep(entries);
    RecordsStep(entries);
    EntriesPageIsAscii(entries[1..]);
    if RecordsOf(entries[1..]) != [] {
      var last := RecordsOf(entries)[|RecordsOf(entries)| - 1];
      var block := if entries[0].Some? then entries[0].value.Block() else [];
      var f;
      f, tail := LastSas(entries[1..]);
      front := MARK + block + f;
      BlockIsAscii(entries);
      MarkIsAscii();
      AsciiJoin(MARK, block);
      AsciiJoin(MARK + block, f);
      Regroup(MARK + block, f, SAS, last.AddressText() + NEWLINE + tail, []);
    } else {
      var r := entries[0].value;
      front := SasOf(r, rest);
      tail := r.tail + rest;
      SasOnce(r, entries[1..]);
      RegroupField(r.AddressText(), NEWLINE, r.tail, rest);
    }
  }

  lemma NoRecords()
    ensures RecordsOf([]) == []
  {
  }

  lemma MarkIsAscii()
    ensures IsAscii(MARK)
  {
  }

  lemma RecordsStep(entries: seq<Option<Record>>)
    requires entries != [] && GoodEntries(entries)
    ensures GoodEntries(entries[1..]) && (entries[0].Some? ==> entries[0].value.Good())
    ensures RecordsOf(entries) == (if entries[0].Some? then [entries[0].value] else []) + RecordsOf(entries[1..])
  {
    hide Record.Good;
  }

  /** Only empty blocks behind a record: no further address. */
  lemma SasOnce(r: Record, entries: seq<Option<Record>>)
    requires r.Good() && RecordsOf(entries) == []
    ensures !Contains(r.AddressText() + NEWLINE + r.tail + Page(BlocksWithGaps(entries)), SAS)
  {
    hide Contains, Foreign, Record.AddressText, Page, BlocksWithGaps, RecordsOf;
    FieldsAreForeign();
    OnlyMarks(r.AddressText() + NEWLINE + r.tail, entries, SAS);
  }

  lemma BlockIsAscii(entries: seq<Option<Record>>)
    requires GoodEntries(entries) && entries != []
    ensures IsAscii(if entries[0].Some? then entries[0].value.Block() else [])
  {
    hide Contains;
    EntriesAreBlocks(entries);
    assert IsAscii(BlocksWithGaps(entries)[0]);
  }

  /** All text behind an empty block reads as the first bay number and the last address in it. */
  lemma GapSlot(entries: seq<Option<Record>>)
    requires GoodEntries(entries)
    ensures SlotOf(Page(BlocksWithGaps(entries))) == Merged(RecordsOf(entries))
  {
    hide Contains, IsAscii, Foreign, Hexadecimal, Decimal, Digits, Page, BlocksWithGaps, Between, ReverseAfter, LeftOf;
    hide ParseUll, Borderless, Record.Block, Record.AddressText;
    var page, records := Page(BlocksWithGaps(entries)), RecordsOf(entries);
    NeedlesAreBorderless();
    if records == [] {
      FieldsAreForeign();
      EmptyHasNo(BAY);
      OnlyMarks([], entries, BAY);
      assert [] + page == page;
      NoBay(page);
    } else {
      var first, last := records[0], records[|records| - 1];
      var front, behind := FirstBay(entries);
      var front', tail := LastSas(entries);
      RecordsAreGood(entries);
      GoodNumbers(first);
      GoodNumbers(last);
      AsciiBetween(front, BAY, Decimal(first.slot), behind);
      AsciiAddress(front', last, tail);
    }
  }

  lemma NoBay(page: Bytes)
    requires !Contains(page, BAY)
    ensures SlotOf(page) == []
  {
    FirstMatchIff(page, BAY);
  }

  lemma AsciiAddress(front: Bytes, r: Record, tail: Bytes)
    requires IsAscii(front) && IsAscii(tail) && IsAscii(r.AddressText()) && 10 !in r.AddressText()
    requires !Contains(r.AddressText() + NEWLINE + tail, SAS)
    ensures LeftOf(ReverseAfter(front + SAS + (r.AddressText() + NEWLINE + tail), SAS), NEWLINE) == r.AddressText()
  {
    hide Contains, Borderless, ReverseAfter, LeftOf, Record.AddressText;
    NeedlesAreBorderless();
    AsciiReverseAfter(front, SAS, r.AddressText() + NEWLINE + tail);
    AsciiLeftOf(r.AddressText(), tail);
  }

  /** The numbers of a good record read back. */
  lemma GoodNumbers(r: Record)
    requires r.Good()
    ensures ParseUll(Decimal(r.slot)) == r.slot && Decimal(r.slot) != [] && IsAscii(Decimal(r.slot))
    ensures 10 !in Decimal(r.slot)
    ensures ParseUll(r.AddressText()) == r.sas && 10 !in r.AddressText()
  {
    hide Contains, ParseUll;
    DecimalParses(r.slot);
    HexadecimalParses(r.sas);
  }

  lemma {:induction false} RecordsAreGood(entries: seq<Option<Record>>)
    requires GoodEntries(entries)
    ensures forall r :: r in RecordsOf(entries) ==> r.Good()
  {
    hide Contains, Record.Good;
    if entries == [] {
    } else {
      RecordsAreGood(entries[1..]);
    }
  }
}
