/** UTF-8 from the encoding side: how code points are spelt, by arithmetic alone, and that the decoder takes exactly
    these spellings. The engine also takes spellings longer than needed, and code points up to 1FFFFF. */
module Encoding {
  import opened Arithmetic
  import opened Utf8
  import opened Slices

  /** A code point and the number of bytes it is spelt with. */
  datatype Unit = Unit(code: nat, size: nat) {
    /** The code point fits its size, and is not the single byte 7F, which the engine refuses. */
    predicate Fits() {
      || (size == 1 && code < 0x7f)
      || (size == 2 && code < 0x800)
      || (size == 3 && code < 0x1_0000)
      || (size == 4 && code < 0x20_0000)
    }
  }

  function Spell(u: Unit): (s: Bytes)
    requires u.Fits()
    ensures |s| == u.size
  {
    var c := u.code;
    if u.size == 1 then [c]
    else if u.size == 2 then [0xc0 + c / 64, 0x80 + c % 64]
    else if u.size == 3 then [0xe0 + c / 4096, 0x80 + c / 64 % 64, 0x80 + c % 64]
    else [0xf0 + c / 262144, 0x80 + c / 4096 % 64, 0x80 + c / 64 % 64, 0x80 + c % 64]
  }

  predicate AllFit(us: seq<Unit>) {
    forall i :: 0 <= i < |us| ==> us[i].Fits()
  }

  function Spellings(us: seq<Unit>): (r: seq<Bytes>)
    requires AllFit(us)
    ensures |r| == |us| && forall i :: 0 <= i < |us| ==> r[i] == Spell(us[i])
  {
    seq(|us|, i requires 0 <= i < |us| => Spell(us[i]))
  }

  function SpellAll(us: seq<Unit>): Bytes
    requires AllFit(us)
  {
    if us == [] then [] else Spell(us[0]) + SpellAll(us[1..])
  }

  /** A spelling is decoded as a whole, whatever follows it. */
  lemma SpellingDecodes(u: Unit, rest: Bytes)
    requires u.Fits()
    ensures Head(Spell(u) + rest) == u.size
  {
    var s := Spell(u) + rest;
    assert forall k :: 0 <= k < u.size ==> s[k] == Spell(u)[k];
  }

  /** Conversely, whatever the decoder takes from the front is the spelling of a code point. */
  lemma DecodedIsSpelling(s: Bytes) returns (u: Unit)
    requires Head(s) > 0
    ensures u.Fits() && u.size == Head(s) && s[..Head(s)] == Spell(u)
  {
    var n := Head(s);
    if n == 1 {
      u := Unit(s[0], 1);
    } else if n == 2 {
      u := TwoBytes(s[0], s[1]);
    } else if n == 3 {
      u := ThreeBytes(s[0], s[1], s[2]);
    } else {
      u := FourBytes(s[0], s[1], s[2], s[3]);
    }
  }

  lemma TwoBytes(a: Byte, b: Byte) returns (u: Unit)
    requires a / 32 == 6 && b / 64 == 2
    ensures u.Fits() && u.size == 2 && Spell(u) == [a, b]
  {
    var x: nat, y: nat := a as int - 0xc0, b as int - 0x80;
    u := Unit(x * 64 + y, 2);
  }

  lemma ThreeBytes(a: Byte, b: Byte, c: Byte) returns (u: Unit)
    requires a / 16 == 14 && b / 64 == 2 && c / 64 == 2
    ensures u.Fits() && u.size == 3 && Spell(u) == [a, b, c]
  {
    var x: nat, y: nat, z: nat := a as int - 0xe0, b as int - 0x80, c as int - 0x80;
    Digits(0, x, y, z);
    u := Unit(x * 4096 + y * 64 + z, 3);
  }

  lemma FourBytes(a: Byte, b: Byte, c: Byte, d: Byte) returns (u: Unit)
    requires a / 8 == 30 && b / 64 == 2 && c / 64 == 2 && d / 64 == 2
    ensures u.Fits() && u.size == 4 && Spell(u) == [a, b, c, d]
  {
    var w: nat, x: nat, y: nat, z: nat := a as int - 0xf0, b as int - 0x80, c as int - 0x80, d as int - 0x80;
    Digits(w, x, y, z);
    u := Unit(w * 262144 + x * 4096 + y * 64 + z, 4);
  }

  /** The digits of a number in base 64. */
  lemma Digits(w: nat, x: nat, y: nat, z: nat)
    requires x < 64 && y < 64 && z < 64
    ensures var c := w * 262144 + x * 4096 + y * 64 + z;
            c / 262144 == w && c / 4096 % 64 == x && c / 64 % 64 == y && c % 64 == z && (w == 0 ==> c / 4096 == x)
  {
    var c := w * 262144 + x * 4096 + y * 64 + z;
    assert c / 64 == w * 4096 + x * 64 + y;
    assert c / 4096 == w * 64 + x;
  }

  /** A spelt text is well-formed, and its code points are the spellings, one by one. */
  lemma {:induction false} SpeltDecodes(us: seq<Unit>)
    requires AllFit(us)
    ensures WellFormed(SpellAll(us)) && Chars(SpellAll(us)) == Spellings(us)
    decreases |us|
  {
    hide *;
    if us == [] {
      NothingDecodes();
    } else {
      var u, more := us[0], us[1..];
      assert us == [u] + more;
      FitParts(us);
      SpellOneMore(u, more);
      SpeltDecodes(more);
      SpellingDecodes(u, SpellAll(more));
      SizeIsPositive(u);
      FirstDecoded(Spell(u), SpellAll(more));
    }
  }

  lemma FitParts(us: seq<Unit>)
    requires AllFit(us) && us != []
    ensures us[0].Fits() && AllFit(us[1..])
  {
    hide Unit.Fits;
  }

  lemma SizeIsPositive(u: Unit)
    requires u.Fits()
    ensures u.size > 0 && Spell(u) != []
  {
    hide Spell;
  }

  lemma FirstDecoded(a: Bytes, b: Bytes)
    requires a != [] && Head(a + b) == |a|
    ensures WellFormed(a + b) <==> WellFormed(b)
    ensures Chars(a + b) == [a] + Chars(b)
  {
    hide Head;
    assert (a + b)[..|a|] == a && (a + b)[|a|..] == b;
  }

  lemma NothingDecodes()
    ensures WellFormed([]) && Chars([]) == [] && SpellAll([]) == [] && Spellings([]) == []
  {
  }

  /** Every well-formed text is spelt by some code points. */
  lemma {:induction false} WellFormedIsSpelt(s: Bytes) returns (us: seq<Unit>)
    requires WellFormed(s)
    ensures AllFit(us) && s == SpellAll(us)
    decreases |s|
  {
    hide Head, Spell;
    if s == [] {
      us := [];
    } else {
      var u := DecodedIsSpelling(s);
      var rest := WellFormedIsSpelt(s[u.size..]);
      us := [u] + rest;
      SpellOneMore(u, rest);
      assert s == s[..u.size] + s[u.size..];
    }
  }

  lemma SpellOneMore(u: Unit, rest: seq<Unit>)
    requires u.Fits() && AllFit(rest)
    ensures AllFit([u] + rest) && SpellAll([u] + rest) == Spell(u) + SpellAll(rest)
    ensures Spellings([u] + rest) == [Spell(u)] + Spellings(rest)
  {
    hide Spell, Unit.Fits;
    assert ([u] + rest)[1..] == rest;
  }

  /** Well-formed texts are exactly the spelt ones. */
  lemma WellFormedIffSpelt(s: Bytes)
    ensures WellFormed(s) <==> exists us :: AllFit(us) && s == SpellAll(us)
  {
    if WellFormed(s) {
      var us := WellFormedIsSpelt(s);
      assert AllFit(us) && s == SpellAll(us);
    }
    if us :| AllFit(us) && s == SpellAll(us) {
      SpeltDecodes(us);
    }
  }

  /** The first `n` code points of a spelt text, as a string keeps them when it is assigned. */
  lemma {:induction false} LeftOfSpelt(us: seq<Unit>, n: nat)
    requires AllFit(us)
    ensures Left(SpellAll(us), n) == SpellAll(us[..Min(n, |us|)])
    decreases |us|
  {
    hide Head, Spell, Offset, SpellAll;
    NothingAtAll();
    if us == [] || n == 0 {
      OffsetStep(SpellAll(us), n);
      assert us[..Min(n, |us|)] == [];
    } else {
      var u, more := us[0], us[1..];
      var kept := more[..Min(n - 1, |more|)];
      assert us == [u] + more && us[..Min(n, |us|)] == [u] + kept;
      SpellOneMore(u, more);
      SpellOneMore(u, kept);
      SpellingDecodes(u, SpellAll(more));
      OffsetStep(SpellAll(us), n);
      LeftOfSpelt(more, n - 1);
      LeftBehind(Spell(u), SpellAll(more), Offset(SpellAll(more), n - 1));
    }
  }

  lemma LeftBehind(a: Bytes, b: Bytes, k: nat)
    requires k <= |b|
    ensures (a + b)[..|a| + k] == a + b[..k] && (a + b)[|a|..] == b
  {
  }

  lemma NothingAtAll()
    ensures Head([]) == 0 && SpellAll([]) == [] && forall s: Bytes :: s[..0] == []
  {
  }

  // ---- the shortest spelling ----

  /** The UTF-8 encoding of a code point. */
  function Encode(code: nat): (s: Bytes)
    requires code < 0x11_0000 && code != 0x7f
  {
    Spell(Shortest(code))
  }

  function Shortest(code: nat): (u: Unit)
    requires code < 0x11_0000 && code != 0x7f
    ensures u.Fits() && u.code == code
  {
    Unit(code, if code < 0x80 then 1 else if code < 0x800 then 2 else if code < 0x1_0000 then 3 else 4)
  }

  predicate Encodable(codes: seq<nat>) {
    forall i :: 0 <= i < |codes| ==> codes[i] < 0x11_0000 && codes[i] != 0x7f
  }

  function Encodings(codes: seq<nat>): (r: seq<Bytes>)
    requires Encodable(codes)
    ensures |r| == |codes| && forall i :: 0 <= i < |codes| ==> r[i] == Encode(codes[i])
  {
    seq(|codes|, i requires 0 <= i < |codes| => Encode(codes[i]))
  }

  function EncodeAll(codes: seq<nat>): Bytes
    requires Encodable(codes)
  {
    if codes == [] then [] else Encode(codes[0]) + EncodeAll(codes[1..])
  }

  function ShortestAll(codes: seq<nat>): (us: seq<Unit>)
    requires Encodable(codes)
    ensures |us| == |codes| && AllFit(us) && forall i :: 0 <= i < |codes| ==> us[i] == Shortest(codes[i])
  {
    seq(|codes|, i requires 0 <= i < |codes| => Shortest(codes[i]))
  }

  lemma {:induction false} EncodedIsSpelt(codes: seq<nat>)
    requires Encodable(codes)
    ensures EncodeAll(codes) == SpellAll(ShortestAll(codes))
  {
    hide Shortest;
    if codes == [] {
    } else {
      EncodedIsSpelt(codes[1..]);
      assert ShortestAll(codes)[1..] == ShortestAll(codes[1..]);
    }
  }

  /** The encoding of every code point but 7F is well-formed and counts as one. */
  lemma EncodingCountsOne(code: nat)
    requires code < 0x11_0000 && code != 0x7f
    ensures WellFormed(Encode(code)) && Count(Encode(code)) == 1
  {
    var us := [Shortest(code)];
    SpeltDecodes(us);
    assert us[1..] == [];
    assert SpellAll(us) == Encode(code);
  }

  /** The single byte 7F does not decode. */
  lemma DeleteIsRefused()
    ensures !WellFormed([0x7f]) && Count([0x7f]) == 0
  {
  }

  /** Decoding an encoded text gives the encodings of its code points, in order. */
  lemma EncodedDecodes(codes: seq<nat>)
    requires Encodable(codes)
    ensures WellFormed(EncodeAll(codes)) && Chars(EncodeAll(codes)) == Encodings(codes)
  {
    EncodedIsSpelt(codes);
    SpeltDecodes(ShortestAll(codes));
    assert Encodings(codes) == Spellings(ShortestAll(codes));
  }

  /** Assigning an encoded text keeps exactly its first `n` code points. */
  lemma LeftOfEncoded(codes: seq<nat>, n: nat)
    requires Encodable(codes)
    ensures Left(EncodeAll(codes), n) == EncodeAll(codes[..Min(n, |codes|)])
  {
    var k := Min(n, |codes|);
    EncodedIsSpelt(codes);
    EncodedIsSpelt(codes[..k]);
    LeftOfSpelt(ShortestAll(codes), n);
    assert ShortestAll(codes)[..k] == ShortestAll(codes[..k]);
  }
}
