/** `generateShortId` and `generatePublicIds`: eight random bytes in
    base 64 (section 4 of RFC 4648, with `=` padding, as Node's
    `toString('base64')` writes it), `+ / =` removed, at most 12 characters
    kept, lower-cased; and the loop that draws the two public ids of a
    book until they differ. The random bytes are an input. */
module IdGenerator {
  import opened Common

  newtype byte = x: int | 0 <= x < 256

  /** The symbol for a six-bit value, from the table in section 4 of
      RFC 4648: `A`-`Z`, `a`-`z`, `0`-`9`, `+`, `/`. */
  function Sym(v: int): char
    requires 0 <= v < 64
  {
    if v < 26 then ('A' as int + v) as char
    else if v < 52 then ('a' as int + v - 26) as char
    else if v < 62 then ('0' as int + v - 52) as char
    else if v == 62 then '+'
    else '/'
  }

  predicate InAlphabet(c: char) {
    'A' <= c <= 'Z' || 'a' <= c <= 'z' || '0' <= c <= '9' || c == '+' || c == '/'
  }

  lemma SymInAlphabet(v: int)
    requires 0 <= v < 64
    ensures InAlphabet(Sym(v))
  {
  }

  // The four six-bit groups of the 24 bits `x y z`.

  function Six0(x: byte): (v: int) ensures 0 <= v < 64 { x as int / 4 }
  function Six1(x: byte, y: byte): (v: int) ensures 0 <= v < 64 { x as int % 4 * 16 + y as int / 16 }
  function Six2(y: byte, z: byte): (v: int) ensures 0 <= v < 64 { y as int % 16 * 4 + z as int / 64 }
  function Six3(z: byte): (v: int) ensures 0 <= v < 64 { z as int % 64 }

  /** Base 64: every three bytes become four symbols; a final one or two
      bytes become two or three symbols padded with `=` to four. */
  function Encode(b: seq<byte>): (r: string)
    ensures |r| == 4 * ((|b| + 2) / 3)
    decreases |b|
  {
    if |b| == 0 then ""
    else if |b| == 1 then
      [Sym(Six0(b[0])), Sym(Six1(b[0], 0)), '=', '=']
    else if |b| == 2 then
      [Sym(Six0(b[0])), Sym(Six1(b[0], b[1])), Sym(Six2(b[1], 0)), '=']
    else
      Group(b[0], b[1], b[2]) + Encode(b[3..])
  }

  /** The first group of an encoding of three bytes or more. */
  lemma EncodeHead(b: seq<byte>)
    requires |b| >= 3
    ensures |Encode(b)| == 4 + |Encode(b[3..])|
    ensures forall i | 0 <= i < 4 :: InAlphabet(Encode(b)[i])
    ensures forall i | 4 <= i < |Encode(b)| :: Encode(b)[i] == Encode(b[3..])[i - 4]
  {
    var head := Group(b[0], b[1], b[2]);
    assert Encode(b) == head + Encode(b[3..]);
    GroupInAlphabet(b[0], b[1], b[2]);
  }

  /** The four symbols of three bytes. */
  function Group(x: byte, y: byte, z: byte): seq<char> {
    [Sym(Six0(x)), Sym(Six1(x, y)), Sym(Six2(y, z)), Sym(Six3(z))]
  }

  lemma GroupInAlphabet(x: byte, y: byte, z: byte)
    ensures |Group(x, y, z)| == 4 && forall i | 0 <= i < 4 :: InAlphabet(Group(x, y, z)[i])
  {
    SymInAlphabet(Six0(x));
    SymInAlphabet(Six1(x, y));
    SymInAlphabet(Six2(y, z));
    SymInAlphabet(Six3(z));
  }

  /** Every symbol of the encoding is from the alphabet, except the padding. */
  lemma {:induction false} EncodeSymbols(b: seq<byte>)
    ensures forall i | 0 <= i < |Encode(b)| :: InAlphabet(Encode(b)[i]) || Encode(b)[i] == '='
    decreases |b|
  {
    if |b| >= 3 {
      EncodeSymbols(b[3..]);
      EncodeHead(b);
    } else if |b| == 2 {
      SymInAlphabet(Six0(b[0]));
      SymInAlphabet(Six1(b[0], b[1]));
      SymInAlphabet(Six2(b[1], 0));
    } else if |b| == 1 {
      SymInAlphabet(Six0(b[0]));
      SymInAlphabet(Six1(b[0], 0));
    }
  }

  /** Two bytes left over after the last full group leave a single `=` at the end. */
  lemma {:induction false} EncodePadding(b: seq<byte>)
    requires |b| % 3 == 2
    ensures |Encode(b)| >= 4 && Encode(b)[|Encode(b)| - 1] == '='
    ensures Encode(b)[|Encode(b)| - 2] != '='
    decreases |b|
  {
    if |b| >= 3 {
      assert |b[3..]| == |b| - 3;
      EncodePadding(b[3..]);
      EncodeHead(b);
      var e := Encode(b);
      var r := Encode(b[3..]);
      assert e[|e| - 1] == r[|r| - 1] && e[|e| - 2] == r[|r| - 2];
    } else {
      SymInAlphabet(Six2(b[1], 0));
    }
  }

  // ---------------------------------------------------------------------
  // generateShortId

  predicate IsSpecial(c: char) {
    c == '+' || c == '/' || c == '='
  }

  /** `.replace(/[+/=]/g, '')`. */
  function RemoveSpecials(s: string): (r: string)
    ensures |r| <= |s|
    ensures forall i | 0 <= i < |r| :: !IsSpecial(r[i])
    ensures forall c :: c in r ==> c in s
    ensures (forall i | 0 <= i < |s| :: !IsSpecial(s[i])) ==> r == s
  {
    if |s| == 0 then ""
    else if IsSpecial(s[0]) then RemoveSpecials(s[1..])
    else [s[0]] + RemoveSpecials(s[1..])
  }

  lemma {:induction false} RemoveSpecialsAppend(s: string, t: string)
    ensures RemoveSpecials(s + t) == RemoveSpecials(s) + RemoveSpecials(t)
  {
    if |s| == 0 {
      assert s + t == t;
    } else {
      assert (s + t)[1..] == s[1..] + t;
      RemoveSpecialsAppend(s[1..], t);
    }
  }

  /** A single character survives exactly when it is not special; with
      `RemoveSpecialsAppend` this fixes the result: the survivors, in their
      original order. */
  lemma RemoveSpecialsChar(c: char)
    ensures RemoveSpecials([c]) == if IsSpecial(c) then "" else [c]
  {
    assert [c][1..] == "";
  }

  /** `.substring(0, 12)`. */
  function Prefix12(s: string): (r: string)
    ensures |r| <= 12 && |r| <= |s| && r == s[..|r|]
    ensures |s| <= 12 ==> r == s
  {
    if |s| <= 12 then s else s[..12]
  }

  function LowerChar(c: char): char {
    if 'A' <= c <= 'Z' then (c as int - 'A' as int + 'a' as int) as char else c
  }

  /** `.toLowerCase()`, which on the characters that reach it (ASCII letters
      and digits) only changes `A`-`Z`. */
  function Lower(s: string): (r: string)
    ensures |r| == |s|
    ensures forall i | 0 <= i < |s| :: r[i] == LowerChar(s[i])
  {
    seq(|s|, i requires 0 <= i < |s| => LowerChar(s[i]))
  }

  predicate IsIdChar(c: char) {
    'a' <= c <= 'z' || '0' <= c <= '9'
  }

  /** `generateShortId` on the bytes `crypto.randomBytes(8)` returned. */
  function GenerateShortId(random: seq<byte>): (id: string)
    ensures |id| <= 12
    ensures forall i | 0 <= i < |id| :: IsIdChar(id[i])
    // the first twelve survivors of the encoding, or all of them when
    // fewer, lower-cased and in order
    ensures var kept := RemoveSpecials(Encode(random));
      |id| == (if |kept| <= 12 then |kept| else 12)
      && forall i | 0 <= i < |id| :: id[i] == LowerChar(kept[i])
  {
    var e := Encode(random);
    EncodeSymbols(random);
    var kept := RemoveSpecials(e);
    assert forall i | 0 <= i < |kept| :: InAlphabet(kept[i]) by {
      forall i | 0 <= i < |kept| ensures InAlphabet(kept[i]) {
        assert kept[i] in e;
      }
    }
    Lower(Prefix12(kept))
  }

  /** Eight bytes encode to eleven symbols and one `=`, so the cut at 12 never
      applies and the id is at most 11 characters long: exactly the filtered,
      lower-cased encoding, in the order of the encoding. */
  lemma EightBytes(random: seq<byte>)
    requires |random| == 8
    ensures |Encode(random)| == 12 && Encode(random)[11] == '='
    ensures |RemoveSpecials(Encode(random))| <= 11
    ensures GenerateShortId(random) == Lower(RemoveSpecials(Encode(random)))
    ensures |GenerateShortId(random)| <= 11
  {
    var e := Encode(random);
    EncodePadding(random);
    assert e == e[..11] + e[11..];
    assert e[11..] == "=";
    RemoveSpecialsAppend(e[..11], e[11..]);
    assert RemoveSpecials("=") == "";
  }

  lemma EncodeAllOnes(b: seq<byte>)
    requires |b| >= 3 && b[0] == 255 && b[1] == 255 && b[2] == 255
    ensures Encode(b) == "////" + Encode(b[3..])
  {
    assert Six0(255) == 63 && Six1(255, 255) == 63 && Six2(255, 255) == 63 && Six3(255) == 63;
  }

  /** Eight 0xFF bytes encode to ten `/`, then `8=`. */
  lemma EightOnesEncode(b: seq<byte>)
    requires |b| == 8 && forall i | 0 <= i < 8 :: b[i] == 255
    ensures Encode(b) == "//////////" + "8="
  {
    EncodeAllOnes(b);
    EncodeAllOnes(b[3..]);
    var last := b[3..][3..];
    assert |last| == 2 && last[0] == 255 && last[1] == 255;
    assert Six0(255) == 63 && Six1(255, 255) == 63 && Six2(255, 0) == 60;
    assert Encode(last) == "//8=";
  }

  /** Removing the specials from a run of `/` leaves nothing. */
  lemma SlashesRemoved(s: string)
    requires forall i | 0 <= i < |s| :: s[i] == '/'
    ensures RemoveSpecials(s) == ""
  {
  }

  /** The documented length of 8 to 12 characters is not a lower bound of the
      code: eight 0xFF bytes encode to `//////////8=`, which leaves `8`. */
  lemma ShortIdMayBeOneCharacter(b: seq<byte>)
    requires |b| == 8 && forall i | 0 <= i < 8 :: b[i] == 255
    ensures GenerateShortId(b) == "8"
  {
    EightBytes(b);
    EightOnesEncode(b);
    EightOnesKept();
    assert Lower("8") == "8";
  }

  /** Of `//////////8=`, only the `8` survives the removal. */
  lemma EightOnesKept()
    ensures RemoveSpecials("//////////" + "8=") == "8"
  {
    SlashesThenEight("//////////");
  }

  lemma SlashesThenEight(s: string)
    requires forall i | 0 <= i < |s| :: s[i] == '/'
    ensures RemoveSpecials(s + "8=") == "8"
  {
    RemoveSpecialsAppend(s, "8=");
    SlashesRemoved(s);
    assert "8="[1..] == "=";
    assert "="[1..] == "";
  }

  /** The documented "8-12 characters alphanumeric" taken as the intended
      contract: each byte as two lower-case hexadecimal digits, then the
      first twelve. Nothing is removed, so the length no longer depends on
      the bytes drawn. */
  function HexDigit(v: int): (c: char)
    requires 0 <= v < 16
    ensures IsIdChar(c)
  {
    if v < 10 then ('0' as int + v) as char else ('a' as int + v - 10) as char
  }

  function Hex(b: seq<byte>): (r: string)
    ensures |r| == 2 * |b|
    ensures forall i | 0 <= i < |r| :: IsIdChar(r[i])
  {
    if |b| == 0 then ""
    else [HexDigit(b[0] as int / 16), HexDigit(b[0] as int % 16)] + Hex(b[1..])
  }

  /** The corrected `generateShortId`: from six bytes on, and so for the
      eight drawn, exactly twelve characters of [a-z0-9], inside the
      documented 8-12 range where the code as written can return "8". */
  function GenerateShortIdHex(random: seq<byte>): (id: string)
    ensures |id| <= 12 && |id| <= 2 * |random|
    ensures |random| >= 6 ==> |id| == 12
    ensures forall i | 0 <= i < |id| :: IsIdChar(id[i])
  {
    Prefix12(Hex(random))
  }

  // ---------------------------------------------------------------------
  // generatePublicIds

  datatype IdPair = IdPair(shareId: string, contributeId: string)

  /** The pair a book is created with: the loop below never returns equal ids. */
  type DistinctIds = p: IdPair | p.shareId != p.contributeId witness IdPair("a", "b")

  /** Round `k` of the do-while loop takes `shortIds[2k]` for the share id
      and `shortIds[2k + 1]` for the contribute id. */
  predicate Collides(shortIds: seq<string>, k: nat)
    requires 2 * k + 1 < |shortIds|
  {
    shortIds[2 * k] == shortIds[2 * k + 1]
  }

  /** `generatePublicIds`. `shortIds` are the values that successive calls
      of `generateShortId` return (each one `GenerateShortId` of fresh random
      bytes); the result is `None` when they run out before a round produces
      two different ids. */
  method GeneratePublicIds(shortIds: seq<string>) returns (ids: Option<DistinctIds>, rounds: nat)
    ensures ids.Some? ==> 1 <= rounds && 2 * rounds <= |shortIds|
    ensures ids.Some? ==> ids.value == IdPair(shortIds[2 * rounds - 2], shortIds[2 * rounds - 1])
    ensures ids.Some? ==> forall k | 0 <= k < rounds - 1 :: Collides(shortIds, k)
    ensures ids.None? ==> forall k: nat | k < |shortIds| / 2 :: Collides(shortIds, k)
  {
    var k: nat := 0;
    while 2 * k + 1 < |shortIds|
      invariant 2 * k <= |shortIds|
      invariant forall j | 0 <= j < k :: Collides(shortIds, j)
      decreases |shortIds| - 2 * k
    {
      var shareId := shortIds[2 * k];
      var contributeId := shortIds[2 * k + 1];
      if shareId != contributeId {
        ids, rounds := Some(IdPair(shareId, contributeId)), k + 1;
        return;
      }
      k := k + 1;
    }
    ids, rounds := None, k;
  }

  /** Ids drawn by `generateShortId` keep its shape through the loop. */
  lemma PublicIdsShape(draws: seq<seq<byte>>, ids: IdPair, rounds: nat)
    requires 1 <= rounds && 2 * rounds <= |draws|
    requires ids == IdPair(GenerateShortId(draws[2 * rounds - 2]), GenerateShortId(draws[2 * rounds - 1]))
    ensures |ids.shareId| <= 12 && |ids.contributeId| <= 12
    ensures forall i | 0 <= i < |ids.shareId| :: IsIdChar(ids.shareId[i])
    ensures forall i | 0 <= i < |ids.contributeId| :: IsIdChar(ids.contributeId[i])
  {
  }
}
