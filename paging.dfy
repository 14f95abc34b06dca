/** Query-side helpers shared by the two listing endpoints: JavaScript's
    `parseInt` on a query parameter with `|| default`, the owner / book
    filter, the newest-first sort and the skip/limit window. */
module Paging {
  import opened Common

  // ---------------------------------------------------------------------
  // parseInt(s) with radix omitted

  /** The white space `parseInt` skips before the number: ECMAScript's
      WhiteSpace (tab, vertical tab, form feed, no-break space, the byte
      order mark and every space separator of category Zs) and
      LineTerminator (line feed, carriage return, U+2028, U+2029). */
  predicate IsJsSpace(c: char) {
    c == '\t' || c == '\U{000B}' || c == '\U{000C}' || c == '\U{FEFF}'
    || c == '\n' || c == '\r' || c == '\U{2028}' || c == '\U{2029}'
    || c == ' ' || c == '\U{00A0}' || c == '\U{1680}' || '\U{2000}' <= c <= '\U{200A}'
    || c == '\U{202F}' || c == '\U{205F}' || c == '\U{3000}'
  }

  function DigitValue(c: char, radix: nat): Option<nat>
    ensures DigitValue(c, radix).Some? ==> DigitValue(c, radix).value < radix
  {
    var v: int :=
      if '0' <= c <= '9' then c as int - '0' as int
      else if 'a' <= c <= 'z' then c as int - 'a' as int + 10
      else if 'A' <= c <= 'Z' then c as int - 'A' as int + 10
      else -1;
    if 0 <= v < radix then Some(v) else None
  }

  /** Length of the longest prefix of `s` made of digits of `radix`. */
  function DigitRun(s: string, radix: nat): (n: nat)
    ensures n <= |s|
    ensures forall i | 0 <= i < n :: DigitValue(s[i], radix).Some?
    ensures n < |s| ==> DigitValue(s[n], radix).None?
  {
    if |s| == 0 || DigitValue(s[0], radix).None? then 0 else 1 + DigitRun(s[1..], radix)
  }

  /** The value of the leading digits of `s` in `radix`, most significant
      first, added to `acc` shifted left by as many places. */
  function Accumulate(s: string, radix: nat, acc: nat): nat {
    if |s| == 0 || DigitValue(s[0], radix).None? then acc
    else Accumulate(s[1..], radix, acc * radix + DigitValue(s[0], radix).value)
  }

  /** The value of a string of digits of `radix`, read from its last digit
      back: the reference `Accumulate` is proved against. */
  function DigitsValue(s: string, radix: nat): nat
    decreases |s|
  {
    if |s| == 0 then 0
    else
      var d := DigitValue(s[|s| - 1], radix);
      DigitsValue(s[..|s| - 1], radix) * radix + (if d.Some? then d.value else 0)
  }

  /** One more digit shifts what was read one place and adds the digit. */
  lemma {:induction false} AccumulateSnoc(s: string, c: char, radix: nat, acc: nat)
    requires forall i | 0 <= i < |s| :: DigitValue(s[i], radix).Some?
    requires DigitValue(c, radix).Some?
    ensures Accumulate(s + [c], radix, acc) == Accumulate(s, radix, acc) * radix + DigitValue(c, radix).value
    decreases |s|
  {
    if |s| == 0 {
      assert s + [c] == [c];
      assert [c][1..] == [];
    } else {
      assert (s + [c])[0] == s[0];
      assert (s + [c])[1..] == s[1..] + [c];
      AccumulateSnoc(s[1..], c, radix, acc * radix + DigitValue(s[0], radix).value);
    }
  }

  /** Reading a string of digits from zero gives its value. */
  lemma {:induction false} AccumulateDigits(s: string, radix: nat)
    requires forall i | 0 <= i < |s| :: DigitValue(s[i], radix).Some?
    ensures Accumulate(s, radix, 0) == DigitsValue(s, radix)
    decreases |s|
  {
    if |s| > 0 {
      var init := s[..|s| - 1];
      assert init + [s[|s| - 1]] == s;
      AccumulateDigits(init, radix);
      AccumulateSnoc(init, s[|s| - 1], radix, 0);
    }
  }

  /** Reading stops at the first character that is not a digit. */
  lemma {:induction false} AccumulateStops(s: string, radix: nat, acc: nat)
    ensures Accumulate(s, radix, acc) == Accumulate(s[..DigitRun(s, radix)], radix, acc)
    decreases |s|
  {
    var n := DigitRun(s, radix);
    if |s| == 0 || DigitValue(s[0], radix).None? {
      assert s[..n] == [];
    } else {
      var rest := acc * radix + DigitValue(s[0], radix).value;
      AccumulateStops(s[1..], radix, rest);
      assert s[..n][0] == s[0];
      assert s[..n][1..] == s[1..][..DigitRun(s[1..], radix)];
    }
  }

  function SkipSpace(s: string): (t: string)
    ensures |t| <= |s| && t == s[|s| - |t|..]
    ensures |t| > 0 ==> !IsJsSpace(t[0])
  {
    if |s| > 0 && IsJsSpace(s[0]) then SkipSpace(s[1..]) else s
  }

  /** With no radix given, `0x` or `0X` selects hexadecimal. */
  predicate HexPrefixed(u: string) {
    |u| >= 2 && u[0] == '0' && (u[1] == 'x' || u[1] == 'X')
  }

  function Radix(u: string): nat {
    if HexPrefixed(u) then 16 else 10
  }

  /** What the digits are read from: the text after the prefix. */
  function Body(u: string): (b: string)
    ensures |b| <= |u| && b == u[|u| - |b|..]
  {
    if HexPrefixed(u) then u[2..] else u
  }

  /** The digits after the sign: hex after `0x`/`0X`, decimal otherwise, as
      many digits as there are; `None` when there is none. */
  function ParseUnsigned(u: string): (r: Option<int>)
    ensures (forall i | 0 <= i < |u| :: DigitValue(u[i], 10).None?) ==> r.None?
    ensures r.Some? ==> r.value >= 0
  {
    var body := Body(u);
    assert forall i | 0 <= i < |body| :: body[i] == u[|u| - |body| + i];
    if DigitRun(body, Radix(u)) == 0 then None
    else Some(Accumulate(body, Radix(u), 0))
  }

  /** The number read is the value of the longest run of digits after the
      optional `0x`, and there is one iff that run is not empty. */
  lemma ParseUnsignedValue(u: string)
    ensures var n := DigitRun(Body(u), Radix(u));
      (ParseUnsigned(u).Some? <==> n > 0)
      && (n > 0 ==> ParseUnsigned(u).value == DigitsValue(Body(u)[..n], Radix(u)))
  {
    var radix := Radix(u);
    var body := Body(u);
    var n := DigitRun(body, radix);
    AccumulateStops(body, radix, 0);
    AccumulateDigits(body[..n], radix);
  }

  /** An optional sign followed by the digits. -0 is represented by 0. */
  function ParseSigned(t: string): (r: Option<int>)
    ensures (forall i | 0 <= i < |t| :: DigitValue(t[i], 10).None?) ==> r.None?
    ensures r.Some? && r.value < 0 ==> |t| > 0 && t[0] == '-'
  {
    if |t| > 0 && (t[0] == '-' || t[0] == '+') then
      var v := ParseUnsigned(t[1..]);
      if v.None? then None else Some(if t[0] == '-' then -v.value else v.value)
    else ParseUnsigned(t)
  }

  /** `parseInt(s)`: skip white space, then read a signed number; `None` is
      NaN (no digit at all). */
  function ParseInt(s: string): (r: Option<int>)
    ensures (forall i | 0 <= i < |s| :: DigitValue(s[i], 10).None?) ==> r.None?
    ensures r.Some? && r.value < 0 ==> exists i | 0 <= i < |s| :: s[i] == '-'
  {
    var t := SkipSpace(s);
    assert forall i | 0 <= i < |t| :: t[i] == s[|s| - |t| + i];
    ParseSigned(t)
  }

  /** The decimal numeral of `n`, without leading zeros: an independent
      writer for `parseInt` to read back. */
  function Decimal(n: nat): (s: string)
    ensures |s| > 0 && forall i | 0 <= i < |s| :: '0' <= s[i] <= '9'
    decreases n
  {
    if n < 10 then [DigitChar(n)] else Decimal(n / 10) + [DigitChar(n % 10)]
  }

  function DigitChar(d: nat): (c: char)
    requires d < 10
    ensures '0' <= c <= '9' && DigitValue(c, 10) == Some(d)
  {
    ('0' as int + d) as char
  }

  lemma {:induction false} DecimalValue(n: nat)
    ensures DigitsValue(Decimal(n), 10) == n
    decreases n
  {
    var s := Decimal(n);
    if n < 10 {
      assert s[..0] == [];
    } else {
      DecimalValue(n / 10);
      assert s[..|s| - 1] == Decimal(n / 10);
      assert s[|s| - 1] == DigitChar(n % 10);
    }
  }

  /** `parseInt` reads back every decimal numeral: `parseInt(String(n))` is n. */
  lemma ParseDecimal(n: nat)
    ensures ParseInt(Decimal(n)).Some? && ParseInt(Decimal(n)).value == n
  {
    var s := Decimal(n);
    forall i | 0 <= i < |s| ensures DigitValue(s[i], 10).Some? {
      assert '0' <= s[i] <= '9';
    }
    ParseDigits(s);
    DecimalValue(n);
  }

  /** A non-empty string of decimal digits is read as its value. */
  lemma ParseDigits(s: string)
    requires |s| > 0 && forall i | 0 <= i < |s| :: DigitValue(s[i], 10).Some?
    ensures ParseInt(s).Some? && ParseInt(s).value == DigitsValue(s, 10)
  {
    DigitNotSpace(s[0]);
    Unspaced(s);
    SignedUnsigned(s);
    UnsignedDigits(s);
  }

  lemma DigitNotSpace(c: char)
    requires DigitValue(c, 10).Some?
    ensures !IsJsSpace(c) && c != '-' && c != '+'
  {
  }

  lemma UnsignedDigits(s: string)
    requires |s| > 0 && forall i | 0 <= i < |s| :: DigitValue(s[i], 10).Some?
    ensures ParseUnsigned(s).Some? && ParseUnsigned(s).value == DigitsValue(s, 10)
  {
    DigitsUnprefixed(s);
    DigitRunAll(s, 10);
    AccumulateDigits(s, 10);
  }

  lemma DigitsUnprefixed(s: string)
    requires |s| > 0 && forall i | 0 <= i < |s| :: DigitValue(s[i], 10).Some?
    ensures Radix(s) == 10 && Body(s) == s
  {
    if |s| >= 2 {
      assert DigitValue('x', 10).None? && DigitValue('X', 10).None?;
      assert DigitValue(s[1], 10).Some?;
    }
  }

  lemma DigitRunAll(s: string, radix: nat)
    requires forall i | 0 <= i < |s| :: DigitValue(s[i], radix).Some?
    ensures DigitRun(s, radix) == |s|
  {
  }

  /** Every positive decimal query value is taken as it stands. */
  lemma QueryDecimal(n: nat, dflt: int)
    requires n > 0
    ensures QueryInt(Some(Decimal(n)), dflt) == n
  {
    ParseDecimal(n);
  }

  /** `parseInt(req.query.x as string) || dflt`: NaN and 0 are falsy and give
      the default; an absent parameter reads as the string 'undefined', which
      is NaN (UndefinedIsNaN). */
  function QueryInt(q: Option<string>, dflt: int): (r: int)
    ensures q.None? ==> r == dflt
    ensures r == dflt || (q.Some? && ParseInt(q.value) == Some(r) && r != 0)
    ensures q.Some? && ParseInt(q.value).Some? && ParseInt(q.value).value != 0 ==> r == ParseInt(q.value).value
  {
    if q.None? then dflt
    else
      var p := ParseInt(q.value);
      if p.None? || p.value == 0 then dflt else p.value
  }

  /** Leading white space does not change the number read. */
  lemma SpaceSkipped(c: char, s: string)
    requires IsJsSpace(c)
    ensures ParseInt([c] + s) == ParseInt(s)
  {
    assert ([c] + s)[1..] == s;
  }

  /** A minus sign negates what follows it (when what follows starts with
      neither white space nor another sign, which make the whole NaN). */
  lemma ParseIntSign(s: string)
    requires |s| == 0 || (!IsJsSpace(s[0]) && s[0] != '-' && s[0] != '+')
    ensures ParseInt(s).None? ==> ParseInt("-" + s).None?
    ensures ParseInt(s).Some? ==> ParseInt("-" + s).Some? && ParseInt("-" + s).value == -ParseInt(s).value
  {
    var m := "-" + s;
    assert !IsJsSpace(m[0]);
    Unspaced(m);
    Unspaced(s);
    SignedMinus(s);
    SignedUnsigned(s);
  }

  lemma Unspaced(s: string)
    requires |s| == 0 || !IsJsSpace(s[0])
    ensures ParseInt(s) == ParseSigned(s)
  {
    assert SkipSpace(s) == s;
  }

  lemma SignedMinus(s: string)
    ensures ParseUnsigned(s).None? ==> ParseSigned("-" + s).None?
    ensures ParseUnsigned(s).Some? ==> ParseSigned("-" + s).Some? && ParseSigned("-" + s).value == -ParseUnsigned(s).value
  {
    assert ("-" + s)[1..] == s;
  }

  lemma SignedUnsigned(s: string)
    requires |s| == 0 || (s[0] != '-' && s[0] != '+')
    ensures ParseSigned(s) == ParseUnsigned(s)
  {
  }

  /** A `0x` prefix switches to hexadecimal: `parseInt('0x1f')` is 31. */
  lemma ParseIntHex()
    ensures ParseInt("0x1f") == Some(31)
  {
    var t := "0x1f";
    assert SkipSpace(t) == t;
    var body := t[2..];
    assert body == "1f" && body[1..] == "f" && body[1..][1..] == "";
    assert DigitValue('1', 16) == Some(1);
    assert DigitValue('f', 16) == Some(15);
    assert DigitRun(body, 16) != 0;
    assert Accumulate(body, 16, 0) == Accumulate("f", 16, 1) == Accumulate("", 16, 31) == 31;
  }

  lemma UndefinedIsNaN()
    ensures ParseInt("undefined") == None
  {
    assert SkipSpace("undefined") == "undefined";
    assert DigitValue('u', 10).None?;
  }

  /** The listing examples: a plain decimal value is taken as is, zero and
      text without digits fall back to the default. */
  lemma QueryIntDecimal()
    ensures QueryInt(Some("10"), 20) == 10
  {
    var t := SkipSpace("10");
    assert t == "10";
    assert DigitValue('1', 10) == Some(1);
    assert DigitValue('0', 10) == Some(0);
    assert t[1..] == "0" && t[1..][1..] == "";
    assert DigitRun(t, 10) != 0;
    assert Accumulate(t, 10, 0) == Accumulate("0", 10, 1) == Accumulate("", 10, 10) == 10;
  }

  /** An ideographic space (U+3000, category Zs) before the digits is
      skipped like any other. */
  lemma QueryIntIdeographicSpace()
    ensures QueryInt(Some(['\U{3000}'] + "10"), 20) == 10
  {
    SpaceSkipped('\U{3000}', "10");
    QueryIntDecimal();
    SameParse(['\U{3000}'] + "10", "10", 20);
  }

  /** The query's value only matters through what `parseInt` reads. */
  lemma SameParse(s: string, t: string, dflt: int)
    requires ParseInt(s) == ParseInt(t)
    ensures QueryInt(Some(s), dflt) == QueryInt(Some(t), dflt)
  {
  }

  lemma ParseIntZero()
    ensures ParseInt("0") == Some(0)
  {
    assert SkipSpace("0") == "0";
    assert DigitRun("0", 10) == 1 by { assert "0"[1..] == ""; }
    assert Accumulate("0", 10, 0) == 0 by { assert "0"[1..] == ""; }
  }

  lemma QueryIntZero()
    ensures QueryInt(Some("0"), 20) == 20
  {
    ParseIntZero();
  }

  lemma QueryIntText()
    ensures QueryInt(Some("abc"), 50) == 50
  {
    var t := SkipSpace("abc");
    assert t == "abc";
    assert DigitValue('a', 10) == None;
    assert DigitRun(t, 10) == 0;
  }

  // ---------------------------------------------------------------------
  // find({...}) : the filter

  function Filter<T(!new)>(s: seq<T>, p: T -> bool): (r: seq<T>)
    ensures |r| <= |s|
    ensures forall x :: x in r <==> x in s && p(x)
  {
    if |s| == 0 then []
    else if p(s[0]) then [s[0]] + Filter(s[1..], p)
    else Filter(s[1..], p)
  }

  lemma {:induction false} FilterAll<T(!new)>(s: seq<T>, p: T -> bool)
    requires forall x :: x in s ==> p(x)
    ensures Filter(s, p) == s
  {
    if |s| > 0 {
      FilterAll(s[1..], p);
    }
  }

  lemma {:induction false} FilterAppend<T(!new)>(s: seq<T>, t: seq<T>, p: T -> bool)
    ensures Filter(s + t, p) == Filter(s, p) + Filter(t, p)
  {
    if |s| == 0 {
      assert s + t == t;
    } else {
      assert (s + t)[1..] == s[1..] + t;
      FilterAppend(s[1..], t, p);
    }
  }

  // ---------------------------------------------------------------------
  // sort({ key: -1 }) : newest first; the model keeps equal keys in
  // collection order

  ghost predicate SortedDesc<T>(s: seq<T>, key: T -> int) {
    forall i, j | 0 <= i < j < |s| :: key(s[i]) >= key(s[j])
  }

  /** Place `x` before the first element whose key is not larger than its
      own, so that equal keys keep their order. */
  function InsertDesc<T>(x: T, s: seq<T>, key: T -> int): (r: seq<T>)
    ensures |r| == |s| + 1
    ensures multiset(r) == multiset(s) + multiset{x}
  {
    if |s| == 0 then [x]
    else if key(s[0]) > key(x) then
      assert s == [s[0]] + s[1..];
      [s[0]] + InsertDesc(x, s[1..], key)
    else [x] + s
  }

  function SortDesc<T>(s: seq<T>, key: T -> int): (r: seq<T>)
    ensures |r| == |s|
    ensures multiset(r) == multiset(s)
  {
    if |s| == 0 then []
    else
      assert s == [s[0]] + s[1..];
      InsertDesc(s[0], SortDesc(s[1..], key), key)
  }

  lemma {:induction false} InsertDescSorted<T>(x: T, s: seq<T>, key: T -> int)
    requires SortedDesc(s, key)
    ensures SortedDesc(InsertDesc(x, s, key), key)
  {
    if |s| > 0 && key(s[0]) > key(x) {
      InsertDescSorted(x, s[1..], key);
      var r := InsertDesc(x, s, key);
      var tail := InsertDesc(x, s[1..], key);
      assert r == [s[0]] + tail;
      forall k | 0 <= k < |tail| ensures key(s[0]) >= key(tail[k]) {
        assert tail[k] in multiset(tail);
        assert tail[k] in multiset(s[1..]) + multiset{x};
        if tail[k] != x {
          assert tail[k] in multiset(s[1..]);
          var m :| 0 <= m < |s[1..]| && s[1..][m] == tail[k];
          assert s[1 + m] == tail[k];
        }
      }
    }
  }

  /** The listing order: sorted with the newest first, and a permutation of
      what the filter found. */
  lemma {:induction false} SortDescSorted<T>(s: seq<T>, key: T -> int)
    ensures SortedDesc(SortDesc(s, key), key)
    ensures forall x :: x in SortDesc(s, key) <==> x in s
  {
    if |s| > 0 {
      SortDescSorted(s[1..], key);
      InsertDescSorted(s[0], SortDesc(s[1..], key), key);
    }
    forall x ensures x in SortDesc(s, key) <==> x in s {
      assert x in SortDesc(s, key) <==> x in multiset(SortDesc(s, key));
    }
  }

  // ---------------------------------------------------------------------
  // skip(offset).limit(limit)

  /** `limit(n)` with a negative `n` returns as many as `limit(-n)`. */
  function Abs(n: int): nat {
    if n < 0 then -n else n
  }

  /** `skip(offset).limit(limit)` on a result list; a limit of 0 means no limit. */
  function Window<T>(s: seq<T>, offset: nat, limit: nat): (r: seq<T>)
    ensures |r| == if offset >= |s| then 0 else if limit == 0 || offset + limit >= |s| then |s| - offset else limit
    ensures forall k | 0 <= k < |r| :: r[k] == s[offset + k]
  {
    var lo := if offset <= |s| then offset else |s|;
    var hi := if limit == 0 || offset + limit >= |s| then |s| else offset + limit;
    s[lo..hi]
  }

  /** Every item of a window comes from the list it was cut from. */
  lemma WindowWithin<T>(s: seq<T>, offset: nat, limit: nat)
    ensures forall x :: x in Window(s, offset, limit) ==> x in s
  {
    forall x | x in Window(s, offset, limit) ensures x in s {
      var k :| 0 <= k < |Window(s, offset, limit)| && Window(s, offset, limit)[k] == x;
      assert s[offset + k] == x;
    }
  }

  /** A window of a newest-first list is itself newest first. */
  lemma WindowSorted<T>(s: seq<T>, offset: nat, limit: nat, key: T -> int)
    requires SortedDesc(s, key)
    ensures SortedDesc(Window(s, offset, limit), key)
  {
    var w := Window(s, offset, limit);
    forall i, j | 0 <= i < j < |w| ensures key(w[i]) >= key(w[j]) {
      assert w[i] == s[offset + i] && w[j] == s[offset + j];
    }
  }

  /** 25 results with limit 10 and offset 20 leave exactly 5. */
  lemma WindowExample<T>(s: seq<T>)
    requires |s| == 25
    ensures |Window(s, 20, 10)| == 5
    ensures Window(s, 20, 10) == s[20..]
  {
  }
}
