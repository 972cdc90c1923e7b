/**
 The printer and parser of GPT identifiers: the first three fields are stored
 little-endian, the rest in order (Appendix A of the UEFI specification).
 */
module Uuid {

  const LENGTH: nat := 16
  const TEXT: nat := 36

  /** The storage index of the i-th printed byte. */
  function Order(i: nat): nat
  {
    if i < 4 then 3 - i else if i == 4 then 5 else if i == 5 then 4 else if i == 6 then 7 else if i == 7 then 6 else i
  }

  /** The table of sixteen digits. */
  function HexDigit(v: nat): char
    requires v < 16
  {
    if v < 10 then ('0' as int + v) as char else ('A' as int + v - 10) as char
  }

  /** __uuid_hex_value. */
  function HexValue(c: char): int
  {
    if '0' <= c <= '9' then c as int - '0' as int
    else if 'a' <= c <= 'f' then c as int - 'a' as int + 10
    else if 'A' <= c <= 'F' then c as int - 'A' as int + 10
    else -1
  }

  /** A digit of either case stands for its place in the table; any other character for -1. */
  lemma HexValueIs(c: char)
    ensures var v := HexValue(c);
            if v < 0 then v == -1 && c !in "0123456789abcdefABCDEF" else v < 16 && (c == "0123456789abcdef"[v] || c == "0123456789ABCDEF"[v])
  {
    var v := HexValue(c);
    assert 0 <= v < 10 ==> c == "0123456789"[v];
    assert v >= 10 ==> c == "abcdef"[v - 10] || c == "ABCDEF"[v - 10];
  }

  function Upper(c: char): char
  {
    if 'a' <= c <= 'z' then (c as int - 32) as char else c
  }

  lemma DigitOfValue(c: char)
    requires HexValue(c) >= 0
    ensures HexValue(c) < 16 && HexDigit(HexValue(c)) == Upper(c)
  {
  }

  lemma ValueOfDigit(v: nat)
    requires v < 16
    ensures HexValue(HexDigit(v)) == v
  {
  }

  // ---------------------------------------------------------------- the text form

  predicate IsDash(k: nat) { k == 8 || k == 13 || k == 18 || k == 23 }

  /** Dashes before position `k`. */
  function Dashes(k: nat): nat
  {
    if k <= 8 then 0 else if k <= 13 then 1 else if k <= 18 then 2 else if k <= 23 then 3 else 4
  }

  /** Where the digits of the i-th printed byte stand. */
  function PairAt(i: nat): nat
  {
    2 * i + (if i < 4 then 0 else if i < 6 then 1 else if i < 8 then 2 else if i < 10 then 3 else 4)
  }

  lemma PairPlaces(i: nat)
    requires i < LENGTH
    ensures PairAt(i) + 1 < TEXT && !IsDash(PairAt(i)) && !IsDash(PairAt(i) + 1)
    ensures PairAt(i) - Dashes(PairAt(i)) == 2 * i && PairAt(i) + 1 - Dashes(PairAt(i) + 1) == 2 * i + 1
    ensures DashBefore(i) ==> PairAt(i) > 0 && IsDash(PairAt(i) - 1)
  {
  }

  /** The printed bytes before which a dash stands. */
  predicate DashBefore(i: nat) { i == 4 || i == 6 || i == 8 || i == 10 }

  /** Where the text of the i-th printed byte begins, its dash included. */
  function Start(i: nat): nat
    requires i <= LENGTH
  {
    if i == LENGTH then TEXT else if DashBefore(i) then PairAt(i) - 1 else PairAt(i)
  }

  lemma NextStart(i: nat)
    requires i < LENGTH
    ensures Start(i + 1) == PairAt(i) + 2
  {
  }

  predicate Bytes(u: seq<nat>) { |u| == LENGTH && forall i | 0 <= i < LENGTH :: u[i] < 256 }

  predicate CharOk(s: string, k: nat)
  {
    k < |s| && if IsDash(k) then s[k] == '-' else HexValue(s[k]) >= 0
  }

  /** Exactly the dashed hexadecimal strings of 36 characters. */
  predicate IsText(s: string)
  {
    |s| == TEXT && forall k: nat {:trigger CharOk(s, k)} | k < TEXT :: CharOk(s, k)
  }

  function CharOf(u: seq<nat>, k: nat): char
    requires Bytes(u) && k < TEXT
  {
    if IsDash(k) then '-'
    else
      var j := k - Dashes(k);
      var b := u[Order(j / 2)];
      HexDigit(if j % 2 == 0 then b / 16 else b % 16)
  }

  lemma CharsOfByte(u: seq<nat>, i: nat)
    requires Bytes(u) && i < LENGTH
    ensures Order(i) < LENGTH && PairAt(i) + 1 < TEXT
    ensures CharOf(u, PairAt(i)) == HexDigit(u[Order(i)] / 16)
    ensures CharOf(u, PairAt(i) + 1) == HexDigit(u[Order(i)] % 16)
  {
    PairPlaces(i);
    OrderTwice(i);
    assert 2 * i / 2 == i && (2 * i + 1) / 2 == i;
  }

  function ToText(u: seq<nat>): (s: string)
    requires Bytes(u)
    ensures |s| == TEXT
  {
    seq(TEXT, k requires 0 <= k < TEXT => CharOf(u, k))
  }

  function ByteOf(s: string, i: nat): nat
    requires IsText(s) && i < LENGTH
  {
    PairPlaces(i);
    assert CharOk(s, PairAt(i)) && CharOk(s, PairAt(i) + 1);
    HexValue(s[PairAt(i)]) * 16 + HexValue(s[PairAt(i) + 1])
  }

  /** Storage byte `i` comes from the printed byte at `Order(i)`: the order is its own inverse. */
  function FromText(s: string): (u: seq<nat>)
    requires IsText(s)
    ensures |u| == LENGTH
  {
    seq(LENGTH, i requires 0 <= i < LENGTH => ByteOf(s, Order(i)))
  }

  lemma OrderTwice(i: nat)
    requires i < LENGTH
    ensures Order(i) < LENGTH && Order(Order(i)) == i
  {
  }

  // ---------------------------------------------------------------- round trips

  lemma TextIsText(u: seq<nat>)
    requires Bytes(u)
    ensures IsText(ToText(u))
  {
    forall k: nat | k < TEXT
      ensures CharOk(ToText(u), k)
    {
      var j := k - Dashes(k);
      var b := u[Order(j / 2)];
      ValueOfDigit(if j % 2 == 0 then b / 16 else b % 16);
    }
  }

  /** Parsing the text of any identifier gives its bytes. */
  lemma ParseOfPrint(u: seq<nat>)
    requires Bytes(u)
    ensures IsText(ToText(u)) && FromText(ToText(u)) == u
  {
    TextIsText(u);
    forall i | 0 <= i < LENGTH
      ensures FromText(ToText(u))[i] == u[i]
    {
      OrderTwice(i);
      CharsOfByte(u, Order(i));
      ValueOfDigit(u[i] / 16);
      ValueOfDigit(u[i] % 16);
    }
  }

  lemma ValuesAreBytes(s: string)
    requires IsText(s)
    ensures Bytes(FromText(s))
  {
    forall i | 0 <= i < LENGTH
      ensures FromText(s)[i] < 256
    {
      OrderTwice(i);
      PairPlaces(Order(i));
      assert CharOk(s, PairAt(Order(i))) && CharOk(s, PairAt(Order(i)) + 1);
      DigitOfValue(s[PairAt(Order(i))]);
      DigitOfValue(s[PairAt(Order(i)) + 1]);
    }
  }

  lemma PlaceOf(k: nat) returns (i: nat)
    requires k < TEXT && !IsDash(k)
    ensures i < LENGTH && (k == PairAt(i) || k == PairAt(i) + 1)
  {
    i := (k - Dashes(k)) / 2;
  }

  /** Printing what was parsed gives the text in upper case. */
  lemma PrintOfParse(s: string)
    requires IsText(s)
    ensures Bytes(FromText(s)) && |ToText(FromText(s))| == TEXT
    ensures forall k | 0 <= k < TEXT :: ToText(FromText(s))[k] == Upper(s[k])
  {
    ValuesAreBytes(s);
    forall k | 0 <= k < TEXT
      ensures ToText(FromText(s))[k] == Upper(s[k])
    {
      PrintedChar(s, k);
    }
  }

  lemma PrintedChar(s: string, k: nat)
    requires IsText(s) && k < TEXT && Bytes(FromText(s))
    ensures CharOf(FromText(s), k) == Upper(s[k])
  {
    assert CharOk(s, k);
    if !IsDash(k) {
      var i := PlaceOf(k);
      PrintedByte(s, i);
    }
  }

  lemma PrintedByte(s: string, i: nat)
    requires IsText(s) && i < LENGTH && Bytes(FromText(s))
    ensures PairAt(i) + 1 < TEXT
    ensures CharOf(FromText(s), PairAt(i)) == Upper(s[PairAt(i)])
    ensures CharOf(FromText(s), PairAt(i) + 1) == Upper(s[PairAt(i) + 1])
  {
    PairPlaces(i);
    OrderTwice(i);
    assert CharOk(s, PairAt(i)) && CharOk(s, PairAt(i) + 1);
    CharsOfByte(FromText(s), i);
    DigitsBack(s[PairAt(i)], s[PairAt(i) + 1]);
    assert FromText(s)[Order(i)] == ByteOf(s, i);
  }

  lemma DigitsBack(high: char, low: char)
    requires HexValue(high) >= 0 && HexValue(low) >= 0
    ensures var b := HexValue(high) * 16 + HexValue(low);
            b < 256 && HexDigit(b / 16) == Upper(high) && HexDigit(b % 16) == Upper(low)
  {
    DigitOfValue(high);
    DigitOfValue(low);
    Nibbles(HexValue(high), HexValue(low));
  }

  lemma Nibbles(high: nat, low: nat)
    requires low < 16
    ensures (high * 16 + low) / 16 == high && (high * 16 + low) % 16 == low
  {
  }

  // ---------------------------------------------------------------- the fields

  /** The number that a string of hexadecimal digits spells. */
  function Number(s: string): int
  {
    if s == "" then 0 else 16 * Number(s[..|s| - 1]) + HexValue(s[|s| - 1])
  }

  /**
   The text spells the identifier: three numbers whose bytes are stored from the lowest, then eight bytes as they
   are stored, two digits each.
   */
  predicate Spells(s: string, u: seq<nat>)
    requires |s| == 36 && |u| == 16
  {
    && Number(s[0..8]) == u[0] + 256 * u[1] + 65536 * u[2] + 16777216 * u[3] && s[8] == '-'
    && Number(s[9..13]) == u[4] + 256 * u[5] && s[13] == '-'
    && Number(s[14..18]) == u[6] + 256 * u[7] && s[18] == '-'
    && Number(s[19..21]) == u[8] && Number(s[21..23]) == u[9] && s[23] == '-'
    && Number(s[24..26]) == u[10] && Number(s[26..28]) == u[11] && Number(s[28..30]) == u[12]
    && Number(s[30..32]) == u[13] && Number(s[32..34]) == u[14] && Number(s[34..36]) == u[15]
  }

  lemma Pair(s: string, i: nat)
    requires i + 2 <= |s|
    ensures Number(s[i..i + 2]) == 16 * HexValue(s[i]) + HexValue(s[i + 1])
  {
    assert s[i..i + 2][..1] == [s[i]] && [s[i]][..0] == "";
    assert Number([s[i]]) == HexValue(s[i]);
  }

  /** Two more digits are one more byte below. */
  lemma PairMore(s: string, i: nat, j: nat)
    requires i <= j && j + 2 <= |s|
    ensures Number(s[i..j + 2]) == 256 * Number(s[i..j]) + 16 * HexValue(s[j]) + HexValue(s[j + 1])
  {
    assert s[i..j + 2][..j + 1 - i] == s[i..j + 1] && s[i..j + 1][..j - i] == s[i..j];
  }

  lemma FourBytes(s: string, i: nat)
    requires i + 8 <= |s|
    ensures Number(s[i..i + 8]) ==
            16777216 * Number(s[i..i + 2]) + 65536 * Number(s[i + 2..i + 4]) + 256 * Number(s[i + 4..i + 6]) + Number(s[i + 6..i + 8])
  {
    PairMore(s, i, i + 2);
    PairMore(s, i, i + 4);
    PairMore(s, i, i + 6);
    Pair(s, i + 2);
    Pair(s, i + 4);
    Pair(s, i + 6);
  }

  lemma TwoBytes(s: string, i: nat)
    requires i + 4 <= |s|
    ensures Number(s[i..i + 4]) == 256 * Number(s[i..i + 2]) + Number(s[i + 2..i + 4])
  {
    PairMore(s, i, i + 2);
    Pair(s, i + 2);
  }

  /** The digits at the place of the i-th printed byte are the stored byte that belongs there. */
  lemma PairOf(s: string, i: nat, at: nat, from: nat)
    requires IsText(s) && i < LENGTH && at == PairAt(i) && from == Order(i)
    ensures at + 2 <= |s| && from < LENGTH && Number(s[at..at + 2]) == FromText(s)[from]
  {
    PairPlaces(i);
    OrderTwice(i);
    Pair(s, at);
    assert FromText(s)[from] == ByteOf(s, i);
  }

  lemma FirstField(s: string)
    requires IsText(s)
    ensures var u := FromText(s); Number(s[0..8]) == u[0] + 256 * u[1] + 65536 * u[2] + 16777216 * u[3]
  {
    PairOf(s, 0, 0, 3);
    PairOf(s, 1, 2, 2);
    PairOf(s, 2, 4, 1);
    PairOf(s, 3, 6, 0);
    FourBytes(s, 0);
  }

  lemma MiddleFields(s: string)
    requires IsText(s)
    ensures var u := FromText(s); Number(s[9..13]) == u[4] + 256 * u[5] && Number(s[14..18]) == u[6] + 256 * u[7]
  {
    PairOf(s, 4, 9, 5);
    PairOf(s, 5, 11, 4);
    TwoBytes(s, 9);
    PairOf(s, 6, 14, 7);
    PairOf(s, 7, 16, 6);
    TwoBytes(s, 14);
  }

  lemma TextSpells(s: string)
    requires IsText(s)
    ensures Spells(s, FromText(s))
  {
    FirstField(s);
    MiddleFields(s);
    PairOf(s, 8, 19, 8);
    PairOf(s, 9, 21, 9);
    PairOf(s, 10, 24, 10);
    PairOf(s, 11, 26, 11);
    PairOf(s, 12, 28, 12);
    PairOf(s, 13, 30, 13);
    PairOf(s, 14, 32, 14);
    PairOf(s, 15, 34, 15);
    assert CharOk(s, 8) && CharOk(s, 13) && CharOk(s, 18) && CharOk(s, 23);
  }

  lemma PrintedRight(u: seq<nat>)
    requires Bytes(u)
    ensures var s := ToText(u); IsText(s) && Spells(s, u) && forall k | 0 <= k < TEXT :: s[k] == Upper(s[k])
  {
    ParseOfPrint(u);
    TextSpells(ToText(u));
    PrintOfParse(ToText(u));
  }

  // ---------------------------------------------------------------- the code

  /** uuid_to_str. */
  method Print(u: seq<nat>) returns (out: string)
    requires Bytes(u)
    ensures out == ToText(u) && IsText(out) && Spells(out, u)
    ensures forall k | 0 <= k < TEXT :: out[k] == Upper(out[k])
  {
    out := "";
    var i := 0;
    while i < LENGTH
      invariant i <= LENGTH && |out| == Start(i) <= TEXT && out == ToText(u)[..Start(i)]
    {
      PrintStep(u, i);
      if DashBefore(i) { out := out + "-"; }
      var byte := u[Order(i)];
      out := out + [HexDigit(byte / 16), HexDigit(byte % 16)];
      i := i + 1;
    }
    PrintedRight(u);
    assert out == ToText(u);
  }

  /** The text of the i-th printed byte follows that of the ones before it. */
  lemma PrintStep(u: seq<nat>, i: nat)
    requires Bytes(u) && i < LENGTH
    ensures Order(i) < LENGTH && Start(i) <= Start(i + 1) <= TEXT
    ensures var dash := if DashBefore(i) then "-" else "";
            ToText(u)[..Start(i + 1)] == ToText(u)[..Start(i)] + dash + [HexDigit(u[Order(i)] / 16), HexDigit(u[Order(i)] % 16)]
  {
    PairPlaces(i);
    NextStart(i);
    CharsOfByte(u, i);
  }

  /** The t-th character of a C string. */
  function At(s: string, t: nat): char { if t < |s| then s[t] else '\0' }

  /** The first `t` characters are as they should be. */
  predicate OkTo(s: string, t: nat)
  {
    t <= |s| && forall k: nat {:trigger CharOk(s, k)} | k < t :: CharOk(s, k)
  }

  /** The first `i` printed bytes are in place. */
  predicate Filled(s: string, u: seq<nat>, i: nat)
    requires i <= LENGTH && OkTo(s, Start(i))
  {
    |u| == LENGTH && forall j: nat | j < i :: Parsed(s, u, j)
  }

  predicate Parsed(s: string, u: seq<nat>, j: nat)
    requires j < LENGTH <= |u|
  {
    OrderTwice(j);
    PairAt(j) + 1 < |s| && u[Order(j)] == HexValue(s[PairAt(j)]) * 16 + HexValue(s[PairAt(j) + 1])
  }

  lemma Fill(s: string, u: seq<nat>, i: nat, b: nat)
    requires i < LENGTH && OkTo(s, Start(i)) && OkTo(s, Start(i + 1)) && Filled(s, u, i)
    requires PairAt(i) + 1 < |s| && b == HexValue(s[PairAt(i)]) * 16 + HexValue(s[PairAt(i) + 1])
    ensures Order(i) < LENGTH && Filled(s, u[Order(i) := b], i + 1)
  {
    OrderTwice(i);
    var u' := u[Order(i) := b];
    forall j: nat | j < i + 1
      ensures Parsed(s, u', j)
    {
      OrderTwice(j);
      assert j < i ==> Parsed(s, u, j);
    }
  }

  lemma Complete(s: string, u: seq<nat>)
    requires IsText(s) && OkTo(s, TEXT) && Filled(s, u, LENGTH)
    ensures u == FromText(s)
  {
    forall j | 0 <= j < LENGTH
      ensures u[j] == FromText(s)[j]
    {
      OrderTwice(j);
      assert Parsed(s, u, Order(j));
    }
  }

  /** str_to_uuid: accepts exactly the dashed hexadecimal strings. */
  method Parse(s: string) returns (ok: bool, u: seq<nat>)
    requires '\0' !in s
    ensures ok <==> IsText(s)
    ensures ok ==> u == FromText(s) && Spells(s, u)
  {
    u := seq(LENGTH, i => 0);
    var t, i := 0, 0;
    while i < LENGTH
      invariant i <= LENGTH && t == Start(i) && OkTo(s, t) && Filled(s, u, i)
    {
      PairPlaces(i);
      NextStart(i);
      if DashBefore(i) {
        assert IsText(s) ==> CharOk(s, t);
        if At(s, t) != '-' { return false, u; }
        t := t + 1;
      }
      assert IsText(s) ==> CharOk(s, t) && CharOk(s, t + 1);
      var high, low := HexValue(At(s, t)), HexValue(At(s, t + 1));
      if high < 0 || low < 0 { return false, u; }
      Fill(s, u, i, high * 16 + low);
      u := u[Order(i) := high * 16 + low];
      t := t + 2;
      i := i + 1;
    }
    ok := At(s, t) == '\0';
    if ok {
      Complete(s, u);
      TextSpells(s);
    }
  }
}
