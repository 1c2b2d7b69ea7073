/** Numeric settings: a byte sequence of any length as a signed machine word (src/core/settings.c). */
module SettingsNumbers {
  import opened Units
  import opened SettingsSpec

  const ERANGE := 34

  /** The number of bytes in a long. */
  const WORD: nat := 8

  /** A byte sequence continued with copies of its sign, as a number. */
  ghost function Extended(data: seq<Byte>, negative: bool): int {
    if negative then Unsigned(data) - Power256(|data|) else Unsigned(data)
  }

  lemma ExtendedNext(data: seq<Byte>, i: nat, negative: bool)
    requires i < |data|
    ensures Extended(data[..i + 1], negative) == Extended(data[..i], negative) * 256 + data[i]
  {
    assert data[..i + 1][..i] == data[..i];
    assert Power256(i + 1) == 256 * Power256(i);
  }

  /** The top byte decides the size of a number to within one part in 256. */
  lemma {:induction false} TopByte(data: seq<Byte>)
    requires data != []
    ensures data[0] * Power256(|data| - 1) <= Unsigned(data) < (data[0] + 1) * Power256(|data| - 1)
  {
    var n := |data|;
    if n > 1 {
      var rest := data[..n - 1];
      TopByte(rest);
      Scaled(data[0], Power256(n - 2), Unsigned(rest), data[n - 1]);
    } else {
      assert data[..0] == [];
    }
  }

  lemma Scaled(d: nat, p: nat, u: nat, b: Byte)
    requires d * p <= u < (d + 1) * p
    ensures d * (256 * p) <= u * 256 + b < (d + 1) * (256 * p)
  {
    assert d * (256 * p) == 256 * (d * p) && (d + 1) * (256 * p) == 256 * ((d + 1) * p);
  }

  /** A number of at most a word's bytes lies in the range of a signed word. */
  lemma SignedRange(data: seq<Byte>)
    requires |data| <= WORD
    ensures -(128 * Power256(WORD - 1)) <= Signed(data) < 128 * Power256(WORD - 1)
  {
    hide Unsigned, Power256;
    if data == [] {
      NoBytes();
    } else {
      var p := Power256(|data| - 1);
      TopByte(data);
      Power256Monotonic(|data| - 1, WORD - 1);
      PowerNext(|data| - 1);
      if data[0] >= 128 {
        ScaleUp(128, data[0], p);
      } else {
        ScaleUp(data[0] + 1, 128, p);
      }
    }
  }

  /** Two's complement: congruent to the unsigned number, and in the lower or the upper half. */
  lemma SignedExactly(data: seq<Byte>)
    requires data != []
    ensures Signed(data) == Unsigned(data) || Signed(data) == Unsigned(data) - Power256(|data|)
    ensures -(128 * Power256(|data| - 1)) <= Signed(data) < 128 * Power256(|data| - 1)
  {
    hide Unsigned, Power256;
    var p := Power256(|data| - 1);
    TopByte(data);
    PowerNext(|data| - 1);
    if data[0] >= 128 {
      var top: nat := data[0];
      ScaleUp(128, top, p);
      ScaleUp(top + 1, 256, p);
    } else {
      ScaleUp(data[0] + 1, 128, p);
    }
  }

  lemma NoBytes()
    ensures Unsigned([]) == 0
  {}

  lemma PowerNext(k: nat)
    ensures Power256(k + 1) == 256 * Power256(k)
  {}

  lemma ScaleUp(a: nat, b: nat, p: nat)
    requires a <= b
    ensures a * p <= b * p
  {}

  /** The signed number that a word holds. */
  function AsLong(w: nat): int
    requires w < Power256(WORD)
  {
    if w >= Power256(WORD) / 2 then w - Power256(WORD) else w
  }

  lemma AsLongExact(v: int)
    requires -(128 * Power256(WORD - 1)) <= v < 128 * Power256(WORD - 1)
    ensures v % Power256(WORD) < Power256(WORD) && AsLong(v % Power256(WORD)) == v
  {
    hide Power256;
    PowerNext(WORD - 1);
    var m := Power256(WORD);
    if v < 0 {
      DivModUnique(v, m, -1, v + m);
    } else {
      DivModUnique(v, m, 0, v);
    }
  }

  /** The value of a byte other than the sign, in a position that does not fit in a word. */
  ghost predicate Overflows(signed: bool, raw: seq<Byte>) {
    exists i :: 0 <= i && i + WORD < |raw| && raw[i] != Pad(signed, raw)
  }

  function Pad(signed: bool, raw: seq<Byte>): Byte {
    if signed && raw != [] && raw[0] >= 128 then 255 else 0
  }

  /** numeric_setting_value(): the word holds the number, or as much of it as was read before an overflow. */
  method NumericValue(signed: bool, raw: seq<Byte>) returns (rc: int, value: nat)
    ensures value < Power256(WORD) && rc == if Overflows(signed, raw) then -ERANGE else |raw|
    ensures !Overflows(signed, raw) ==> value == Extended(raw, signed && raw != [] && raw[0] >= 128) % Power256(WORD)
    ensures var v := Extended(raw, signed && raw != [] && raw[0] >= 128);
            rc == -ERANGE <==> !(0 <= v + Power256(WORD) < 2 * Power256(WORD))
  {
    hide Power256, Unsigned;
    OverflowsExactly(signed, raw);
    ghost var m := Power256(WORD);
    var negative := signed && raw != [] && raw[0] >= 128;
    value := if negative then Power256(WORD) - 1 else 0;
    StartValue(negative);
    var pad := Pad(signed, raw);
    for i := 0 to |raw|
      invariant value == Extended(raw[..i], negative) % m
      invariant forall k :: 0 <= k < i && k + WORD < |raw| ==> raw[k] == pad
    {
      var byte := raw[i];
      ExtendedNext(raw, i, negative);
      ShiftIn(value, Extended(raw[..i], negative), byte, m);
      value := (value * 256 + byte) % Power256(WORD);
      if i + WORD < |raw| && byte != pad {
        return -ERANGE, value;
      }
    }
    assert raw[..|raw|] == raw;
    rc := |raw|;
  }

  lemma StartValue(negative: bool)
    ensures Extended([], negative) % Power256(WORD) == if negative then Power256(WORD) - 1 else 0
  {
    var m := Power256(WORD);
    if negative {
      DivModUnique(-1, m, -1, m - 1);
    } else {
      DivModUnique(0, m, 0, 0);
    }
  }

  /** A number of at most a word's bytes is decoded exactly. */
  lemma NumericExact(raw: seq<Byte>)
    requires |raw| <= WORD
    ensures !Overflows(true, raw)
    ensures var w := Extended(raw, raw != [] && raw[0] >= 128) % Power256(WORD);
            w < Power256(WORD) && AsLong(w) == Signed(raw)
  {
    hide Power256, Unsigned;
    SignedRange(raw);
    AsLongExact(Signed(raw));
  }

  // ----- What the test for overflow means

  lemma {:induction false} AllAlike(h: seq<Byte>)
    ensures Unsigned(h) < Power256(|h|)
    ensures Unsigned(h) == 0 <==> forall i :: 0 <= i < |h| ==> h[i] == 0
    ensures Unsigned(h) == Power256(|h|) - 1 <==> forall i :: 0 <= i < |h| ==> h[i] == 255
  {
    if h != [] {
      var n := |h| - 1;
      AllAlike(h[..n]);
      assert forall i :: 0 <= i < n ==> h[..n][i] == h[i];
      assert Unsigned(h) == Unsigned(h[..n]) * 256 + h[n] && Power256(|h|) == 256 * Power256(n);
    }
  }

  /** A number is as many words as its upper bytes say, and the word in its lower bytes. */
  lemma ExtendedSplit(raw: seq<Byte>, k: nat, negative: bool)
    requires k <= |raw|
    ensures Extended(raw, negative) == Extended(raw[..k], negative) * Power256(|raw| - k) + Unsigned(raw[k..])
  {
    hide Unsigned, Power256;
    assert raw[..k] + raw[k..] == raw;
    UnsignedAppend(raw[..k], raw[k..]);
    PowerSum(k, |raw| - k);
    Distributed(Unsigned(raw[..k]), Power256(k), Power256(|raw| - k));
  }

  lemma {:induction false} PowerSum(j: nat, k: nat)
    ensures Power256(j + k) == Power256(j) * Power256(k)
  {
    if j > 0 {
      PowerSum(j - 1, k);
      assert 256 * (Power256(j - 1) * Power256(k)) == 256 * Power256(j - 1) * Power256(k);
    }
  }

  lemma Distributed(a: int, b: int, c: int)
    ensures (a - b) * c == a * c - b * c
  {}

  lemma OneWord(h: int, l: nat, p: nat)
    requires l < p
    ensures 0 <= h * p + l + p < 2 * p <==> h == -1 || h == 0
  {
    if h >= 1 {
      ScaleUp(1, h, p);
    } else if h <= -2 {
      ScaleUp(2, -h, p);
    }
  }

  /** A number is refused exactly if it is not within one word of zero. */
  lemma OverflowsExactly(signed: bool, raw: seq<Byte>)
    ensures var v := Extended(raw, signed && raw != [] && raw[0] >= 128);
            Overflows(signed, raw) <==> !(0 <= v + Power256(WORD) < 2 * Power256(WORD))
  {
    hide Unsigned, Power256;
    var negative := signed && raw != [] && raw[0] >= 128;
    AllAlike(raw);
    if |raw| <= WORD {
      Power256Monotonic(|raw|, WORD);
    } else {
      var k := |raw| - WORD;
      ExtendedSplit(raw, k, negative);
      AllAlike(raw[..k]);
      AllAlike(raw[k..]);
      OneWord(Extended(raw[..k], negative), Unsigned(raw[k..]), Power256(WORD));
      assert forall i :: 0 <= i < k ==> raw[..k][i] == raw[i];
    }
  }

  /** The word is the number exactly if the uppermost bit that fits in it is a copy of the sign. */
  lemma SignKept(raw: seq<Byte>)
    requires !Overflows(true, raw)
    ensures var w := Extended(raw, raw != [] && raw[0] >= 128) % Power256(WORD);
            && w < Power256(WORD)
            && (AsLong(w) == Signed(raw) <==> |raw| <= WORD || (raw[|raw| - WORD] >= 128 <==> raw[0] >= 128))
  {
    hide Unsigned, Power256, Overflows;
    if |raw| <= WORD {
      NumericExact(raw);
    } else {
      var negative := raw[0] >= 128;
      var k := |raw| - WORD;
      var low := raw[k..];
      var m := Power256(WORD);
      OverflowsExactly(true, raw);
      AllAlike(low);
      ExtendedSplit(raw, k, negative);
      var h := Extended(raw[..k], negative);
      OneWord(h, Unsigned(low), m);
      DivModUnique(Extended(raw, negative), m, h, Unsigned(low));
      HighHalf(low);
      assert low[0] == raw[k];
      AllAlike(raw[..k]);
    }
  }

  lemma HighHalf(low: seq<Byte>)
    requires |low| == WORD
    ensures Unsigned(low) >= Power256(WORD) / 2 <==> low[0] >= 128
  {
    hide Unsigned, Power256;
    var p := Power256(WORD - 1);
    TopByte(low);
    PowerNext(WORD - 1);
    if low[0] >= 128 {
      ScaleUp(128, low[0], p);
    } else {
      ScaleUp(low[0] + 1, 128, p);
    }
  }

  /** Nine bytes that are accepted as a signed number, and stand for a positive one, but give a negative word. */
  lemma SignLost()
    ensures var raw := [0, 128, 0, 0, 0, 0, 0, 0, 0];
            && !Overflows(true, raw) && Signed(raw) > 0
            && var w := Extended(raw, false) % Power256(WORD); w < Power256(WORD) && AsLong(w) < 0
  {
    hide Unsigned, Power256;
    var raw: seq<Byte> := [0, 128, 0, 0, 0, 0, 0, 0, 0];
    var low := raw[1..];
    ExtendedSplit(raw, 1, false);
    AllAlike(raw[..1]);
    AllAlike(low);
    HighHalf(low);
    DivModUnique(Extended(raw, false), Power256(WORD), 0, Unsigned(low));
    PowerNext(WORD - 1);
  }
}
