/**
 Positional notation, and the bit regrouping of RFC 4648 in terms of it: digits of w
 bits are cut from the big-endian value of a byte string, padded with zero bits on the
 right.
 */
module Radix {
  import opened Basics
  import opened Words

  ghost predicate DigitsOf(ds: seq<nat>, w: nat) {
    forall i :: 0 <= i < |ds| ==> ds[i] < Pow2(w)
  }

  /** The number whose big-endian base-2^w digits are ds. */
  function Value(ds: seq<nat>, w: nat): nat {
    if ds == [] then 0 else Lsh(Value(ds[..|ds| - 1], w), w) + ds[|ds| - 1]
  }

  /** The last n base-2^w digits of v. */
  function Digits(v: nat, w: nat, n: nat): (ds: seq<nat>)
    ensures |ds| == n && DigitsOf(ds, w)
    decreases n
  {
    if n == 0 then [] else Digits(Ushr(v, w), w, n - 1) + [Low(v, w)]
  }

  /** n digits of w bits each. */
  function Bits(n: nat, w: nat): nat {
    if n == 0 then 0 else Bits(n - 1, w) + w
  }

  lemma {:induction false} BitsAre(n: nat)
    ensures Bits(n, 5) == 5 * n && Bits(n, 6) == 6 * n && Bits(n, 8) == 8 * n
  {
    if n > 0 {
      BitsAre(n - 1);
    }
  }

  lemma ValueSnoc(ds: seq<nat>, d: nat, w: nat)
    ensures Value(ds + [d], w) == Lsh(Value(ds, w), w) + d
  {
    assert (ds + [d])[..|ds|] == ds;
  }

  lemma {:induction false} ValueBound(ds: seq<nat>, w: nat)
    requires DigitsOf(ds, w)
    ensures Value(ds, w) < Pow2(Bits(|ds|, w))
  {
    if ds != [] {
      var n := |ds| - 1;
      ValueBound(ds[..n], w);
      LshBound(Value(ds[..n], w), Bits(n, w), w, ds[n]);
    }
  }

  lemma {:induction false} DigitsOfValue(ds: seq<nat>, w: nat)
    requires DigitsOf(ds, w)
    ensures Digits(Value(ds, w), w, |ds|) == ds
  {
    hide Value, Digits, Pow2;
    if ds == [] {
      assert Digits(Value(ds, w), w, 0) == [];
    } else {
      var n := |ds| - 1;
      DigitsOfValue(ds[..n], w);
      DigitsSnoc(ds[..n], ds[n], w);
      assert ds == ds[..n] + [ds[n]];
    }
  }

  lemma DigitsSnoc(ds: seq<nat>, d: nat, w: nat)
    requires d < Pow2(w)
    ensures Digits(Value(ds + [d], w), w, |ds| + 1) == Digits(Value(ds, w), w, |ds|) + [d]
  {
    hide Value, Lsh, Low, Ushr, Pow2;
    ValueSnoc(ds, d, w);
    Append(Value(ds, w), w, d);
  }

  lemma {:induction false} ValueOfDigits(v: nat, w: nat, n: nat)
    requires v < Pow2(Bits(n, w))
    ensures Value(Digits(v, w, n), w) == v
    decreases n
  {
    hide Lsh, Low, Ushr;
    if n > 0 {
      UshrBound(v, Bits(n - 1, w), w);
      ValueOfDigits(Ushr(v, w), w, n - 1);
      ValueSnoc(Digits(Ushr(v, w), w, n - 1), Low(v, w), w);
      Words.Split(v, w);
    }
  }

  /** Horner's scheme for up to five digits. */
  lemma ValueOfFive(a: nat, b: nat, c: nat, d: nat, e: nat, w: nat)
    ensures Value([a], w) == a
    ensures Value([a, b], w) == a * Pow2(w) + b
    ensures Value([a, b, c], w) == (a * Pow2(w) + b) * Pow2(w) + c
    ensures Value([a, b, c, d], w) == ((a * Pow2(w) + b) * Pow2(w) + c) * Pow2(w) + d
    ensures Value([a, b, c, d, e], w) == (((a * Pow2(w) + b) * Pow2(w) + c) * Pow2(w) + d) * Pow2(w) + e
  {
    hide Pow2, Lsh;
    LshTimes(0, w);
    ValueSnoc([], a, w);
    LshTimes(Value([a], w), w);
    ValueSnoc([a], b, w);
    LshTimes(Value([a, b], w), w);
    ValueSnoc([a, b], c, w);
    LshTimes(Value([a, b, c], w), w);
    ValueSnoc([a, b, c], d, w);
    LshTimes(Value([a, b, c, d], w), w);
    ValueSnoc([a, b, c, d], e, w);
    assert [] + [a] == [a] && [a] + [b] == [a, b] && [a, b] + [c] == [a, b, c];
    assert [a, b, c] + [d] == [a, b, c, d] && [a, b, c, d] + [e] == [a, b, c, d, e];
  }

  // ---- regrouping bytes into digits and back ------------------------------------------

  /** How many whole digits of w bits fit in `bits` bits. */
  function Wholes(bits: nat, w: nat): nat
    requires w > 0
  {
    if bits < w then 0 else 1 + Wholes(bits - w, w)
  }

  /** The bits left over. */
  function Rest(bits: nat, w: nat): nat
    requires w > 0
  {
    if bits < w then bits else Rest(bits - w, w)
  }

  lemma {:induction false} Cut(bits: nat, w: nat)
    requires w > 0
    ensures Bits(Wholes(bits, w), w) + Rest(bits, w) == bits && Rest(bits, w) < w
    decreases bits
  {
    if bits >= w {
      Cut(bits - w, w);
    }
  }

  lemma {:induction false} CutUnique(n: nat, r: nat, w: nat)
    requires r < w
    ensures Wholes(Bits(n, w) + r, w) == n && Rest(Bits(n, w) + r, w) == r
  {
    if n > 0 {
      CutUnique(n - 1, r, w);
    }
  }

  /** Number of digits needed for n bytes: less than one digit of padding. */
  function DigitCount(n: nat, w: nat): (d: nat)
    requires w > 0
    ensures 0 <= Bits(d, w) - Bits(n, 8) < w
  {
    Cut(Bits(n, 8) + w - 1, w);
    Wholes(Bits(n, 8) + w - 1, w)
  }

  /** The bits of the data, padded with zeros to whole digits. */
  function EncodedValue(data: Bytes, w: nat): nat
    requires w > 0
  {
    Lsh(Value(data, 8), Bits(DigitCount(|data|, w), w) - Bits(|data|, 8))
  }

  function Encode(data: Bytes, w: nat): (ds: seq<nat>)
    requires w > 0
    ensures |ds| == DigitCount(|data|, w) && DigitsOf(ds, w)
  {
    Digits(EncodedValue(data, w), w, DigitCount(|data|, w))
  }

  /** Whole bytes from the front of the bits; the bits left over are dropped. */
  function Decode(ds: seq<nat>, w: nat): (r: Bytes)
    ensures |r| == Wholes(Bits(|ds|, w), 8)
  {
    ToBytes(Digits(Ushr(Value(ds, w), Rest(Bits(|ds|, w), 8)), 8, Wholes(Bits(|ds|, w), 8)))
  }

  function ToBytes(ds: seq<nat>): (r: Bytes)
    requires DigitsOf(ds, 8)
    ensures |r| == |ds| && r == ds
  {
    assert Pow2(8) == 256;
    seq(|ds|, i requires 0 <= i < |ds| => ds[i] as byte)
  }

  /** Digits are exactly what decoding leaves: no superfluous digit, and no bit set among
      those left over. */
  ghost predicate Canonical(ds: seq<nat>, w: nat) {
    Rest(Bits(|ds|, w), 8) < w && Low(Value(ds, w), Rest(Bits(|ds|, w), 8)) == 0
  }

  lemma BytesAreDigits(data: Bytes)
    ensures DigitsOf(data, 8)
  {
    assert Pow2(8) == 256;
  }

  /** Decoding inverts encoding. */
  lemma DecodeEncode(data: Bytes, w: nat)
    requires 0 < w <= 8
    ensures Decode(Encode(data, w), w) == data
  {
    hide Value, Digits, Lsh, Bits, Wholes, Rest, DigitCount;
    var n, len := |data|, DigitCount(|data|, w);
    var pad := Bits(len, w) - Bits(n, 8);
    BytesAreDigits(data);
    ValueBound(data, 8);
    LshBound(Value(data, 8), Bits(n, 8), pad, 0);
    CutUnique(n, pad, 8);
    ValueOfDigits(Lsh(Value(data, 8), pad), w, len);
    Append(Value(data, 8), pad, 0);
    DigitsOfValue(data, 8);
  }

  lemma DecodedValue(ds: seq<nat>, w: nat)
    requires DigitsOf(ds, w)
    ensures Value(Decode(ds, w), 8) == Ushr(Value(ds, w), Rest(Bits(|ds|, w), 8))
  {
    hide Value, Digits, Bits, Wholes, Rest;
    var bits := Bits(|ds|, w);
    Cut(bits, 8);
    ValueBound(ds, w);
    UshrBound(Value(ds, w), Bits(Wholes(bits, 8), 8), Rest(bits, 8));
    ValueOfDigits(Ushr(Value(ds, w), Rest(bits, 8)), 8, Wholes(bits, 8));
  }

  /** Digits that have the bits of the data, padded, are its encoding. */
  lemma EncodeIs(data: Bytes, ds: seq<nat>, w: nat, pad: nat)
    requires w > 0 && DigitsOf(ds, w) && Bits(|ds|, w) == Bits(|data|, 8) + pad && pad < w
    requires Value(ds, w) == Lsh(Value(data, 8), pad)
    ensures ds == Encode(data, w)
  {
    hide Value, Digits, Lsh, Bits, DigitCount;
    DigitsBack(|ds|, |data|, pad, w);
    DigitsOfValue(ds, w);
  }

  /** Encoding inverts decoding exactly on the canonical digit strings. */
  lemma EncodeDecode(ds: seq<nat>, w: nat)
    requires 0 < w <= 8 && DigitsOf(ds, w)
    ensures Encode(Decode(ds, w), w) == ds <==> Canonical(ds, w)
  {
    hide Value, Digits, Decode, Bits, Wholes, Rest, DigitCount;
    var bits := Bits(|ds|, w);
    var r := Rest(bits, 8);
    Cut(bits, 8);
    DecodedValue(ds, w);
    DigitsBack(|ds|, Wholes(bits, 8), r, w);
    if r < w {
      Reencoded(ds, w, Value(ds, w), r);
    }
  }

  /** As many digits come back unless a whole digit was left over. */
  lemma DigitsBack(len: nat, n: nat, r: nat, w: nat)
    requires w > 0 && Bits(len, w) == Bits(n, 8) + r
    ensures DigitCount(n, w) == len <==> r < w
  {
    hide Bits, Wholes;
    if r < w {
      CutUnique(len, w - 1 - r, w);
    }
  }

  /** Clearing the left-over bits changes the digits unless they were clear. */
  lemma Reencoded(ds: seq<nat>, w: nat, v: nat, r: nat)
    requires DigitsOf(ds, w) && v == Value(ds, w)
    ensures Digits(Lsh(Ushr(v, r), r), w, |ds|) == ds <==> Low(v, r) == 0
  {
    hide Lsh, Low, Ushr, Pow2, Value, Digits;
    Words.Split(v, r);
    DigitsOfValue(ds, w);
    ValueBound(ds, w);
    ValueOfDigits(Lsh(Ushr(v, r), r), w, |ds|);
  }
}
