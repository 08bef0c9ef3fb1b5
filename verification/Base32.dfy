/**
 Recovery keys as text: the base32 codec of RFC 4648 section 6 without padding,
 and the dashed display form. The loops keep an unmasked 32-bit accumulator.
 */
module Base32 {
  import opened Basics
  import opened Words
  import opened Radix
  import opened Text

  // ---- text ---------------------------------------------------------------

  function Letter(d: nat): char
    requires d < 32
  {
    if d < 26 then ('A' as int + d) as char else ('2' as int + (d - 26)) as char
  }

  function Alphabet(): (s: string)
    ensures |s| == 32 && forall d: nat :: d < 32 ==> s[d] == Letter(d)
  {
    seq(32, d requires 0 <= d < 32 => Letter(d))
  }

  lemma AlphabetSpelled()
    ensures Alphabet() == "ABCDEFGHIJKLMNOPQRSTUVWXYZ234567"
  {}

  /** `s.indexOf(c)`. */
  function IndexOf(s: string, c: char): (r: int)
    ensures r == -1 ==> c !in s
    ensures r != -1 ==> 0 <= r < |s| && s[r] == c && c !in s[..r]
  {
    if s == "" then -1
    else if s[0] == c then 0
    else
      var r := IndexOf(s[1..], c);
      assert s == [s[0]] + s[1..];
      if r == -1 then -1 else
        assert s[..r + 1] == [s[0]] + s[1..][..r];
        r + 1
  }

  lemma IndexOfLetter(d: nat)
    requires d < 32
    ensures Alphabet()[d] in Alphabet() && IndexOf(Alphabet(), Alphabet()[d]) == d
  {
    var r := IndexOf(Alphabet(), Alphabet()[d]);
    assert Alphabet()[r] == Letter(r);
  }

  lemma Pow2Five()
    ensures Pow2(5) == 32 && Pow2(8) == 256
  {}

  ghost predicate InAlphabet(s: string) {
    forall i :: 0 <= i < |s| ==> s[i] in Alphabet()
  }

  function Spelled(ds: seq<nat>): (s: string)
    requires DigitsOf(ds, 5)
    ensures |s| == |ds|
  {
    Pow2Five();
    seq(|ds|, i requires 0 <= i < |ds| => Alphabet()[ds[i]])
  }

  lemma TextSnoc(ds: seq<nat>, d: nat)
    requires d < 32 && DigitsOf(ds, 5)
    ensures DigitsOf(ds + [d], 5) && Spelled(ds + [d]) == Spelled(ds) + [Alphabet()[d]]
  {
    Pow2Five();
  }

  function Indexes(s: string): (ds: seq<nat>)
    requires InAlphabet(s)
    ensures |ds| == |s| && DigitsOf(ds, 5)
  {
    Pow2Five();
    seq(|s|, i requires 0 <= i < |s| => IndexOf(Alphabet(), s[i]))
  }

  lemma IndexesText(ds: seq<nat>)
    requires DigitsOf(ds, 5)
    ensures InAlphabet(Spelled(ds)) && Indexes(Spelled(ds)) == ds
  {
    Pow2Five();
    forall i | 0 <= i < |ds|
      ensures Spelled(ds)[i] in Alphabet() && IndexOf(Alphabet(), Spelled(ds)[i]) == ds[i]
    {
      IndexOfLetter(ds[i]);
    }
  }

  lemma TextIndexes(s: string)
    requires InAlphabet(s)
    ensures Spelled(Indexes(s)) == s
  {
    Pow2Five();
  }

  function EncodedText(data: Bytes): (s: string)
    ensures |s| == DigitCount(|data|, 5)
  {
    Spelled(Encode(data, 5))
  }

  // ---- cleaning -------------------------------------------------------------

  predicate Dropped(c: char) {
    c == '-' || IsSpace(c)
  }

  function Kept(casing: Casing, c: char): string {
    if Dropped(c) then "" else casing(c)
  }

  /** `encoded.replace(/[-\s]/g, "").toUpperCase()`. */
  function Clean(casing: Casing, s: string): string {
    if s == "" then "" else Kept(casing, s[0]) + Clean(casing, s[1..])
  }

  lemma {:induction false} CleanConcat(casing: Casing, s: string, t: string)
    ensures Clean(casing, s + t) == Clean(casing, s) + Clean(casing, t)
  {
    if s == "" {
      assert s + t == t;
    } else {
      CleanConcat(casing, s[1..], t);
      assert (s + t)[1..] == s[1..] + t;
      Associative(Kept(casing, s[0]), Clean(casing, s[1..]), Clean(casing, t));
    }
  }

  lemma {:induction false} CleanInAlphabet(casing: Casing, s: string)
    requires UpperCases(casing) && InAlphabet(s)
    ensures Clean(casing, s) == s
  {
    if s != "" {
      LetterKept(casing, s[0]);
      CleanInAlphabet(casing, s[1..]);
    }
  }

  lemma LetterKept(casing: Casing, c: char)
    requires UpperCases(casing) && c in Alphabet()
    ensures !Dropped(c) && casing(c) == [c]
  {
    var d :| 0 <= d < |Alphabet()| && Alphabet()[d] == c;
    assert c == Letter(d);
  }

  /** The first cleaned character outside the alphabet, on which decoding throws. */
  function FirstBad(s: string): (r: Option<char>)
    ensures r == None <==> InAlphabet(s)
  {
    if s == "" then None
    else if s[0] !in Alphabet() then assert !InAlphabet(s); Some(s[0])
    else
      assert s == [s[0]] + s[1..];
      FirstBad(s[1..])
  }

  lemma {:induction false} FirstBadAt(s: string, i: nat)
    requires i < |s| && InAlphabet(s[..i]) && s[i] !in Alphabet()
    ensures FirstBad(s) == Some(s[i])
  {
    if i > 0 {
      assert s[0] == s[..i][0];
      assert s[1..][..i - 1] == s[..i][1..];
      FirstBadAt(s[1..], i - 1);
    }
  }

  function DecodedText(casing: Casing, encoded: string): Result<Bytes, char> {
    var clean := Clean(casing, encoded);
    match FirstBad(clean)
    case Some(c) => Err(c)
    case None => Ok(Decode(Indexes(clean), 5))
  }

  lemma CleanSeparator(casing: Casing, s: string, c: char, t: string)
    requires Dropped(c)
    ensures Clean(casing, s + [c] + t) == Clean(casing, s + t)
  {
    hide Dropped;
    CleanConcat(casing, s + [c], t);
    CleanConcat(casing, s, [c]);
    CleanConcat(casing, s, t);
    assert [c][1..] == "";
    assert Clean(casing, [c]) == Kept(casing, c) + Clean(casing, "");
    assert Clean(casing, s) + "" == Clean(casing, s);
  }

  /** Dashes and white space are ignored wherever they stand. */
  lemma SeparatorIgnored(casing: Casing, s: string, c: char, t: string)
    requires c == '-' || IsSpace(c)
    ensures DecodedText(casing, s + [c] + t) == DecodedText(casing, s + t)
  {
    hide IsSpace, Clean, FirstBad, Indexes, Decode;
    CleanSeparator(casing, s, c, t);
  }

  /** ASCII letters count the same in either case. */
  lemma {:induction false} EitherCase(casing: Casing, s: string, t: string)
    requires UpperCases(casing) && |s| == |t|
    requires forall i :: 0 <= i < |s| ==> s[i] as int < 128 && t[i] as int < 128 && Upper(s[i]) == Upper(t[i])
    ensures Clean(casing, s) == Clean(casing, t) && DecodedText(casing, s) == DecodedText(casing, t)
  {
    if s != "" {
      assert Kept(casing, s[0]) == Kept(casing, t[0]);
      EitherCase(casing, s[1..], t[1..]);
    }
  }

  // ---- the loops ------------------------------------------------------------

  /** The digits put out so far and the low `bits` bits of the accumulator make up
      the total read so far. */
  ghost predicate Pending(total: nat, out: seq<nat>, v: nat, bits: nat, w: nat) {
    && v < WORD
    && DigitsOf(out, w)
    && total == Lsh(Value(out, w), bits) + Low(v, bits)
  }

  lemma NothingRead(read: seq<nat>, k: nat, w: nat)
    requires read == []
    ensures Pending(Value(read, k), [], 0, 0, w)
  {}

  /** `(value >>> a) & mask` puts out one digit and leaves the lower bits pending. */
  lemma EmitDigit(total: nat, out: seq<nat>, v: nat, a: nat, w: nat)
    requires Pending(total, out, v, a + w, w)
    ensures And(Ushr(v, a), Pow2(w) - 1) < Pow2(w)
    ensures Pending(total, out + [And(Ushr(v, a), Pow2(w) - 1)], v, a, w)
  {
    hide Pow2, Value, And, Ushr, Low, Lsh;
    AndMask(Ushr(v, a), w);
    var d := Low(Ushr(v, a), w);
    ValueSnoc(out, d, w);
    LowSplit(v, a, w);
    LshAdd(Lsh(Value(out, w), w), d, a);
    LshLsh(Value(out, w), w, a);
  }

  /** `(value << k) | x` reads one digit of k bits. */
  lemma ReadDigit(read: seq<nat>, out: seq<nat>, v: nat, a: nat, w: nat, k: nat, x: nat)
    requires Pending(Value(read, k), out, v, a, w) && x < Pow2(k) && a + k <= 32
    ensures Pending(Value(read + [x], k), out, Or(Shl(v, k), x), a + k, w)
  {
    hide Pow2, Value, Or, Shl, Low, Lsh;
    ValueSnoc(read, x, k);
    ShiftIn(v, k, x, a);
    LshAdd(Lsh(Value(out, w), a), Low(v, a), k);
    LshLsh(Value(out, w), a, k);
  }

  lemma EncodeDone(data: Bytes, out: seq<nat>, pad: nat)
    requires DigitsOf(out, 5) && 5 * |out| == 8 * |data| + pad && pad < 5
    requires Value(out, 5) == Lsh(Value(data, 8), pad)
    ensures out == Encode(data, 5)
  {
    hide Pow2, Value, Digits, Lsh, Bits, DigitCount;
    BitsAre(|out|);
    BitsAre(|data|);
    DigitsBack(|out|, |data|, pad, 5);
    DigitsOfValue(out, 5);
  }

  lemma WholeDigits(data: Bytes, out: seq<nat>, v: nat, bits: nat)
    requires Pending(Value(data, 8), out, v, bits, 5) && 5 * |out| + bits == 8 * |data|
    ensures bits == 0 ==> out == Encode(data, 5)
  {
    if bits == 0 {
      EncodeDone(data, out, 0);
    }
  }

  lemma PadOut(data: Bytes, out: seq<nat>, v: nat, bits: nat)
    requires 0 < bits < 5 && Pending(Value(data, 8), out, v, bits, 5)
    requires 5 * |out| + bits == 8 * |data|
    ensures var d := And(Shl(v, 5 - bits), 0x1f);
            d < 32 && out + [d] == Encode(data, 5)
  {
    hide Pow2, Value, And, Shl, Low, Lsh;
    PadDigit(v, bits);
    var d := And(Shl(v, 5 - bits), 0x1f);
    Pow2Five();
    ValueSnoc(out, d, 5);
    LshAdd(Lsh(Value(out, 5), bits), Low(v, bits), 5 - bits);
    LshLsh(Value(out, 5), bits, 5 - bits);
    EncodeDone(data, out + [d], 5 - bits);
  }

  /** The last, zero-padded digit. */
  lemma PadDigit(v: nat, bits: nat)
    requires 0 < bits < 5
    ensures And(Shl(v, 5 - bits), 0x1f) == Lsh(Low(v, bits), 5 - bits) < 32
  {
    hide And, Shl, Low, Lsh;
    var k := 5 - bits;
    Pow2Five();
    ShlKeeps(v, k);
    AndMask(Shl(v, k), 5);
    LowAppend(Low(v, 32 - k), bits, k, 0);
    LowLow(v, bits, 32 - k);
  }

  method ToBase32(data: Bytes) returns (result: string)
    ensures result == EncodedText(data)
  {
    hide Value, Pow2, Or, And, Shl, Ushr, Low, Lsh, Pending, Encode, Decode;
    Pow2Five();
    NothingRead(data[..0], 8, 5);
    var bits: nat, value: nat := 0, 0;
    ghost var out: seq<nat> := [];
    result := "";
    for i := 0 to |data|
      invariant bits < 5 && 5 * |out| + bits == 8 * i && DigitsOf(out, 5)
      invariant Pending(Value(data[..i], 8), out, value, bits, 5)
      invariant result == Spelled(out)
    {
      assert data[..i + 1] == data[..i] + [data[i]];
      ReadDigit(data[..i], out, value, bits, 5, 8, data[i]);
      value := Or(Shl(value, 8), data[i]);
      bits := bits + 8;
      while bits >= 5
        invariant bits <= 12 && 5 * |out| + bits == 8 * (i + 1) && DigitsOf(out, 5)
        invariant Pending(Value(data[..i + 1], 8), out, value, bits, 5)
        invariant result == Spelled(out)
      {
        bits := bits - 5;
        EmitDigit(Value(data[..i + 1], 8), out, value, bits, 5);
        var d := And(Ushr(value, bits), 0x1f);
        TextSnoc(out, d);
        result := result + [Alphabet()[d]];
        out := out + [d];
      }
    }
    assert data[..|data|] == data;
    WholeDigits(data, out, value, bits);
    if bits > 0 {
      PadOut(data, out, value, bits);
      var d := And(Shl(value, 5 - bits), 0x1f);
      TextSnoc(out, d);
      result := result + [Alphabet()[d]];
    }
  }

  lemma DecodeDone(ds: seq<nat>, out: Bytes, bits: nat, v: nat)
    requires DigitsOf(ds, 5) && 5 * |ds| == 8 * |out| + bits && bits < 8
    requires Pending(Value(ds, 5), out, v, bits, 8)
    ensures out == Decode(ds, 5)
  {
    hide Value, Digits, Low, Lsh, Bits, Wholes, Rest;
    BitsAre(|ds|);
    BitsAre(|out|);
    CutUnique(|out|, bits, 8);
    Append(Value(out, 8), bits, Low(v, bits));
    DigitsOfValue(out, 8);
  }

  lemma IndexesSnoc(s: string, i: nat)
    requires i < |s| && InAlphabet(s[..i]) && s[i] in Alphabet()
    ensures InAlphabet(s[..i + 1])
    ensures Indexes(s[..i + 1]) == Indexes(s[..i]) + [IndexOf(Alphabet(), s[i])]
  {
    assert s[..i + 1] == s[..i] + [s[i]];
  }

  /** One turn of the decoding loop: a digit is read, and a byte put out if one is full. */
  lemma DecodeStep(read: seq<nat>, out: Bytes, v: nat, bits: nat, x: nat)
    requires bits < 8 && x < 32 && Pending(Value(read, 5), out, v, bits, 8)
    ensures var w := Or(Shl(v, 5), x);
            if bits < 3 then Pending(Value(read + [x], 5), out, w, bits + 5, 8)
            else And(Ushr(w, bits - 3), 0xff) < 256
                 && Pending(Value(read + [x], 5), out + [And(Ushr(w, bits - 3), 0xff)], w, bits - 3, 8)
  {
    hide Value, Pow2, Or, And, Shl, Ushr, Low, Lsh, Pending;
    Pow2Five();
    ReadDigit(read, out, v, bits, 8, 5, x);
    if bits >= 3 {
      EmitDigit(Value(read + [x], 5), out, Or(Shl(v, 5), x), bits - 3, 8);
    }
  }

  method FromBase32(casing: Casing, encoded: string) returns (r: Result<Bytes, char>)
    ensures r == DecodedText(casing, encoded)
  {
    hide Value, Pow2, Or, And, Shl, Ushr, Low, Lsh, Pending, Encode, Decode, IndexOf, Clean, FirstBad;
    var clean := Clean(casing, encoded);
    NothingRead(Indexes(clean[..0]), 5, 8);
    var output: Bytes := [];
    var bits: nat, value: nat := 0, 0;
    for i := 0 to |clean|
      invariant InAlphabet(clean[..i])
      invariant bits < 8 && 8 * |output| + bits == 5 * i
      invariant Pending(Value(Indexes(clean[..i]), 5), output, value, bits, 8)
    {
      var idx := IndexOf(Alphabet(), clean[i]);
      if idx == -1 {
        FirstBadAt(clean, i);
        return Err(clean[i]);
      }
      IndexesSnoc(clean, i);
      DecodeStep(Indexes(clean[..i]), output, value, bits, idx);
      value := Or(Shl(value, 5), idx);
      bits := bits + 5;
      assert bits <= 12;
      if bits >= 8 {
        bits := bits - 8;
        output := output + [And(Ushr(value, bits), 0xff)];
      }
    }
    assert clean[..|clean|] == clean;
    assert FirstBad(clean) == None;
    DecodeDone(Indexes(clean), output, bits, value);
    r := Ok(output);
  }

  // ---- recovery keys ----------------------------------------------------------

  /** How many of the first five characters `.{1,5}` takes. */
  function Run(s: string, limit: nat): (n: nat)
    ensures n <= |s| && n <= limit
    ensures s != "" && !IsLineTerminator(s[0]) && limit > 0 ==> n > 0
  {
    if s == "" || limit == 0 || IsLineTerminator(s[0]) then 0 else 1 + Run(s[1..], limit - 1)
  }

  /** `base32.match(/.{1,5}/g)`. */
  function Groups(s: string): seq<string>
    decreases |s|
  {
    if s == "" then []
    else if IsLineTerminator(s[0]) then Groups(s[1..])
    else var n := Run(s, 5); [s[..n]] + Groups(s[n..])
  }

  function Join(parts: seq<string>, sep: string): string {
    if parts == [] then "" else if |parts| == 1 then parts[0] else parts[0] + sep + Join(parts[1..], sep)
  }

  /** `formatRecoveryKey`: dashes every five characters; no match keeps the text. */
  function FormatRecoveryKey(base32: string): string {
    if Groups(base32) == [] then base32 else Join(Groups(base32), "-")
  }

  lemma {:induction false} CleanGroups(casing: Casing, s: string)
    ensures Clean(casing, Join(Groups(s), "-")) == Clean(casing, s)
    decreases |s|
  {
    if s == "" {
    } else if IsLineTerminator(s[0]) {
      CleanGroups(casing, s[1..]);
    } else {
      var n := Run(s, 5);
      CleanGroups(casing, s[n..]);
      assert s == s[..n] + s[n..];
      CleanConcat(casing, s[..n], s[n..]);
      if Groups(s[n..]) != [] {
        CleanConcat(casing, s[..n] + "-", Join(Groups(s[n..]), "-"));
        CleanConcat(casing, s[..n], "-");
        assert Clean(casing, "-") == "";
      } else {
        assert Groups(s) == [s[..n]];
      }
    }
  }

  /** Formatting changes nothing that decoding looks at, for any text. */
  lemma FormatKeepsMeaning(casing: Casing, s: string)
    ensures DecodedText(casing, FormatRecoveryKey(s)) == DecodedText(casing, s)
  {
    CleanGroups(casing, s);
  }

  lemma {:induction false} RunLength(s: string, limit: nat)
    requires forall i :: 0 <= i < |s| ==> !IsLineTerminator(s[i])
    ensures Run(s, limit) == Min(limit, |s|)
  {
    if s != "" && limit > 0 {
      RunLength(s[1..], limit - 1);
    }
  }

  lemma FormatFirst(s: string)
    requires s != "" && forall i :: 0 <= i < |s| ==> !IsLineTerminator(s[i])
    ensures FormatRecoveryKey(s) == if |s| <= 5 then s else s[..5] + "-" + FormatRecoveryKey(s[5..])
  {
    hide Run, IsLineTerminator;
    RunLength(s, 5);
    if |s| <= 5 {
      assert s[..|s|] == s && s[|s|..] == "";
      assert Groups(s) == [s];
    } else {
      RunLength(s[5..], 5);
      assert Groups(s)[1..] == Groups(s[5..]) && Groups(s[5..]) != [];
    }
  }

  /** A dash after every five characters, none at the end, and the characters in between as
      they were. */
  predicate Dashed(f: string, s: string) {
    && |f| == |s| + (|s| - 1) / 5
    && forall i :: 0 <= i < |f| ==> if i % 6 == 5 then f[i] == '-' else i - i / 6 < |s| && f[i] == s[i - i / 6]
  }

  lemma DashedCons(s: string, g: string)
    requires |s| > 5 && Dashed(g, s[5..])
    ensures Dashed(s[..5] + "-" + g, s)
  {
    var f := s[..5] + "-" + g;
    forall i | 0 <= i < |f|
      ensures if i % 6 == 5 then f[i] == '-' else i - i / 6 < |s| && f[i] == s[i - i / 6]
    {
      assert i >= 6 ==> f[i] == g[i - 6] && (i - 6) % 6 == i % 6 && (i - 6) / 6 == i / 6 - 1;
    }
  }

  /** The display form of a text on one line is dashed so. */
  lemma {:induction false} DashedEveryFive(s: string)
    requires s != "" && forall i :: 0 <= i < |s| ==> !IsLineTerminator(s[i])
    ensures Dashed(FormatRecoveryKey(s), s)
    decreases |s|
  {
    hide FormatRecoveryKey, IsLineTerminator;
    FormatFirst(s);
    if |s| > 5 {
      hide Dashed;
      DashedEveryFive(s[5..]);
      DashedCons(s, FormatRecoveryKey(s[5..]));
    }
  }

  // ---- theorems -----------------------------------------------------------------

  lemma EncodedIndexes(data: Bytes)
    ensures InAlphabet(EncodedText(data)) && Indexes(EncodedText(data)) == Encode(data, 5)
  {
    Pow2Five();
    IndexesText(Encode(data, 5));
  }

  lemma EncodedLength(n: nat)
    ensures DigitCount(n, 5) == (8 * n + 4) / 5
  {
    hide Bits, Wholes;
    BitsAre(n);
    BitsAre(DigitCount(n, 5));
  }

  /** A recovery key read back from its displayed form is the key, and its text
      is ceil(8n / 5) characters long. */
  lemma RecoveryKeyRoundTrip(casing: Casing, data: Bytes)
    requires UpperCases(casing)
    ensures DecodedText(casing, FormatRecoveryKey(EncodedText(data))) == Ok(data)
    ensures DecodedText(casing, EncodedText(data)) == Ok(data)
    ensures |EncodedText(data)| == (8 * |data| + 4) / 5
  {
    hide Encode, Decode, DigitCount, Bits, Wholes, Rest, FormatRecoveryKey;
    var s := EncodedText(data);
    FormatKeepsMeaning(casing, s);
    EncodedIndexes(data);
    CleanInAlphabet(casing, s);
    DecodeEncode(data, 5);
    EncodedLength(|data|);
  }

  lemma EncodedCount(data: Bytes)
    ensures |EncodedText(data)| == (8 * |data| + 4) / 5
  {
    EncodedLength(|data|);
  }

  /** An encoded key is on one line, so its display form is dashed every five characters. */
  lemma EncodedOneLine(data: Bytes)
    ensures forall i :: 0 <= i < |EncodedText(data)| ==> !IsLineTerminator(EncodedText(data)[i])
  {
    hide Encode;
    EncodedIndexes(data);
    forall i | 0 <= i < |EncodedText(data)|
      ensures !IsLineTerminator(EncodedText(data)[i])
    {
      var d :| 0 <= d < |Alphabet()| && Alphabet()[d] == EncodedText(data)[i];
      assert EncodedText(data)[i] == Letter(d);
    }
  }

  /** Test vectors of section 10 of RFC 4648: "f", "fo" and "foo". */
  lemma TestVectors()
    ensures EncodedText([0x66]) == "MY"
    ensures EncodedText([0x66, 0x6f]) == "MZXQ"
    ensures EncodedText([0x66, 0x6f, 0x6f]) == "MZXW6"
  {
    hide Value, Encode, Lsh, EncodedText;
    Vector([0x66], [12, 24], 2);
    Vector([0x66, 0x6f], [12, 25, 23, 16], 4);
    Vector([0x66, 0x6f, 0x6f], [12, 25, 23, 22, 30], 1);
    Pow2Five();
    AlphabetSpelled();
    Spell([12, 24], "MY");
    Spell([12, 25, 23, 16], "MZXQ");
    Spell([12, 25, 23, 22, 30], "MZXW6");
  }

  lemma Spell(ds: seq<nat>, s: string)
    requires DigitsOf(ds, 5) && |s| == |ds|
    requires forall i :: 0 <= i < |ds| ==> ds[i] < 32 && Alphabet()[ds[i]] == s[i]
    ensures Spelled(ds) == s
  {}

  lemma Vector(data: Bytes, ds: seq<nat>, pad: nat)
    requires (data == [0x66] && ds == [12, 24] && pad == 2)
             || (data == [0x66, 0x6f] && ds == [12, 25, 23, 16] && pad == 4)
             || (data == [0x66, 0x6f, 0x6f] && ds == [12, 25, 23, 22, 30] && pad == 1)
    ensures DigitsOf(ds, 5) && EncodedText(data) == Spelled(ds)
  {
    hide Value, Lsh, Encode;
    Pow2Five();
    ValueOfFive(12, 24, 0, 0, 0, 5);
    ValueOfFive(12, 25, 23, 16, 0, 5);
    ValueOfFive(12, 25, 23, 22, 30, 5);
    ValueOfFive(0x66, 0x6f, 0x6f, 0, 0, 8);
    LshTimes(Value(data, 8), pad);
    assert Pow2(1) == 2 && Pow2(2) == 4 && Pow2(4) == 16;
    EncodeDone(data, ds, pad);
  }

  /** Text survives decoding and encoding exactly when it is canonical base32:
      upper-case alphabet characters only, fewer than five bits left over, and
      those bits zero. */
  lemma ReverseRoundTrip(casing: Casing, s: string)
    requires UpperCases(casing)
    ensures (DecodedText(casing, s).Ok? && EncodedText(DecodedText(casing, s).value) == s)
       <==> (InAlphabet(s) && Canonical(Indexes(s), 5))
  {
    hide Encode, Decode, Canonical;
    if InAlphabet(s) {
      CleanInAlphabet(casing, s);
      var b := DecodedText(casing, s).value;
      EncodeDecode(Indexes(s), 5);
      EncodedIndexes(b);
      TextIndexes(s);
    } else if DecodedText(casing, s).Ok? {
      EncodedIndexes(DecodedText(casing, s).value);
    }
  }
}
