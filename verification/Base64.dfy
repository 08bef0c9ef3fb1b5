/**
 Unpadded base64url text: the platform's `btoa`/`atob` (RFC 4648 section 4, and
 the forgiving decoder of the WHATWG Infra standard) between two rewritings to
 and from the URL-safe alphabet (RFC 4648 section 5).
 */
module Base64 {
  import opened Basics
  import opened Words
  import opened Radix

  function Letter(d: nat): char
    requires d < 64
  {
    if d < 26 then ('A' as int + d) as char
    else if d < 52 then ('a' as int + (d - 26)) as char
    else if d < 62 then ('0' as int + (d - 52)) as char
    else if d == 62 then '+' else '/'
  }

  /** The value of a base64 character, or -1. */
  function IndexOf(c: char): (d: int)
    ensures d == -1 || (0 <= d < 64 && Letter(d) == c)
  {
    if 'A' <= c <= 'Z' then c as int - 'A' as int
    else if 'a' <= c <= 'z' then c as int - 'a' as int + 26
    else if '0' <= c <= '9' then c as int - '0' as int + 52
    else if c == '+' then 62 else if c == '/' then 63 else -1
  }

  lemma Pow2Six()
    ensures Pow2(6) == 64
  {}

  function Text(ds: seq<nat>): (s: string)
    requires DigitsOf(ds, 6)
    ensures |s| == |ds|
  {
    Pow2Six();
    seq(|ds|, i requires 0 <= i < |ds| => Letter(ds[i]))
  }

  ghost predicate InAlphabet(s: string) {
    forall i :: 0 <= i < |s| ==> IndexOf(s[i]) >= 0
  }

  /** `btoa(binary)`: padded to a multiple of four characters. */
  function Btoa(binary: Bytes): string {
    var s := Text(Encode(binary, 6));
    s + Repeat('=', (4 - |s| % 4) % 4)
  }

  function Repeat(c: char, n: nat): string {
    seq(n, _ => c)
  }

  /** `s.replace(/x/g, y)` for one character. */
  function Replace(s: string, x: char, y: char): (r: string)
    ensures |r| == |s|
  {
    seq(|s|, i requires 0 <= i < |s| => if s[i] == x then y else s[i])
  }

  /** `s.replace(/=+$/, "")`. */
  function StripPadding(s: string): (r: string) {
    if s != "" && s[|s| - 1] == '=' then StripPadding(s[..|s| - 1]) else s
  }

  function UrlSafe(binary: Bytes): string {
    StripPadding(Replace(Replace(Btoa(binary), '+', '-'), '/', '_'))
  }

  const CHUNK_SIZE: nat := 8192

  method ToBase64(data: Bytes) returns (r: string)
    ensures r == UrlSafe(data)
  {
    var binary: Bytes := [];
    var i: nat := 0;
    while i < |data|
      invariant binary == data[..Min(i, |data|)]
    {
      var chunk := data[i..Min(i + CHUNK_SIZE, |data|)];
      binary := binary + chunk;
      i := i + CHUNK_SIZE;
    }
    assert binary == data;
    r := UrlSafe(binary);
  }

  predicate IsAsciiSpace(c: char) {
    c == ' ' || c == '\t' || c == '\n' || c == '\r' || c == '\U{0C}'
  }

  function RemoveSpaces(s: string): string {
    if s == "" then ""
    else (if IsAsciiSpace(s[0]) then "" else [s[0]]) + RemoveSpaces(s[1..])
  }

  /** At most two `=` are dropped, and only from a whole number of quartets. */
  function DropPadding(s: string): string {
    if |s| % 4 != 0 || s == "" || s[|s| - 1] != '=' then s
    else if |s| > 1 && s[|s| - 2] == '=' then s[..|s| - 2]
    else s[..|s| - 1]
  }

  function Indexes(s: string): (ds: seq<nat>)
    requires InAlphabet(s)
    ensures |ds| == |s| && DigitsOf(ds, 6)
  {
    Pow2Six();
    seq(|s|, i requires 0 <= i < |s| => IndexOf(s[i]))
  }

  predicate Decodable(s: string)
    ensures Decodable(s) ==> InAlphabet(s)
  {
    |s| % 4 != 1 && forall i :: 0 <= i < |s| ==> IndexOf(s[i]) >= 0
  }

  /** `atob(encoded)`; None is the exception. */
  function Atob(encoded: string): Option<Bytes> {
    var s := DropPadding(RemoveSpaces(encoded));
    if Decodable(s) then Some(Decode(Indexes(s), 6)) else None
  }

  function Decoded(encoded: string): Option<Bytes> {
    Atob(Replace(Replace(encoded, '-', '+'), '_', '/'))
  }

  method FromBase64(encoded: string) returns (r: Option<Bytes>)
    ensures r == Decoded(encoded)
  {
    var binary := Atob(Replace(Replace(encoded, '-', '+'), '_', '/'));
    if binary == None {
      return None;
    }
    var bytes := new byte[|binary.value|];
    for i := 0 to |binary.value|
      invariant bytes[..i] == binary.value[..i]
    {
      bytes[i] := binary.value[i];
    }
    assert bytes[..] == bytes[..bytes.Length] == binary.value;
    r := Some(bytes[..]);
  }

  // ---- round trip -----------------------------------------------------------------

  function UrlLetter(c: char): char {
    if c == '+' then '-' else if c == '/' then '_' else c
  }

  lemma {:induction false} StripRepeated(s: string, n: nat)
    requires s == "" || s[|s| - 1] != '='
    ensures StripPadding(s + Repeat('=', n)) == s
  {
    var t := s + Repeat('=', n);
    if n > 0 {
      assert t[..|t| - 1] == s + Repeat('=', n - 1);
      StripRepeated(s, n - 1);
    } else {
      assert t == s;
    }
  }

  lemma UrlText(data: Bytes)
    ensures DigitsOf(Encode(data, 6), 6)
    ensures |UrlSafe(data)| == |Encode(data, 6)|
    ensures forall i :: 0 <= i < |UrlSafe(data)| ==> UrlSafe(data)[i] == UrlLetter(Text(Encode(data, 6))[i])
  {
    Pow2Six();
    var s := Text(Encode(data, 6));
    var n := (4 - |s| % 4) % 4;
    var u := seq(|s|, i requires 0 <= i < |s| => UrlLetter(s[i]));
    assert Replace(Replace(Btoa(data), '+', '-'), '/', '_') == u + Repeat('=', n);
    StripRepeated(u, n);
  }

  lemma {:induction false} NoSpaces(s: string)
    requires forall i :: 0 <= i < |s| ==> !IsAsciiSpace(s[i])
    ensures RemoveSpaces(s) == s
  {
    if s != "" {
      NoSpaces(s[1..]);
    }
  }

  lemma NoLoneDigit(d: nat, n: nat)
    requires 0 <= 6 * d - 8 * n < 6
    ensures d % 4 != 1
  {
    var q := d / 4;
    assert d == 4 * q + d % 4;
    assert n <= 3 * q ==> 8 * n <= 24 * q;
    assert n >= 3 * q + 1 ==> 8 * n >= 24 * q + 8;
  }

  lemma QuartetTail(n: nat)
    ensures DigitCount(n, 6) % 4 != 1
  {
    hide Bits, Wholes;
    BitsAre(n);
    BitsAre(DigitCount(n, 6));
    NoLoneDigit(DigitCount(n, 6), n);
  }

  /** Undoing the rewritings and reading the characters gives the digits back. */
  lemma UrlDigits(ds: seq<nat>, url: string)
    requires DigitsOf(ds, 6) && |url| == |ds|
    requires forall i :: 0 <= i < |url| ==> url[i] == UrlLetter(Text(ds)[i])
    ensures var s := Replace(Replace(url, '-', '+'), '_', '/');
            s == Text(ds) && InAlphabet(s) && Indexes(s) == ds
            && RemoveSpaces(s) == s && DropPadding(s) == s
  {
    hide Pow2;
    Pow2Six();
    var s := Replace(Replace(url, '-', '+'), '_', '/');
    forall i | 0 <= i < |s|
      ensures s[i] == Letter(ds[i]) && IndexOf(s[i]) == ds[i] && !IsAsciiSpace(s[i]) && s[i] != '='
    {}
    NoSpaces(s);
  }

  /** Encoded bytes decode to themselves. */
  lemma RoundTrip(data: Bytes)
    ensures Decoded(UrlSafe(data)) == Some(data)
  {
    hide Value, Pow2, DigitCount, Encode, Decode, EncodedValue, UrlSafe, Text, Replace, DropPadding, RemoveSpaces,
         Indexes;
    UrlText(data);
    UrlDigits(Encode(data, 6), UrlSafe(data));
    QuartetTail(|data|);
    DecodeEncode(data, 6);
  }

  const UPPER_LETTERS := "ABCDEFGHIJKLMNOPQRSTUVWXYZ"
  const LOWER_LETTERS := "abcdefghijklmnopqrstuvwxyz"
  const DIGITS_AND_REST := "0123456789-_"

  /** The alphabet of section 5 of RFC 4648, Table 2. */
  function UrlAlphabet(): (s: string)
    ensures |s| == 64
  {
    UPPER_LETTERS + LOWER_LETTERS + DIGITS_AND_REST
  }

  lemma UrlAlphabetSpelled(d: nat)
    requires d < 64
    ensures UrlLetter(Letter(d)) == UrlAlphabet()[d]
  {
    var upper := seq(26, i requires 0 <= i < 26 => UrlLetter(Letter(i)));
    var lower := seq(26, i requires 0 <= i < 26 => UrlLetter(Letter(26 + i)));
    var rest := seq(12, i requires 0 <= i < 12 => UrlLetter(Letter(52 + i)));
    assert upper == UPPER_LETTERS;
    assert lower == LOWER_LETTERS;
    assert rest == DIGITS_AND_REST;
    assert UrlAlphabet()[d] == if d < 26 then upper[d] else if d < 52 then lower[d - 26] else rest[d - 52];
  }

  /** The text is the digits of the data in that alphabet, without padding. */
  lemma UrlSpelled(data: Bytes, i: nat)
    requires i < |UrlSafe(data)|
    ensures |UrlSafe(data)| == |Encode(data, 6)| && Encode(data, 6)[i] < 64
    ensures UrlSafe(data)[i] == UrlAlphabet()[Encode(data, 6)[i]]
  {
    hide Encode, UrlSafe;
    UrlText(data);
    Pow2Six();
    UrlAlphabetSpelled(Encode(data, 6)[i]);
  }

  /** Test vectors of section 10 of RFC 4648: "f", "fo" and "foo". */
  lemma TestVectors()
    ensures UrlSafe([0x66]) == "Zg"
    ensures UrlSafe([0x66, 0x6f]) == "Zm8"
    ensures UrlSafe([0x66, 0x6f, 0x6f]) == "Zm9v"
  {
    hide Encode, UrlSafe;
    Vector([0x66], [25, 32], 4, "Zg");
    Vector([0x66, 0x6f], [25, 38, 60], 2, "Zm8");
    Vector([0x66, 0x6f, 0x6f], [25, 38, 61, 47], 0, "Zm9v");
  }

  lemma Vector(data: Bytes, ds: seq<nat>, pad: nat, s: string)
    requires (data == [0x66] && ds == [25, 32] && pad == 4 && s == "Zg")
             || (data == [0x66, 0x6f] && ds == [25, 38, 60] && pad == 2 && s == "Zm8")
             || (data == [0x66, 0x6f, 0x6f] && ds == [25, 38, 61, 47] && pad == 0 && s == "Zm9v")
    ensures UrlSafe(data) == s
  {
    hide Value, Lsh, Encode, UrlSafe;
    Pow2Six();
    VectorValue(data, ds, pad);
    EncodeIs(data, ds, 6, pad);
    UrlText(data);
    forall i | 0 <= i < |s|
      ensures UrlSafe(data)[i] == s[i]
    {
      UrlSpelled(data, i);
    }
  }

  lemma VectorValue(data: Bytes, ds: seq<nat>, pad: nat)
    requires (data == [0x66] && ds == [25, 32] && pad == 4)
             || (data == [0x66, 0x6f] && ds == [25, 38, 60] && pad == 2)
             || (data == [0x66, 0x6f, 0x6f] && ds == [25, 38, 61, 47] && pad == 0)
    ensures DigitsOf(ds, 6) && Value(ds, 6) == Lsh(Value(data, 8), pad) && Bits(|ds|, 6) == Bits(|data|, 8) + pad
  {
    hide Value, Lsh;
    Pow2Six();
    assert Pow2(0) == 1 && Pow2(2) == 4 && Pow2(4) == 16 && Pow2(8) == 256;
    ValueOfFive(25, 32, 0, 0, 0, 6);
    ValueOfFive(25, 38, 60, 0, 0, 6);
    ValueOfFive(25, 38, 61, 47, 0, 6);
    ValueOfFive(0x66, 0x6f, 0x6f, 0, 0, 8);
    LshTimes(Value(data, 8), pad);
    BitsAre(|ds|);
    BitsAre(|data|);
  }

  lemma PaddingDrops(s: string, n: nat)
    requires |s| % 4 != 1 && n == (4 - |s| % 4) % 4 && (s == "" || s[|s| - 1] != '=')
    ensures DropPadding(s + Repeat('=', n)) == s
  {
    var t := s + Repeat('=', n);
    assert n <= 2 && |t| % 4 == 0;
    if n == 0 {
      assert t == s;
    } else if n == 1 {
      assert t[..|t| - 1] == s && t[|t| - 2] == s[|s| - 1];
    } else {
      assert t[..|t| - 2] == s;
    }
  }

  lemma PaddedText(ds: seq<nat>, n: nat)
    requires DigitsOf(ds, 6)
    ensures var t := Text(ds) + Repeat('=', n);
            Replace(Replace(t, '-', '+'), '_', '/') == t && RemoveSpaces(t) == t
  {
    hide Letter, Pow2;
    var t := Text(ds) + Repeat('=', n);
    TextCharacters(ds);
    forall i | 0 <= i < |t|
      ensures !IsAsciiSpace(t[i]) && t[i] != '-' && t[i] != '_'
    {
      assert t[i] == if i < |ds| then Text(ds)[i] else '=';
    }
    NoSpaces(t);
  }

  /** Padded text in the other alphabet decodes too. */
  lemma PaddedRoundTrip(data: Bytes)
    ensures Decoded(Btoa(data)) == Some(data)
  {
    hide Encode, Decode, Text, Indexes, Replace, RemoveSpaces, DropPadding, InAlphabet, Repeat;
    var ds := Encode(data, 6);
    TextCharacters(ds);
    QuartetTail(|data|);
    PaddedText(ds, (4 - |ds| % 4) % 4);
    PaddingDrops(Text(ds), (4 - |ds| % 4) % 4);
    DecodeEncode(data, 6);
  }

  lemma TextCharacters(ds: seq<nat>)
    requires DigitsOf(ds, 6)
    ensures forall i :: 0 <= i < |ds| ==>
              var c := Text(ds)[i];
              IndexOf(c) == ds[i] && !IsAsciiSpace(c) && c != '=' && c != '-' && c != '_'
    ensures InAlphabet(Text(ds)) && Indexes(Text(ds)) == ds
  {
    Pow2Six();
  }

  /** A space, tab, newline, form feed or carriage return is ignored wherever it stands. */
  lemma SpaceIgnored(s: string, c: char, t: string)
    requires c in " \t\n\U{0C}\r"
    ensures Decoded(s + [c] + t) == Decoded(s + t)
  {
    hide DropPadding, Decodable;
    var a, b := Replace(s, '-', '+'), Replace(t, '-', '+');
    var x, y := Replace(a, '_', '/'), Replace(b, '_', '/');
    assert Replace(Replace(s + t, '-', '+'), '_', '/') == x + y;
    assert Replace([c], '-', '+') == [c] && Replace([c], '_', '/') == [c];
    ReplaceConcat(s, [c], t, '-', '+');
    ReplaceConcat(a, [c], b, '_', '/');
    assert Replace(Replace(s + [c] + t, '-', '+'), '_', '/') == x + [c] + y;
    SpaceRemoved(x, c, y);
  }

  lemma {:induction false} SpaceRemoved(s: string, c: char, t: string)
    requires IsAsciiSpace(c)
    ensures RemoveSpaces(s + [c] + t) == RemoveSpaces(s + t)
  {
    if s == "" {
      assert s + [c] + t == [c] + t && ([c] + t)[1..] == t && s + t == t;
    } else {
      SpaceRemoved(s[1..], c, t);
      assert (s + [c] + t)[1..] == s[1..] + [c] + t && (s + t)[1..] == s[1..] + t;
    }
  }

  lemma ReplaceConcat(s: string, m: string, t: string, a: char, b: char)
    ensures Replace(s + m + t, a, b) == Replace(s, a, b) + Replace(m, a, b) + Replace(t, a, b)
  {}

  /** No text is the encoding of two byte strings. */
  lemma Injective(a: Bytes, b: Bytes)
    requires UrlSafe(a) == UrlSafe(b)
    ensures a == b
  {
    RoundTrip(a);
    RoundTrip(b);
  }
}
