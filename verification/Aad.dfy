/**
 Additional authenticated data: a domain tag, NUL-terminated identifiers, and at
 most one trailing big-endian 32-bit integer. Identifiers are their UTF-8 bytes.
 */
module Aad {
  import opened Basics

  const NO_PROFILE_AAD_SENTINEL := "__no_profile__"
  const SERVER_AAD_MIN_VERSION: nat := 2

  /** What an authenticated ciphertext is bound to, one constructor a builder. */
  datatype Identity =
    | ServerContent(orgId: Bytes, profileId: Bytes, itemId: Bytes, version: int)
    | ServerDekWrap(orgId: Bytes, profileId: Bytes)
    | ZkContent(profileId: Bytes, itemId: Bytes, version: int)
    | ZkDekWrap(profileId: Bytes, itemId: Bytes)
    | ZkRootWrap(profileId: Bytes, version: int)

  function Ascii(s: string): (b: Bytes)
    ensures |b| == |s|
  {
    seq(|s|, i requires 0 <= i < |s| => (s[i] as int % 128) as byte)
  }

  function Tag(id: Identity): string {
    match id
    case ServerContent(_, _, _, _) => "abadge-sm-v1"
    case ServerDekWrap(_, _) => "abadge-sm-dek-v1"
    case ZkContent(_, _, _) => "abadge-zk-content-v1"
    case ZkDekWrap(_, _) => "abadge-zk-dek-v1"
    case ZkRootWrap(_, _) => "abadge-zk-root-v1"
  }

  function ProfileIdForServerAad(profileId: Option<Bytes>): Bytes {
    match profileId
    case Some(p) => p
    case None => Ascii(NO_PROFILE_AAD_SENTINEL)
  }

  /** `setUint32(0, n, false)`: the integer is reduced modulo 2^32. */
  function U32be(n: int): (b: Bytes)
    ensures |b| == 4
  {
    [n / 256 / 256 / 256 % 256, n / 256 / 256 % 256, n / 256 % 256, n % 256]
  }

  function Field(b: Bytes): Bytes {
    b + [0]
  }

  function Parts(id: Identity): seq<Bytes> {
    [Field(Ascii(Tag(id)))] +
    match id
    case ServerContent(o, p, i, v) => [Field(o), Field(p), Field(i), U32be(v)]
    case ServerDekWrap(o, p) => [Field(o), Field(p)]
    case ZkContent(p, i, v) => [Field(p), Field(i), U32be(v)]
    case ZkDekWrap(p, i) => [Field(p), Field(i)]
    case ZkRootWrap(p, v) => [Field(p), U32be(v)]
  }

  function Flatten(parts: seq<Bytes>): Bytes {
    if parts == [] then [] else parts[0] + Flatten(parts[1..])
  }

  function Build(id: Identity): Bytes {
    Flatten(Parts(id))
  }

  /** The five byte layouts written out. */
  lemma Layout(id: Identity)
    ensures match id
            case ServerContent(o, p, i, v) =>
              Build(id) == Ascii("abadge-sm-v1") + [0] + (o + [0] + (p + [0] + (i + [0] + U32be(v))))
            case ServerDekWrap(o, p) => Build(id) == Ascii("abadge-sm-dek-v1") + [0] + (o + [0] + (p + [0]))
            case ZkContent(p, i, v) => Build(id)
                                    == Ascii("abadge-zk-content-v1") + [0] + (p + [0] + (i + [0] + U32be(v)))
            case ZkDekWrap(p, i) => Build(id) == Ascii("abadge-zk-dek-v1") + [0] + (p + [0] + (i + [0]))
            case ZkRootWrap(p, v) => Build(id) == Ascii("abadge-zk-root-v1") + [0] + (p + [0] + U32be(v))
  {
    hide Ascii, U32be, Flatten, Build;
    BuildSplit(id);
    match id
    case ServerContent(o, p, i, v) =>
      assert Parts(id)[1..] == [Field(o), Field(p), Field(i), U32be(v)];
      Three(o, p, i, U32be(v));
    case ServerDekWrap(o, p) =>
      assert Parts(id)[1..] == [Field(o), Field(p)];
      Two(o, p, []);
      assert Field(p) + [] == Field(p);
    case ZkContent(p, i, v) =>
      assert Parts(id)[1..] == [Field(p), Field(i), U32be(v)];
      Two(p, i, U32be(v));
    case ZkDekWrap(p, i) =>
      assert Parts(id)[1..] == [Field(p), Field(i)];
      Two(p, i, []);
      assert Field(i) + [] == Field(i);
    case ZkRootWrap(p, v) =>
      assert Parts(id)[1..] == [Field(p), U32be(v)];
      One(p, U32be(v));
  }

  /** The integer field is big-endian, reduced modulo 2^32. */
  lemma U32beExact(n: int)
    ensures BeValue(U32be(n)) == n % 0x1_0000_0000
  {
    U32beReduced(n);
    U32beValue(n % 0x1_0000_0000);
  }

  // ---- the buffer-filling concatenation -----------------------------------------

  lemma {:induction false} FlattenSnoc(parts: seq<Bytes>, p: Bytes)
    ensures Flatten(parts + [p]) == Flatten(parts) + p
  {
    if parts == [] {
      assert parts + [p] == [p];
    } else {
      FlattenSnoc(parts[1..], p);
      assert (parts + [p])[1..] == parts[1..] + [p];
    }
  }

  lemma {:induction false} FlattenPrefix(parts: seq<Bytes>, i: nat)
    requires i <= |parts|
    ensures |Flatten(parts[..i])| <= |Flatten(parts)|
  {
    if i == 0 {
    } else {
      FlattenPrefix(parts[1..], i - 1);
      assert parts[..i][1..] == parts[1..][..i - 1];
    }
  }

  method Concat(parts: seq<Bytes>) returns (out: array<byte>)
    ensures fresh(out) && out[..] == Flatten(parts)
  {
    var total := 0;
    for i := 0 to |parts|
      invariant total == |Flatten(parts[..i])|
    {
      assert parts[..i + 1] == parts[..i] + [parts[i]];
      FlattenSnoc(parts[..i], parts[i]);
      total := total + |parts[i]|;
    }
    assert parts[..|parts|] == parts;
    out := new byte[total];
    var offset := 0;
    for i := 0 to |parts|
      invariant offset == |Flatten(parts[..i])| <= total
      invariant out[..offset] == Flatten(parts[..i])
    {
      assert parts[..i + 1] == parts[..i] + [parts[i]];
      FlattenSnoc(parts[..i], parts[i]);
      FlattenPrefix(parts, i + 1);
      forall k | 0 <= k < |parts[i]| {
        out[offset + k] := parts[i][k];
      }
      assert out[..offset + |parts[i]|] == out[..offset] + parts[i];
      offset := offset + |parts[i]|;
    }
  }

  // ---- injectivity -----------------------------------------------------------------

  ghost predicate NulFree(b: Bytes) {
    forall i :: 0 <= i < |b| ==> b[i] != 0
  }

  ghost predicate WellFormed(id: Identity) {
    match id
    case ServerContent(o, p, i, _) => NulFree(o) && NulFree(p) && NulFree(i)
    case ServerDekWrap(o, p) => NulFree(o) && NulFree(p)
    case ZkContent(p, i, _) => NulFree(p) && NulFree(i)
    case ZkDekWrap(p, i) => NulFree(p) && NulFree(i)
    case ZkRootWrap(p, _) => NulFree(p)
  }

  /** The identity with its integer reduced as the encoding reduces it. */
  function Reduced(id: Identity): Identity {
    match id
    case ServerContent(_, _, _, v) => id.(version := v % 0x1_0000_0000)
    case ZkContent(_, _, v) => id.(version := v % 0x1_0000_0000)
    case ZkRootWrap(_, v) => id.(version := v % 0x1_0000_0000)
    case _ => id
  }

  /** A NUL-free field ends at the first NUL, whatever follows it. */
  lemma FieldUnique(a: Bytes, x: Bytes, b: Bytes, y: Bytes)
    requires NulFree(a) && NulFree(b) && Field(a) + x == Field(b) + y
    ensures a == b && x == y
  {
    var s, t := Field(a) + x, Field(b) + y;
    assert s[|a|] == 0 && forall k :: 0 <= k < |a| ==> s[k] != 0;
    assert t[|b|] == 0 && forall k :: 0 <= k < |b| ==> t[k] != 0;
    assert a == s[..|a|] && x == s[|a| + 1..];
    assert b == t[..|b|] && y == t[|b| + 1..];
  }

  lemma U32beUnique(m: int, n: int)
    ensures U32be(m) == U32be(n) <==> m % 0x1_0000_0000 == n % 0x1_0000_0000
  {
    U32beReduced(m);
    U32beReduced(n);
    U32beValue(m % 0x1_0000_0000);
    U32beValue(n % 0x1_0000_0000);
  }

  function BeValue(b: Bytes): int
    requires |b| == 4
  {
    var b0: int, b1: int, b2: int, b3: int := b[0], b[1], b[2], b[3];
    ((b0 * 256 + b1) * 256 + b2) * 256 + b3
  }

  lemma U32beValue(n: int)
    requires 0 <= n < 0x1_0000_0000
    ensures BeValue(U32be(n)) == n
  {
    var x := n / 256;
    var y := x / 256;
    var z := y / 256;
    assert 0 <= z < 256;
  }

  lemma Shift(n: int, k: int, m: int)
    requires n == 256 * k + m
    ensures n / 256 == k + m / 256 && n % 256 == m % 256
  {}

  lemma U32beReduced(n: int)
    ensures U32be(n) == U32be(n % 0x1_0000_0000)
  {
    var k, m := n / 0x1_0000_0000, n % 0x1_0000_0000;
    Shift(n, k * 0x100_0000, m);
    Shift(n / 256, k * 0x1_0000, m / 256);
    Shift(n / 256 / 256, k * 0x100, m / 256 / 256);
    Shift(n / 256 / 256 / 256, k, m / 256 / 256 / 256);
  }

  lemma TagNulFree(id: Identity)
    ensures NulFree(Ascii(Tag(id)))
  {}

  lemma TagDecides(a: Identity, b: Identity)
    requires Ascii(Tag(a)) == Ascii(Tag(b))
    ensures Tag(a) == Tag(b)
  {
    assert Ascii("abadge-sm-dek-v1")[7] == 's' as int;
    assert Ascii("abadge-zk-dek-v1")[7] == 'z' as int;
  }

  /** After the tag, the encoding is the concatenation of the remaining parts. */
  lemma BuildSplit(id: Identity)
    ensures Build(id) == Field(Ascii(Tag(id))) + Flatten(Parts(id)[1..])
  {}

  /** The whole image of all five builders: two well-formed identities have the
      same encoding exactly when they are the same identity, integers taken
      modulo 2^32. So each builder is injective, and no two builders meet. */
  lemma Injective(a: Identity, b: Identity)
    requires WellFormed(a) && WellFormed(b)
    ensures Build(a) == Build(b) <==> Reduced(a) == Reduced(b)
  {
    if Build(a) == Build(b) {
      BuildSplit(a);
      BuildSplit(b);
      TagNulFree(a);
      TagNulFree(b);
      FieldUnique(Ascii(Tag(a)), Flatten(Parts(a)[1..]), Ascii(Tag(b)), Flatten(Parts(b)[1..]));
      TagDecides(a, b);
      SameTail(a, b);
    } else if Reduced(a) == Reduced(b) {
      ReducedParts(a);
      ReducedParts(b);
    }
  }

  lemma ReducedParts(id: Identity)
    ensures Parts(Reduced(id)) == Parts(id)
  {
    if id.ServerContent? || id.ZkContent? || id.ZkRootWrap? {
      U32beReduced(id.version);
    }
  }

  lemma SameTail(a: Identity, b: Identity)
    requires WellFormed(a) && WellFormed(b) && Tag(a) == Tag(b)
    requires Flatten(Parts(a)[1..]) == Flatten(Parts(b)[1..])
    ensures Reduced(a) == Reduced(b)
  {
    match a
    case ServerContent(o, p, i, v) =>
      Three(o, p, i, U32be(v));
      Three(b.orgId, b.profileId, b.itemId, U32be(b.version));
      FieldUnique(o, Field(p) + (Field(i) + U32be(v)), b.orgId,
                  Field(b.profileId) + (Field(b.itemId) + U32be(b.version)));
      FieldUnique(p, Field(i) + U32be(v), b.profileId, Field(b.itemId) + U32be(b.version));
      FieldUnique(i, U32be(v), b.itemId, U32be(b.version));
      U32beUnique(v, b.version);
    case ServerDekWrap(o, p) =>
      Two(o, p, []);
      Two(b.orgId, b.profileId, []);
      FieldUnique(o, Field(p) + [], b.orgId, Field(b.profileId) + []);
      FieldUnique(p, [], b.profileId, []);
    case ZkContent(p, i, v) =>
      Two(p, i, U32be(v));
      Two(b.profileId, b.itemId, U32be(b.version));
      FieldUnique(p, Field(i) + U32be(v), b.profileId, Field(b.itemId) + U32be(b.version));
      FieldUnique(i, U32be(v), b.itemId, U32be(b.version));
      U32beUnique(v, b.version);
    case ZkDekWrap(p, i) =>
      Two(p, i, []);
      Two(b.profileId, b.itemId, []);
      FieldUnique(p, Field(i) + [], b.profileId, Field(b.itemId) + []);
      FieldUnique(i, [], b.itemId, []);
    case ZkRootWrap(p, v) =>
      One(p, U32be(v));
      One(b.profileId, U32be(b.version));
      FieldUnique(p, U32be(v), b.profileId, U32be(b.version));
      U32beUnique(v, b.version);
  }

  lemma One(x: Bytes, last: Bytes)
    ensures Flatten([Field(x), last]) == Field(x) + last
    ensures Flatten([Field(x)]) == Field(x) + []
  {
    assert [Field(x), last][1..] == [last];
    assert Flatten([last]) == last + Flatten([last][1..]) == last;
    assert Flatten([Field(x)]) == Field(x) + Flatten([Field(x)][1..]);
  }

  lemma Two(x: Bytes, y: Bytes, last: Bytes)
    ensures Flatten([Field(x), Field(y), last]) == Field(x) + (Field(y) + last)
    ensures Flatten([Field(x), Field(y)]) == Field(x) + (Field(y) + [])
  {
    One(y, last);
    assert [Field(x), Field(y), last][1..] == [Field(y), last];
    assert [Field(x), Field(y)][1..] == [Field(y)];
  }

  lemma Three(x: Bytes, y: Bytes, z: Bytes, last: Bytes)
    ensures Flatten([Field(x), Field(y), Field(z), last]) == Field(x) + (Field(y) + (Field(z) + last))
  {
    Two(y, z, last);
    assert [Field(x), Field(y), Field(z), last][1..] == [Field(y), Field(z), last];
  }

  /** Both restrictions are needed: a NUL inside an identifier, and an integer of
      33 bits, each produce a collision. */
  lemma CollisionsOutside()
    ensures Build(ZkDekWrap([97, 0, 98], [99])) == Build(ZkDekWrap([97], [98, 0, 99]))
    ensures Build(ZkRootWrap([97], 1)) == Build(ZkRootWrap([97], 0x1_0000_0001))
  {
    assert Field([97, 0, 98]) + (Field([99]) + []) == Field([97]) + (Field([98, 0, 99]) + []);
    Two([97, 0, 98], [99], []);
    Two([97], [98, 0, 99], []);
    BuildSplit(ZkDekWrap([97, 0, 98], [99]));
    BuildSplit(ZkDekWrap([97], [98, 0, 99]));
    assert Parts(ZkDekWrap([97, 0, 98], [99]))[1..] == [Field([97, 0, 98]), Field([99])];
    assert Parts(ZkDekWrap([97], [98, 0, 99]))[1..] == [Field([97]), Field([98, 0, 99])];
    U32beReduced(0x1_0000_0001);
  }
}
