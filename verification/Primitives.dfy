/**
 The cryptographic primitives the repository takes from libraries, as a record of
 functions, and the ideal behaviour the theorems assume of them.
 */
module Primitives {
  import opened Basics

  datatype KdfParams = KdfParams(memory: nat, iterations: nat, parallelism: nat, hashLength: nat)

  datatype Primitives = Primitives(
    /** Authenticated encryption of a plaintext: key, nonce, additional data. */
    seal: (Bytes, Bytes, Bytes, Bytes) -> Bytes,
    /** Its inverse; None is a failed tag check. */
    open: (Bytes, Bytes, Bytes, Bytes) -> Option<Bytes>,
    /** Password-based key derivation. */
    derive: (string, Bytes, KdfParams) -> Bytes,
    /** HMAC-SHA256 of the fixed key-commitment context under a key. */
    commit: Bytes -> Bytes,
    /** Whether `JSON.parse` accepts the bytes. */
    parses: Bytes -> bool
  ) {
    /** A sealed box is never empty (it carries a tag) and opens exactly with what it
        was sealed with; distinct passwords give distinct keys, and a commitment is 32 bytes. */
    ghost predicate Ideal() {
      && (forall k, n, a, p, k', n', a' :: open(k', n', a', seal(k, n, a, p))
            == if k' == k && n' == n && a' == a then Some(p) else None)
      && (forall k, n, a, p :: seal(k, n, a, p) != [])
      && (forall w, w', s, q :: derive(w, s, q) == derive(w', s, q) ==> w == w')
      && (forall k :: |commit(k)| == 32)
    }
  }

  // ---- the ideal is not contradictory --------------------------------------------

  function Frame(b: Bytes): Bytes {
    if b == [] then [0] else [1, b[0]] + Frame(b[1..])
  }

  lemma {:induction false} FrameUnique(a: Bytes, x: Bytes, b: Bytes, y: Bytes)
    requires Frame(a) + x == Frame(b) + y
    ensures a == b && x == y
  {
    var s, t := Frame(a) + x, Frame(b) + y;
    assert s[0] == (if a == [] then 0 else 1) && t[0] == (if b == [] then 0 else 1);
    if a == [] {
      assert x == s[1..] && y == t[1..];
    } else {
      assert s == [1, a[0]] + (Frame(a[1..]) + x);
      assert t == [1, b[0]] + (Frame(b[1..]) + y);
      assert s[1] == a[0] && t[1] == b[0];
      assert s[2..] == Frame(a[1..]) + x && t[2..] == Frame(b[1..]) + y;
      FrameUnique(a[1..], x, b[1..], y);
      assert a == [a[0]] + a[1..] && b == [b[0]] + b[1..];
    }
  }

  function Framed(k: Bytes, n: Bytes, a: Bytes, p: Bytes): Bytes {
    Frame(k) + (Frame(n) + (Frame(a) + p))
  }

  lemma FramedUnique(k: Bytes, n: Bytes, a: Bytes, p: Bytes, k': Bytes, n': Bytes, a': Bytes, p': Bytes)
    requires Framed(k, n, a, p) == Framed(k', n', a', p')
    ensures k == k' && n == n' && a == a' && p == p'
  {
    FrameUnique(k, Frame(n) + (Frame(a) + p), k', Frame(n') + (Frame(a') + p'));
    FrameUnique(n, Frame(a) + p, n', Frame(a') + p');
    FrameUnique(a, p, a', p');
  }

  ghost function Unframe(k: Bytes, n: Bytes, a: Bytes, c: Bytes): Option<Bytes> {
    if exists p :: Framed(k, n, a, p) == c then
      var p :| Framed(k, n, a, p) == c; Some(p)
    else None
  }

  function Utf24(c: char): (b: Bytes)
    ensures |b| == 3
  {
    [c as int / 256 / 256 % 256, c as int / 256 % 256, c as int % 256]
  }

  function CharBytes(s: string): (b: Bytes)
    ensures |b| == 3 * |s|
  {
    if s == "" then [] else Utf24(s[0]) + CharBytes(s[1..])
  }

  lemma {:induction false} CharBytesUnique(s: string, t: string)
    requires CharBytes(s) == CharBytes(t)
    ensures s == t
  {
    if s != "" && t != "" {
      var b, b' := CharBytes(s), CharBytes(t);
      assert b[..3] == Utf24(s[0]) && b'[..3] == Utf24(t[0]);
      Utf24Unique(s[0], t[0]);
      assert b[3..] == CharBytes(s[1..]) && b'[3..] == CharBytes(t[1..]);
      CharBytesUnique(s[1..], t[1..]);
      assert s == [s[0]] + s[1..] && t == [t[0]] + t[1..];
    }
  }

  lemma Utf24Unique(c: char, d: char)
    requires Utf24(c) == Utf24(d)
    ensures c == d
  {
    Digits24(c);
    Digits24(d);
  }

  lemma Digits24(c: char)
    ensures var b2: int, b1: int, b0: int := Utf24(c)[0], Utf24(c)[1], Utf24(c)[2];
            c as int == (b2 * 256 + b1) * 256 + b0
  {
    var x := c as int / 256;
    assert c as int / 256 / 256 == x / 256 < 256;
  }

  /** Some primitives are ideal, so theorems that assume Ideal() are not vacuous. */
  lemma IdealExists()
    ensures exists prim: Primitives :: prim.Ideal()
  {
    var prim := Primitives(
      (k: Bytes, n: Bytes, a: Bytes, p: Bytes) => Framed(k, n, a, p),
      (k: Bytes, n: Bytes, a: Bytes, c: Bytes) => Unframe(k, n, a, c),
      (w: string, s: Bytes, q: KdfParams) => CharBytes(w),
      (k: Bytes) => seq(32, _ => 0),
      (b: Bytes) => true);
    forall k, n, a, p, k', n', a'
      ensures prim.open(k', n', a', prim.seal(k, n, a, p))
           == if k' == k && n' == n && a' == a then Some(p) else None
    {
      var r := Unframe(k', n', a', Framed(k, n, a, p));
      if r.Some? {
        FramedUnique(k', n', a', r.value, k, n, a, p);
      }
    }
    forall k, n, a, p
      ensures prim.seal(k, n, a, p) != []
    {
      assert |Frame(k)| > 0;
    }
    forall w, w', s, q | prim.derive(w, s, q) == prim.derive(w', s, q)
      ensures w == w'
    {
      CharBytesUnique(w, w');
    }
    assert prim.Ideal();
  }
}
