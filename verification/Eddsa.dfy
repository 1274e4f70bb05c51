/** Ed25519 as the driver computes it (tegra-se-elp.c), over any cyclic group whose points
    can be recovered from their encodings. */
module Eddsa {
  import opened Curves
  import opened Residues

  type Word = x: int | 0 <= x < 0x1_0000_0000

  datatype Option<T> = None | Some(value: T)

  /** Words of a coordinate or a scalar, and of a SHA-512 digest. */
  const NWORDS := 8
  const SHA512_WORDS := 16

  const BASE: nat := 0x1_0000_0000_0000_0000_0000_0000_0000_0000_0000_0000_0000_0000_0000_0000_0000_0000

  /** Little-endian words as a number. */
  function Value(words: seq<Word>): nat {
    if words == [] then 0 else words[0] + 0x1_0000_0000 * Value(words[1..])
  }

  /** The group, the points' coordinates in words, the point at given coordinates, the
      x-coordinate for a parity and a y-coordinate, SHA-512, and the factor, eight on the
      driver's curve, that verifying multiplies both sides with. */
  datatype EdCurve<!P> = EdCurve(group: Curve<P>, xs: P -> seq<Word>, ys: P -> seq<Word>,
                                 at: (seq<Word>, seq<Word>) -> P,
                                 recover: (int, seq<Word>) -> Option<seq<Word>>,
                                 hash: seq<Word> -> seq<Word>, vec: nat)

  ghost predicate Lawful<P>(c: EdCurve<P>) {
    && Cyclic(c.group) && c.group.n <= BASE
    && (forall a: nat :: Recoverable(c, c.group.mul(a, c.group.g)))
    && (forall m :: |c.hash(m)| == SHA512_WORDS)
  }

  /** A point is determined by its y-coordinate, which is below 2^255, and by the parity of
      its x-coordinate. */
  ghost predicate Recoverable<P>(c: EdCurve<P>, p: P) {
    && |c.xs(p)| == NWORDS && |c.ys(p)| == NWORDS && c.ys(p)[NWORDS - 1] < 0x8000_0000
    && c.recover(c.xs(p)[0] % 2, c.ys(p)) == Some(c.xs(p))
    && c.at(c.xs(p), c.ys(p)) == p
  }

  // ---------------------------------------------------------------- encoding

  /** A point's encoding: y, with the parity of x in the topmost bit. */
  function Encoded(x: seq<Word>, y: seq<Word>): seq<Word>
    requires |x| == |y| > 0
  {
    y[..|y| - 1] + [y[|y| - 1] % 0x8000_0000 + x[0] % 2 * 0x8000_0000]
  }

  function DecodedY(d: seq<Word>): seq<Word>
    requires d != []
  {
    d[..|d| - 1] + [d[|d| - 1] % 0x8000_0000]
  }

  function Parity(d: seq<Word>): int
    requires d != []
  {
    d[|d| - 1] / 0x8000_0000
  }

  /** Decoding undoes encoding: it gives back y, if that leaves the topmost bit free, and the
      parity of x. */
  lemma DecodeEncode(x: seq<Word>, y: seq<Word>)
    requires |x| == |y| > 0
    ensures Parity(Encoded(x, y)) == x[0] % 2
    ensures DecodedY(Encoded(x, y)) == y <==> y[|y| - 1] < 0x8000_0000
  {
    var n := |y| - 1;
    assert y == y[..n] + [y[n]];
    assert DecodedY(Encoded(x, y)) == y[..n] + [y[n] % 0x8000_0000];
  }

  /** tegra_se_point_encode */
  method PointEncode(x: seq<Word>, y: seq<Word>, r: array<Word>)
    requires |x| == |y| == r.Length > 0
    modifies r
    ensures r[..] == Encoded(x, y)
  {
    var nwords := r.Length;
    for i := 0 to nwords
      invariant forall j :: 0 <= j < i && j < nwords - 1 ==> r[j] == y[j]
      invariant i == nwords ==> r[nwords - 1] == Encoded(x, y)[nwords - 1]
    {
      if i < nwords - 1 {
        r[i] := y[i];
      } else {
        r[i] := y[i] % 0x8000_0000 + x[0] % 2 * 0x8000_0000;
      }
    }
  }

  /** tegra_se_point_decode */
  method PointDecode(d: seq<Word>, ry: array<Word>) returns (rx0: int)
    requires |d| == ry.Length > 0
    modifies ry
    ensures ry[..] == DecodedY(d) && rx0 == Parity(d)
  {
    var nwords := ry.Length;
    for i := 0 to nwords
      invariant forall j :: 0 <= j < i ==> ry[j] == if j == nwords - 1 then d[j] % 0x8000_0000 else d[j]
    {
      ry[i] := d[i];
      if i == nwords - 1 {
        ry[i] := ry[i] % 0x8000_0000;
      }
    }
    rx0 := d[nwords - 1] / 0x8000_0000;
  }

  // ---------------------------------------------------------------- scalars

  /** tegra_se_bit_serial_dp_mod_red: a double-width number modulo n. */
  function DoubleReduce(lo: nat, hi: nat, n: nat): nat
    requires n > 0
  {
    Rem(lo + BASE * hi, n)
  }

  /** tegra_se_ed25519_mod_mult: reduce, multiply to double width, reduce. */
  method ModMult(x: nat, y: nat, n: nat) returns (result: nat)
    requires 0 < n <= BASE
    ensures result == Rem(Mul(x, y), n)
  {
    var x1 := DoubleReduce(x, 0, n);
    var y1 := DoubleReduce(y, 0, n);
    var product := Mul(x1, y1);
    MulBelow(x1, y1);
    var lo, hi := product % BASE, product / BASE % BASE;
    assert product == lo + BASE * hi;
    result := DoubleReduce(lo, hi, n);
    RemMul(x, y1, n);
    RemMul(y, x, n);
  }

  /** Numbers of single width have a product of double width. */
  lemma {:induction false} MulBelow(a: nat, b: nat)
    requires a <= BASE
    ensures Mul(a, b) <= BASE * b
  {
    if b > 0 { MulBelow(a, b - 1); }
  }

  /** tegra_se_ed25519_mod_add */
  method ModAdd(x: nat, y: nat, n: nat) returns (result: nat)
    requires n > 0
    ensures result == Rem(x + y, n)
  {
    var x1 := DoubleReduce(x, 0, n);
    var y1 := DoubleReduce(y, 0, n);
    result := Rem(x1 + y1, n);
    RemAdd(x, y1, n);
    RemAdd(y, x, n);
  }

  /** The scalar S of a signature. */
  method ScalarS(k: nat, h0: nat, r: nat, n: nat) returns (s: nat)
    requires 0 < n <= BASE
    ensures s == Rem(Mul(k, h0) + r, n)
  {
    s := ModMult(k, h0, n);
    s := ModAdd(s, r, n);
    RemAdd(Mul(k, h0), r, n);
  }

  /** The key format of section 5.1.5 of RFC 8032: the lowest three bits are cleared, the
      highest too, and the second highest is set. */
  function Pruned(h: seq<Word>): seq<Word>
    requires |h| == NWORDS
  {
    var top := h[NWORDS - 1] % 0x8000_0000;
    [h[0] - h[0] % 8] + h[1..NWORDS - 1] + [if top < 0x4000_0000 then top + 0x4000_0000 else top]
  }

  // ---------------------------------------------------------------- signatures

  class EddsaContext<!P> {
    const curve: EdCurve<P>
    var privateKey: seq<Word>
    var publicKey: seq<Word>
    var prefix0: seq<Word>
    var prefix1: seq<Word>
    var kParam: nat

    constructor (curve: EdCurve<P>, privateKey: seq<Word>)
      ensures this.curve == curve && this.privateKey == privateKey
    {
      this.curve, this.privateKey := curve, privateKey;
      publicKey, prefix0, prefix1, kParam := [], [], [], 0;
    }

    /** The context has a key pair. */
    ghost predicate HasKeys()
      reads this
    {
      Lawful(curve) && IsPublic(curve, Value(prefix0), publicKey)
    }

    /** tegra_se_eddsa_gen_pub_key */
    method GenPubKey()
      requires Lawful(curve)
      modifies this`publicKey, this`prefix0, this`prefix1
      ensures HasKeys()
      ensures prefix0 == Pruned(curve.hash(privateKey)[..NWORDS])
      ensures prefix1 == curve.hash(privateKey)[NWORDS..]
    {
      var secretHash := curve.hash(privateKey);
      prefix1 := secretHash[NWORDS..];
      prefix0 := Pruned(secretHash[..NWORDS]);
      publicKey := Publish(Value(prefix0));
    }

    method EncodePoint(p: P) returns (words: seq<Word>)
      requires Recoverable(curve, p)
      ensures words == Encoded(curve.xs(p), curve.ys(p))
    {
      var r := new Word[NWORDS];
      PointEncode(curve.xs(p), curve.ys(p), r);
      words := r[..];
    }

    /** A digest modulo the order of the group. */
    method Digest(message: seq<Word>) returns (scalar: nat)
      requires Lawful(curve)
      ensures scalar == DigestOf(curve, message)
    {
      var h := curve.hash(message);
      scalar := DoubleReduce(Value(h[..NWORDS]), Value(h[NWORDS..]), curve.group.n);
    }

    /** tegra_se_eddsa_sign, for a message of whole words. */
    method Sign(message: seq<Word>) returns (rWords: seq<Word>, s: nat)
      requires HasKeys()
      modifies this`kParam
      ensures HasKeys()
      ensures IsSignature(curve, Value(prefix0), prefix1, publicKey, message, rWords, s)
      ensures kParam == DigestOf(curve, rWords + publicKey + message)
    {
      var k;
      rWords, k, s := Scalars(message);
      kParam := k;
    }

    /** The encoded nonce point and the two scalars. */
    method Scalars(message: seq<Word>) returns (rWords: seq<Word>, k: nat, s: nat)
      requires HasKeys()
      ensures IsSignature(curve, Value(prefix0), prefix1, publicKey, message, rWords, s)
      ensures k == DigestOf(curve, rWords + publicKey + message)
    {
      var r := Digest(prefix1 + message);
      rWords := Publish(r);
      k := Digest(rWords + publicKey + message);
      s := ScalarS(k, Value(prefix0), r, curve.group.n);
      SignedWith(curve, Value(prefix0), prefix1, publicKey, message, rWords, r, k, s);
    }

    /** The encoded multiple of the base point. */
    method Publish(r: nat) returns (words: seq<Word>)
      requires Lawful(curve)
      ensures IsPublic(curve, r, words)
    {
      var pk := curve.group.mul(r, curve.group.g);
      words := EncodePoint(pk);
    }

    /** tegra_se_eddsa_recover_x on a decoded point. */
    method Recover(words: seq<Word>) returns (p: Option<P>)
      requires |words| == NWORDS
      ensures p == RecoverPoint(curve, words)
    {
      var y := new Word[NWORDS];
      var parity := PointDecode(words, y);
      var x := curve.recover(parity, y[..]);
      p := if x.None? then None else Some(curve.at(x.value, y[..]));
    }

    /** tegra_se_eddsa_verify. It uses the scalar k that the last signature left in the
        context, and compares the first NWORDS bytes of each coordinate. */
    method Verify(rWords: seq<Word>, s: nat) returns (ok: bool)
      requires 0 < curve.group.n <= BASE && |publicKey| == NWORDS && |rWords| == NWORDS
      ensures ok <==> Accepts(curve, publicKey, kParam, rWords, s)
      ensures Lawful(curve) ==> forall h0: nat, r: nat ::
        IsPublic(curve, h0, publicKey) && IsPublic(curve, r, rWords) ==> (ok <==> AlikeFor(curve, h0, r, kParam, s))
    {
      ok := Check(rWords, s);
      if Lawful(curve) {
        forall h0: nat, r: nat | IsPublic(curve, h0, publicKey) && IsPublic(curve, r, rWords)
          ensures ok <==> AlikeFor(curve, h0, r, kParam, s)
        {
          AcceptsAlike(curve, h0, r, publicKey, kParam, rWords, s);
        }
      }
    }

    method Check(rWords: seq<Word>, s: nat) returns (ok: bool)
      requires 0 < curve.group.n <= BASE && |publicKey| == NWORDS && |rWords| == NWORDS
      ensures ok <==> Accepts(curve, publicKey, kParam, rWords, s)
    {
      var n := curve.group.n;
      var pk := Recover(publicKey);
      if pk.None? {
        return false;
      }
      var rk := Recover(rWords);
      if rk.None? {
        return false;
      }
      var s8 := ModMult(s, curve.vec, n);
      var lhs := curve.group.mul(s8, curve.group.g);
      var k8 := ModMult(kParam, curve.vec, n);
      var rhs := curve.group.add(curve.group.mul(curve.vec, rk.value), curve.group.mul(k8, pk.value));
      if !SameBytes(curve.xs(lhs), curve.xs(rhs)) {
        return false;
      }
      ok := SameBytes(curve.ys(lhs), curve.ys(rhs));
    }
  }

  function RecoverPoint<P>(c: EdCurve<P>, words: seq<Word>): Option<P>
    requires words != []
  {
    var x := c.recover(Parity(words), DecodedY(words));
    if x.None? then None else Some(c.at(x.value, DecodedY(words)))
  }

  function DigestOf<P>(c: EdCurve<P>, message: seq<Word>): nat
    requires c.group.n > 0 && |c.hash(message)| == SHA512_WORDS
  {
    var h := c.hash(message);
    DoubleReduce(Value(h[..NWORDS]), Value(h[NWORDS..]), c.group.n)
  }

  /** memcmp over NWORDS bytes, a quarter of the words. */
  predicate SameBytes(a: seq<Word>, b: seq<Word>) {
    |a| >= NWORDS / 4 && |b| >= NWORDS / 4 && a[..NWORDS / 4] == b[..NWORDS / 4]
  }

  /** The words encode the public point of a secret scalar. */
  ghost predicate IsPublic<P>(c: EdCurve<P>, h0: nat, words: seq<Word>)
    requires Lawful(c)
  {
    var p := c.group.mul(h0, c.group.g);
    Recoverable(c, p) && words == Encoded(c.xs(p), c.ys(p))
  }

  /** The signature equations of section 5.1.6 of RFC 8032. */
  ghost predicate IsSignature<P>(c: EdCurve<P>, h0: nat, prefix: seq<Word>, publicKey: seq<Word>,
                                 message: seq<Word>, rWords: seq<Word>, s: nat)
    requires Lawful(c)
  {
    var r := DigestOf(c, prefix + message);
    && IsPublic(c, r, rWords)
    && s == Rem(Mul(DigestOf(c, rWords + publicKey + message), h0) + r, c.group.n)
  }

  lemma SignedWith<P>(c: EdCurve<P>, h0: nat, prefix: seq<Word>, publicKey: seq<Word>, message: seq<Word>,
                      rWords: seq<Word>, r: nat, k: nat, s: nat)
    requires Lawful(c) && IsPublic(c, r, rWords) && s == Rem(Mul(k, h0) + r, c.group.n)
    requires r == DigestOf(c, prefix + message) && k == DigestOf(c, rWords + publicKey + message)
    ensures IsSignature(c, h0, prefix, publicKey, message, rWords, s)
  {
  }

  /** The two points verifying compares: eight s on the base point, and eight R plus eight k
      on the public point. */
  function Lhs<P>(c: EdCurve<P>, s: nat): P
    requires c.group.n > 0
  {
    c.group.mul(Rem(Mul(s, c.vec), c.group.n), c.group.g)
  }

  function Rhs<P>(c: EdCurve<P>, r: P, k: nat, a: P): P
    requires c.group.n > 0
  {
    c.group.add(c.group.mul(c.vec, r), c.group.mul(Rem(Mul(k, c.vec), c.group.n), a))
  }

  predicate Accepts<P>(c: EdCurve<P>, publicKey: seq<Word>, k: nat, rWords: seq<Word>, s: nat)
    requires c.group.n > 0 && publicKey != [] && rWords != []
  {
    var a, r := RecoverPoint(c, publicKey), RecoverPoint(c, rWords);
    a.Some? && r.Some? && Alike(c, Lhs(c, s), Rhs(c, r.value, k, a.value))
  }

  /** Points that the comparison does not tell apart: the first two words of both coordinates
      are the same. */
  predicate Alike<P>(c: EdCurve<P>, p: P, q: P) {
    SameBytes(c.xs(p), c.xs(q)) && SameBytes(c.ys(p), c.ys(q))
  }

  lemma RecoverEncoded<P>(c: EdCurve<P>, p: P)
    requires Recoverable(c, p)
    ensures RecoverPoint(c, Encoded(c.xs(p), c.ys(p))) == Some(p)
  {
    DecodeEncode(c.xs(p), c.ys(p));
  }

  /** Both points are multiples of the base point. */
  lemma ComparedPoints<P>(c: EdCurve<P>, h0: nat, r: nat, k: nat, s: nat)
    requires Lawful(c)
    ensures var g := c.group.g;
      && Lhs(c, s) == c.group.mul(Mul(s, c.vec), g)
      && Rhs(c, c.group.mul(r, g), k, c.group.mul(h0, g)) == c.group.mul(Mul(Mul(k, h0) + r, c.vec), g)
  {
    var g, n := c.group.g, c.group.n;
    var k8, m := Rem(Mul(k, c.vec), n), Mul(Mul(k, h0) + r, c.vec);
    assert c.group.mul(Rem(Mul(s, c.vec), n), g) == c.group.mul(Mul(s, c.vec), g);
    assert c.group.mul(c.vec, c.group.mul(r, g)) == c.group.mul(Mul(c.vec, r), g);
    FactorOut(c.vec, r, k, h0, n);
    SumOfMultiples(c.group, Mul(c.vec, r), k8, h0, m);
  }

  lemma FactorOut(v: nat, r: nat, k: nat, h0: nat, n: nat)
    requires n > 0
    ensures Rem(Mul(v, r) + Mul(Rem(Mul(k, v), n), h0), n) == Rem(Mul(Mul(k, h0) + r, v), n)
  {
    RemMul(Mul(k, v), h0, n);
    SumSame(Mul(v, r), Mul(Rem(Mul(k, v), n), h0), Mul(Mul(k, v), h0), n);
    FactorIn(v, r, k, h0);
  }

  lemma FactorIn(v: nat, r: nat, k: nat, h0: nat)
    ensures Mul(v, r) + Mul(Mul(k, v), h0) == Mul(Mul(k, h0) + r, v)
  {
    MulAssociates(k, v, h0);
    MulCommutes(v, h0);
    MulAssociates(k, h0, v);
    MulCommutes(v, r);
    MulAdd(Mul(k, h0), r, v);
  }

  lemma SumSame(a: nat, b: nat, b': nat, n: nat)
    requires n > 0 && Rem(b, n) == Rem(b', n)
    ensures Rem(a + b, n) == Rem(a + b', n)
  {
    RemAdd(b, a, n);
    RemAdd(b', a, n);
  }

  /** Whichever scalars the public key and R belong to, the check passes exactly if the point
      of 8 s and that of 8 (k h0 + r) are alike. */
  lemma AcceptsAlike<P>(c: EdCurve<P>, h0: nat, r: nat, publicKey: seq<Word>, k: nat, rWords: seq<Word>, s: nat)
    requires Lawful(c) && IsPublic(c, h0, publicKey) && IsPublic(c, r, rWords)
    ensures Accepts(c, publicKey, k, rWords, s) <==> AlikeFor(c, h0, r, k, s)
  {
    RecoverEncoded(c, c.group.mul(h0, c.group.g));
    RecoverEncoded(c, c.group.mul(r, c.group.g));
    ComparedPoints(c, h0, r, k, s);
  }

  predicate AlikeFor<P>(c: EdCurve<P>, h0: nat, r: nat, k: nat, s: nat) {
    var g := c.group.g;
    Alike(c, c.group.mul(Mul(s, c.vec), g), c.group.mul(Mul(Mul(k, h0) + r, c.vec), g))
  }

  /** Verify accepts what Sign made, on the same context: for every key and message. */
  lemma VerifyAcceptsSign<P>(c: EdCurve<P>, h0: nat, prefix: seq<Word>, publicKey: seq<Word>,
                             message: seq<Word>, rWords: seq<Word>, s: nat)
    requires Lawful(c) && IsPublic(c, h0, publicKey)
    requires IsSignature(c, h0, prefix, publicKey, message, rWords, s)
    ensures Accepts(c, publicKey, DigestOf(c, rWords + publicKey + message), rWords, s)
  {
    var g := c.group.g;
    var r, k := DigestOf(c, prefix + message), DigestOf(c, rWords + publicKey + message);
    RecoverEncoded(c, c.group.mul(h0, g));
    RecoverEncoded(c, c.group.mul(r, g));
    SignedPointsEqual(c, h0, r, k, Mul(k, h0) + r, s);
    assert Recoverable(c, c.group.mul(Rem(Mul(s, c.vec), c.group.n), g));
  }

  lemma SignedPointsEqual<P>(c: EdCurve<P>, h0: nat, r: nat, k: nat, m: nat, s: nat)
    requires Lawful(c) && m == Mul(k, h0) + r && s == Rem(m, c.group.n)
    ensures Lhs(c, s) == Rhs(c, c.group.mul(r, c.group.g), k, c.group.mul(h0, c.group.g))
  {
    SignedLhs(c, m, s);
    ComparedTo(c, h0, r, k, m);
  }

  lemma ComparedTo<P>(c: EdCurve<P>, h0: nat, r: nat, k: nat, m: nat)
    requires Lawful(c) && m == Mul(k, h0) + r
    ensures Rhs(c, c.group.mul(r, c.group.g), k, c.group.mul(h0, c.group.g)) == c.group.mul(Mul(m, c.vec), c.group.g)
  {
    ComparedPoints(c, h0, r, k, 0);
  }

  lemma SignedLhs<P>(c: EdCurve<P>, m: nat, s: nat)
    requires Cyclic(c.group) && s == Rem(m, c.group.n)
    ensures Lhs(c, s) == c.group.mul(Mul(m, c.vec), c.group.g)
  {
    RemMul(m, c.vec, c.group.n);
    assert c.group.mul(Rem(Mul(m, c.vec), c.group.n), c.group.g) == c.group.mul(Mul(m, c.vec), c.group.g);
  }

  /** Different scalars of the group give different points, and the factor has an inverse. */
  ghost predicate Faithful<P>(c: EdCurve<P>, inverse: nat)
    requires c.group.n > 1
  {
    Rem(Mul(c.vec, inverse), c.group.n) == 1 && forall a: nat, b: nat :: Distinguished(c, a, b)
  }

  ghost predicate Distinguished<P>(c: EdCurve<P>, a: nat, b: nat)
    requires c.group.n > 1
  {
    c.group.mul(a, c.group.g) == c.group.mul(b, c.group.g) ==> Rem(a, c.group.n) == Rem(b, c.group.n)
  }

  /** Whatever k is in the context, the compared points are equal exactly when s is k times
      the secret plus the nonce; so a signature made with another k does not stand the
      comparison, however the message reads. */
  lemma PointsEqual<P>(c: EdCurve<P>, h0: nat, r: nat, k: nat, s: nat, inverse: nat)
    requires Lawful(c) && Faithful(c, inverse)
    ensures Lhs(c, s) == Rhs(c, c.group.mul(r, c.group.g), k, c.group.mul(h0, c.group.g))
      <==> Rem(s, c.group.n) == Rem(Mul(k, h0) + r, c.group.n)
  {
    var n, m := c.group.n, Mul(k, h0) + r;
    ComparedPoints(c, h0, r, k, s);
    SameScalars(c, inverse, Mul(s, c.vec), Mul(m, c.vec));
    FactorCancels(s, m, c.vec, inverse, n);
  }

  lemma SameScalars<P>(c: EdCurve<P>, inverse: nat, a: nat, b: nat)
    requires Lawful(c) && Faithful(c, inverse)
    ensures c.group.mul(a, c.group.g) == c.group.mul(b, c.group.g) <==> Rem(a, c.group.n) == Rem(b, c.group.n)
  {
    assert Distinguished(c, a, b);
    if Rem(a, c.group.n) == Rem(b, c.group.n) { SameMultiple(c.group, a, b); }
  }

  lemma FactorCancels(a: nat, b: nat, v: nat, inverse: nat, n: nat)
    requires n > 1 && Rem(Mul(v, inverse), n) == 1
    ensures Rem(Mul(a, v), n) == Rem(Mul(b, v), n) <==> Rem(a, n) == Rem(b, n)
  {
    RemMul(a, v, n);
    RemMul(b, v, n);
    FactorUndone(a, v, inverse, n);
    FactorUndone(b, v, inverse, n);
  }

  lemma FactorUndone(a: nat, v: nat, inverse: nat, n: nat)
    requires n > 1 && Rem(Mul(v, inverse), n) == 1
    ensures Rem(Mul(Rem(Mul(a, v), n), inverse), n) == Rem(a, n)
  {
    RemMul(Mul(a, v), inverse, n);
    MulAssociates(a, v, inverse);
    RemMul(Mul(v, inverse), a, n);
    MulCommutes(a, 1);
    MulOne(a);
  }

  // ---------------------------------------------------------------- an instance

  function Itself(a: nat): nat { a }

  function Words(low: Word): seq<Word> { [low, 0, 0, 0, 0, 0, 0, 0] }

  /** Such a curve exists: the residues again, with the residue itself as y-coordinate. */
  function ResidueEdCurve(n: nat): EdCurve<nat>
    requires 1 < n < 0x8000_0000
  {
    EdCurve(ResidueCurve(n, Itself), p => Words(0), p => Words(p % 0x8000_0000),
            (x, y) => if y == [] then 0 else y[0], (parity, y) => Some(Words(0)),
            m => Words(0) + Words(0), 8)
  }

  lemma ResiduesAreLawful(n: nat)
    requires 1 < n < 0x8000_0000
    ensures Lawful(ResidueEdCurve(n))
  {
    var c := ResidueEdCurve(n);
    ResiduesAreCyclic(n, Itself);
    forall a: nat ensures Recoverable(c, c.group.mul(a, c.group.g)) {
      ResidueRecoverable(n, a);
    }
  }

  lemma ResidueRecoverable(n: nat, a: nat)
    requires 1 < n < 0x8000_0000
    ensures var c := ResidueEdCurve(n); Recoverable(c, c.group.mul(a, c.group.g))
  {
    ResidueMultiple(n, Itself, a);
    OwnPoint(n, Rem(a, n));
  }

  lemma OwnPoint(n: nat, p: nat)
    requires 1 < n < 0x8000_0000 && p < n
    ensures Recoverable(ResidueEdCurve(n), p)
  {
  }
}
