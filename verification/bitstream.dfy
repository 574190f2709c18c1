/**
 * Bit strings read most-significant bit first, and the unsigned arithmetic
 * that the base32 accumulator loops rely on.
 */
module BitStream {

  /** An octet, as JavaScript's `Uint8Array` elements and `DataView.getUint8` give it. */
  type Byte = x: nat | x < 256

  function Pow2(n: nat): (r: nat)
    ensures r >= 1
  {
    if n == 0 then 1 else 2 * Pow2(n - 1)
  }

  lemma {:induction false} Pow2Add(a: nat, b: nat)
    ensures Pow2(a + b) == Pow2(a) * Pow2(b)
    decreases a
  {
    if a > 0 {
      Pow2Add(a - 1, b);
    }
  }

  lemma Pow2Constants()
    ensures Pow2(5) == 32 && Pow2(8) == 256 && Pow2(32) == 0x1_0000_0000
  {
    assert Pow2(8) == 256;
    Pow2Add(8, 8);
    Pow2Add(16, 16);
  }

  /** The `w` low bits of `v`, most significant first. */
  function BitsOf(v: nat, w: nat): (bs: seq<bool>)
    ensures |bs| == w
  {
    if w == 0 then [] else BitsOf(v / 2, w - 1) + [v % 2 == 1]
  }

  /** The unsigned value of a bit string read most significant bit first. */
  function ValueOf(bs: seq<bool>): (v: nat)
    ensures v < Pow2(|bs|)
  {
    if bs == [] then 0 else 2 * ValueOf(bs[..|bs| - 1]) + (if bs[|bs| - 1] then 1 else 0)
  }

  function Zeros(n: nat): (bs: seq<bool>)
    ensures |bs| == n
    ensures forall k :: 0 <= k < n ==> !bs[k]
  {
    seq(n, _ => false)
  }

  /** Writing a value in `w` bits and reading it back gives the value. */
  lemma {:induction false} ValueOfBitsOf(v: nat, w: nat)
    requires v < Pow2(w)
    ensures ValueOf(BitsOf(v, w)) == v
    decreases w
  {
    if w > 0 {
      var bs := BitsOf(v, w);
      assert bs[..w - 1] == BitsOf(v / 2, w - 1);
      ValueOfBitsOf(v / 2, w - 1);
    }
  }

  /** Reading a bit string and writing its value back in as many bits gives the bit string. */
  lemma {:induction false} BitsOfValueOf(bs: seq<bool>)
    ensures BitsOf(ValueOf(bs), |bs|) == bs
    decreases |bs|
  {
    if bs != [] {
      var init := bs[..|bs| - 1];
      BitsOfValueOf(init);
      var v := ValueOf(bs);
      assert v / 2 == ValueOf(init);
      assert bs == init + [bs[|bs| - 1]];
    }
  }

  /** The value of a concatenation: the first part shifted left past the second. */
  lemma {:induction false} ValueOfAppend(p: seq<bool>, q: seq<bool>)
    ensures ValueOf(p + q) == ValueOf(p) * Pow2(|q|) + ValueOf(q)
    decreases |q|
  {
    if q == [] {
      assert p + q == p;
    } else {
      var q' := q[..|q| - 1];
      assert (p + q)[..|p + q| - 1] == p + q';
      ValueOfAppend(p, q');
      MulRegroup(ValueOf(p), 2, Pow2(|q'|));
      assert ValueOf(p + q) == 2 * ValueOf(p + q') + (if q[|q| - 1] then 1 else 0);
    }
  }

  lemma {:induction false} ValueOfZeros(n: nat)
    ensures ValueOf(Zeros(n)) == 0
    decreases n
  {
    if n > 0 {
      assert Zeros(n)[..n - 1] == Zeros(n - 1);
      ValueOfZeros(n - 1);
    }
  }

  /** The bit stream of a sequence of `w`-bit values, each written most significant bit first. */
  function Unpack(xs: seq<nat>, w: nat): (bs: seq<bool>)
    ensures |bs| == w * |xs|
  {
    if xs == [] then [] else BitsOf(xs[0], w) + Unpack(xs[1..], w)
  }

  /** The `w`-bit groups of a bit stream, in order; a trailing group shorter than `w` is dropped. */
  function Pack(bs: seq<bool>, w: nat): (xs: seq<nat>)
    requires w > 0
    ensures |xs| == |bs| / w
    decreases |bs|
  {
    if |bs| < w then
      assert |bs| / w == 0 by { DivModUnique(|bs|, w, 0, |bs|); }
      []
    else
      DivSub(|bs|, w);
      [ValueOf(bs[..w])] + Pack(bs[w..], w)
  }

  lemma {:induction false} UnpackAppend(xs: seq<nat>, ys: seq<nat>, w: nat)
    ensures Unpack(xs + ys, w) == Unpack(xs, w) + Unpack(ys, w)
    decreases |xs|
  {
    if xs == [] {
      assert xs + ys == ys;
    } else {
      assert (xs + ys)[1..] == xs[1..] + ys;
      UnpackAppend(xs[1..], ys, w);
    }
  }

  /** Packing distributes over a split that falls on a group boundary. */
  lemma {:induction false} PackAppend(a: seq<bool>, b: seq<bool>, w: nat, n: nat)
    requires w > 0 && |a| == n * w
    ensures Pack(a + b, w) == Pack(a, w) + Pack(b, w)
    decreases n
  {
    if n == 0 {
      assert a + b == b;
    } else {
      MulPred(n, w);
      assert (a + b)[..w] == a[..w];
      assert (a + b)[w..] == a[w..] + b;
      PackAppend(a[w..], b, w, n - 1);
    }
  }

  /** A single full group packs to its value. */
  lemma PackGroup(g: seq<bool>, w: nat)
    requires w > 0 && |g| == w
    ensures Pack(g, w) == [ValueOf(g)]
  {
    assert g[..w] == g;
    assert Pack(g[w..], w) == [];
  }

  /** Every packed value fits in `w` bits. */
  lemma {:induction false} PackBound(bs: seq<bool>, w: nat)
    requires w > 0
    ensures forall k :: 0 <= k < |Pack(bs, w)| ==> Pack(bs, w)[k] < Pow2(w)
    decreases |bs|
  {
    if |bs| >= w {
      PackBound(bs[w..], w);
      assert Pack(bs, w) == [ValueOf(bs[..w])] + Pack(bs[w..], w);
    }
  }

  /** Unpacking values that fit in `w` bits and packing again gives the values back. */
  lemma {:induction false} PackUnpack(xs: seq<nat>, w: nat)
    requires w > 0
    requires forall k :: 0 <= k < |xs| ==> xs[k] < Pow2(w)
    ensures Pack(Unpack(xs, w), w) == xs
    decreases |xs|
  {
    if xs != [] {
      var bs := Unpack(xs, w);
      assert bs[..w] == BitsOf(xs[0], w);
      assert bs[w..] == Unpack(xs[1..], w);
      ValueOfBitsOf(xs[0], w);
      PackUnpack(xs[1..], w);
      assert xs == [xs[0]] + xs[1..];
    }
  }

  /** Packing a stream of whole groups and unpacking again gives the stream back. */
  lemma {:induction false} UnpackPack(bs: seq<bool>, w: nat, n: nat)
    requires w > 0 && |bs| == n * w
    ensures Unpack(Pack(bs, w), w) == bs
    decreases n
  {
    if n > 0 {
      MulPred(n, w);
      var xs := Pack(bs, w);
      assert xs[0] == ValueOf(bs[..w]);
      assert xs[1..] == Pack(bs[w..], w);
      BitsOfValueOf(bs[..w]);
      UnpackPack(bs[w..], w, n - 1);
      assert bs == bs[..w] + bs[w..];
    }
  }

  lemma MulNonneg(a: int, b: int)
    requires a >= 0 && b >= 0
    ensures a * b >= 0
  {
  }

  lemma Distrib(a: int, b: int, c: int)
    ensures (a + b) * c == a * c + b * c
  {
  }

  lemma MulRegroup(a: int, b: int, c: int)
    ensures a * (b * c) == (a * c) * b
  {
  }

  lemma MulPred(n: nat, w: nat)
    requires n > 0
    ensures n * w == (n - 1) * w + w && (n - 1) * w >= 0
  {
    Distrib(n - 1, 1, w);
    MulNonneg(n - 1, w);
  }

  lemma MulStep(a: int, b: int, m: int)
    requires a < b && m > 0
    ensures a * m + m <= b * m
  {
    Distrib(b - a - 1, a + 1, m);
    MulNonneg(b - a - 1, m);
    Distrib(a, 1, m);
  }

  /** Euclidean division is determined by any quotient/remainder pair. */
  lemma DivModUnique(x: int, m: int, q: int, r: int)
    requires m > 0 && x == q * m + r && 0 <= r < m
    ensures x / m == q && x % m == r
  {
    var q', r' := x / m, x % m;
    assert x == q' * m + r';
    if q' < q {
      MulStep(q', q, m);
    } else if q < q' {
      MulStep(q, q', m);
    }
  }

  /** Removing one group of `w` from `n` removes one from the quotient by `w`. */
  lemma DivSub(n: nat, w: nat)
    requires 0 < w <= n
    ensures n / w == (n - w) / w + 1
  {
    var q, r := (n - w) / w, (n - w) % w;
    assert n - w == q * w + r;
    Distrib(q, 1, w);
    DivModUnique(n, w, q + 1, r);
  }

  lemma DivMod(x: int, m: int)
    requires m > 0
    ensures x == (x / m) * m + x % m && 0 <= x % m < m
  {
  }

  /** Reducing modulo `P * Q` and then modulo `P` is reducing modulo `P`. */
  lemma ModMulMod(x: int, P: int, Q: int)
    requires P > 0 && Q > 0
    ensures P * Q > 0
    ensures (x % (P * Q)) % P == x % P
  {
    MulNonneg(P, Q - 1);
    Distrib(Q - 1, 1, P);
    var a, b := x / (P * Q), x % (P * Q);
    DivMod(x, P * Q);
    var c, d := b / P, b % P;
    DivMod(b, P);
    MulRegroup(a, P, Q);
    Distrib(a * Q, c, P);
    DivModUnique(x, P, a * Q + c, d);
  }

  /** Multiplying by `W` and adding a digit below `W` appends that digit to the residue modulo `N`. */
  lemma MulAddMod(acc: int, N: int, W: int, v: int, d: int)
    requires N > 0 && W > 0 && 0 <= d < W
    requires acc % N == v
    ensures N * W > 0
    ensures (acc * W + d) % (N * W) == v * W + d
  {
    MulNonneg(N, W - 1);
    Distrib(W - 1, 1, N);
    var q := acc / N;
    DivMod(acc, N);
    MulStep(v, N, W);
    Distrib(q * N, v, W);
    MulRegroup(q, N, W);
    assert acc * W + d == q * (N * W) + (v * W + d);
    DivModUnique(acc * W + d, N * W, q, v * W + d);
  }

  /** A residue modulo `O * S` of the form `hi * S + lo` splits back into `hi` and `lo`. */
  lemma DivModSplit(acc: int, O: int, S: int, hi: int, lo: int)
    requires O > 0 && S > 0 && 0 <= hi < O && 0 <= lo < S
    requires O * S > 0 && acc % (O * S) == hi * S + lo
    ensures (acc / S) % O == hi
    ensures acc % S == lo
  {
    var q := acc / (O * S);
    DivMod(acc, O * S);
    MulRegroup(q, S, O);
    Distrib(q * O, hi, S);
    assert acc == (q * O + hi) * S + lo;
    DivModUnique(acc, S, q * O + hi, lo);
    DivModUnique(q * O + hi, O, q, hi);
  }

  /** 2^32, the modulus of JavaScript's 32-bit shift and bitwise operators. */
  const Word: nat := 0x1_0000_0000

  /** `Word` is a multiple of 2^k for every k <= 32. */
  lemma WordSplit(k: nat)
    requires k <= 32
    ensures Word == Pow2(k) * Pow2(32 - k)
  {
    Pow2Constants();
    Pow2Add(k, 32 - k);
  }

  /**
   * Shifting a `w`-bit digit `d` into an accumulator whose low `n` bits hold `v`
   * leaves `v`'s bits followed by `d`'s in the low `n + w` bits, even after a
   * 32-bit wrap-around when `n + w <= 32`.
   */
  lemma ShiftIn(acc: nat, n: nat, v: nat, d: nat, w: nat)
    requires n + w <= 32
    requires acc % Pow2(n) == v && d < Pow2(w)
    ensures ((acc * Pow2(w) + d) % Word) % Pow2(n + w) == v * Pow2(w) + d
  {
    var N, W, NW := Pow2(n), Pow2(w), Pow2(n + w);
    var x := acc * W + d;
    WordSplit(n + w);
    ModMulMod(x, NW, Pow2(32 - (n + w)));
    assert (x % Word) % NW == x % NW;
    Pow2Add(n, w);
    MulAddMod(acc, N, W, v, d);
  }

  /**
   * When the low `|p|` bits of `acc` hold `p`, the `o` bits just below them
   * are `p`'s first `o` bits, and what remains below those are the rest of `p`.
   */
  lemma ShiftOut(acc: nat, p: seq<bool>, o: nat)
    requires o <= |p| && acc % Pow2(|p|) == ValueOf(p)
    ensures (acc / Pow2(|p| - o)) % Pow2(o) == ValueOf(p[..o])
    ensures acc % Pow2(|p| - o) == ValueOf(p[o..])
  {
    var s := |p| - o;
    assert p == p[..o] + p[o..];
    ValueOfAppend(p[..o], p[o..]);
    Pow2Add(o, s);
    DivModSplit(acc, Pow2(o), Pow2(s), ValueOf(p[..o]), ValueOf(p[o..]));
  }

  /**
   * Left-shifting the pending bits `p` of `acc` to fill a `w`-bit field (with
   * 32-bit wrap-around) gives `p` followed by zeros.
   */
  lemma ShiftFill(acc: nat, p: seq<bool>, w: nat)
    requires |p| <= w <= 32 && acc % Pow2(|p|) == ValueOf(p)
    ensures ((acc * Pow2(w - |p|)) % Word) % Pow2(w) == ValueOf(p + Zeros(w - |p|))
  {
    var z := w - |p|;
    ValueOfAppend(p, Zeros(z));
    ValueOfZeros(z);
    ShiftIn(acc, |p|, ValueOf(p), 0, z);
  }

  /** `x >>> n` on an unsigned 32-bit value: `n` halvings. */
  function Shr(x: nat, n: nat): (y: nat)
  {
    if n == 0 then x else Shr(x / 2, n - 1)
  }

  /** `x << n` before the 32-bit truncation: `n` doublings. */
  function Shl(x: nat, n: nat): (y: nat)
    decreases n
  {
    if n == 0 then x else Shl(2 * x, n - 1)
  }

  lemma HalveMod(x: nat, P: nat)
    requires P > 0
    ensures 2 * P > 0
    ensures 2 * ((x / 2) % P) + x % 2 == x % (2 * P)
  {
    var q, r := (x / 2) / P, (x / 2) % P;
    DivMod(x / 2, P);
    DivMod(x, 2);
    MulRegroup(q, P, 2);
    assert x == q * (2 * P) + (2 * r + x % 2);
    DivModUnique(x, 2 * P, q, 2 * r + x % 2);
  }

  lemma HalveDiv(x: nat, P: nat)
    requires P > 0
    ensures 2 * P > 0
    ensures (x / 2) / P == x / (2 * P)
  {
    var q, r := (x / 2) / P, (x / 2) % P;
    DivMod(x / 2, P);
    DivMod(x, 2);
    MulRegroup(q, P, 2);
    assert x == q * (2 * P) + (2 * r + x % 2);
    DivModUnique(x, 2 * P, q, 2 * r + x % 2);
  }

  lemma {:induction false} ShrDiv(x: nat, n: nat)
    ensures Shr(x, n) == x / Pow2(n)
    decreases n
  {
    if n > 0 {
      ShrDiv(x / 2, n - 1);
      HalveDiv(x, Pow2(n - 1));
    }
  }

  lemma {:induction false} ShlMul(x: nat, n: nat)
    ensures Shl(x, n) == x * Pow2(n)
    decreases n
  {
    if n > 0 {
      ShlMul(2 * x, n - 1);
      MulRegroup(x, 2, Pow2(n - 1));
    }
  }

  /** The low `n` bits of `x`, read back, are `x` modulo 2^n. */
  lemma {:induction false} ValueOfBitsOfMod(x: nat, n: nat)
    ensures ValueOf(BitsOf(x, n)) == x % Pow2(n)
    decreases n
  {
    if n > 0 {
      var bs := BitsOf(x, n);
      assert bs[..n - 1] == BitsOf(x / 2, n - 1);
      ValueOfBitsOfMod(x / 2, n - 1);
      HalveMod(x, Pow2(n - 1));
    }
  }

  /** `p` is the low `|p|` bits of `x` exactly when `x` modulo 2^|p| is `p`'s value. */
  lemma LowBits(x: nat, p: seq<bool>)
    ensures BitsOf(x, |p|) == p <==> x % Pow2(|p|) == ValueOf(p)
  {
    ValueOfBitsOfMod(x, |p|);
    BitsOfValueOf(BitsOf(x, |p|));
    BitsOfValueOf(p);
  }

  /** `x & (2^w - 1)`: the low `w` bits of `x`. */
  function Mask(x: nat, w: nat): (r: nat)
    ensures r < Pow2(w)
  {
    x % Pow2(w)
  }

  /**
   * `(acc << w) | d` in 32 bits, with `d` a `w`-bit digit: when the low bits of
   * `acc` are the pending bits `p`, the low bits of the result are `p`
   * followed by `d`'s bits.
   */
  lemma TakeIn(acc: nat, p: seq<bool>, n: nat, d: nat, w: nat)
    requires |p| == n && n + w <= 32 && BitsOf(acc, n) == p && d < Pow2(w)
    ensures BitsOf((Shl(acc, w) + d) % Word, n + w) == p + BitsOf(d, w)
  {
    var v, b := ValueOf(p), BitsOf(d, w);
    var x := (Shl(acc, w) + d) % Word;
    LowBits(acc, p);
    ShlMul(acc, w);
    assert x == (acc * Pow2(w) + d) % Word;
    ShiftIn(acc, n, v, d, w);
    ValueOfAppend(p, b);
    ValueOfBitsOf(d, w);
    assert |b| == w && ValueOf(b) == d;
    assert x % Pow2(n + w) == ValueOf(p + b);
    LowBits(x, p + b);
    assert |p + b| == n + w;
  }


  /**
   * `(acc >>> (|p| - o)) & (2^o - 1)`: when the low bits of `acc` are `p`, this
   * is the value of `p`'s first `o` bits, and the rest of `p` stays below.
   */
  lemma TakeOut(acc: nat, p: seq<bool>, n: nat, o: nat)
    requires |p| == n && o <= n && BitsOf(acc, n) == p
    ensures Mask(Shr(acc, n - o), o) == ValueOf(p[..o])
    ensures BitsOf(acc, n - o) == p[o..]
  {
    LowBits(acc, p);
    ShiftOut(acc, p, o);
    ShrDiv(acc, |p| - o);
    LowBits(acc, p[o..]);
  }

  /**
   * `(acc << (w - |p|)) & (2^w - 1)` in 32 bits: when the low bits of `acc` are
   * `p`, this is the value of `p` followed by zero bits up to `w` bits.
   */
  lemma FillOut(acc: nat, p: seq<bool>, n: nat, w: nat)
    requires |p| == n && n <= w <= 32 && BitsOf(acc, n) == p
    ensures Mask(Shl(acc, w - n) % Word, w) == ValueOf(p + Zeros(w - n))
  {
    LowBits(acc, p);
    ShiftFill(acc, p, w);
    ShlMul(acc, w - |p|);
  }

  /** The bit stream of a list grows by one value's bits when the list grows by that value. */
  lemma UnpackSnoc(xs: seq<nat>, x: nat, w: nat)
    ensures Unpack(xs + [x], w) == Unpack(xs, w) + BitsOf(x, w)
  {
    UnpackAppend(xs, [x], w);
    assert Unpack([x], w) == BitsOf(x, w) + Unpack([], w);
  }

  /** The bits of one more element of a sequence follow those of the elements before it. */
  lemma UnpackPrefix(xs: seq<nat>, i: nat, w: nat)
    requires i < |xs|
    ensures Unpack(xs[..i + 1], w) == Unpack(xs[..i], w) + BitsOf(xs[i], w)
  {
    assert xs[..i + 1] == xs[..i] + [xs[i]];
    UnpackSnoc(xs[..i], xs[i], w);
  }

  // ---------------------------------------------------------------- values of byte strings

  /** The unsigned big-endian value of a byte string. */
  function BigEndian(xs: seq<Byte>): (v: nat)
  {
    if xs == [] then 0 else BigEndian(xs[..|xs| - 1]) * 256 + xs[|xs| - 1]
  }

  /** The `n` base-2^w digits of `v`, most significant first. */
  function Digits(v: nat, w: nat, n: nat): (ds: seq<nat>)
    ensures |ds| == n
    decreases n
  {
    if n == 0 then [] else Digits(Shr(v, w), w, n - 1) + [Mask(v, w)]
  }

  /** The `a + b` low bits of `v` are the `a` low bits of `v >>> b`, then the `b` low bits of `v`. */
  lemma {:induction false} BitsOfSplit(v: nat, a: nat, b: nat)
    ensures BitsOf(v, a + b) == BitsOf(Shr(v, b), a) + BitsOf(Mask(v, b), b)
    decreases b
  {
    if b > 0 {
      var P := Pow2(b - 1);
      BitsOfSplit(v / 2, a, b - 1);
      HalveMod(v, P);
      var m := Mask(v, b);
      DivModUnique(m, 2, (v / 2) % P, v % 2);
      assert BitsOf(m, b) == BitsOf(Mask(v / 2, b - 1), b - 1) + [v % 2 == 1];
    }
  }

  /** Packing `k` whole groups and then one more group appends that group's value. */
  lemma PackSnocGroup(hi: seq<bool>, lo: seq<bool>, w: nat, k: nat)
    requires w > 0 && |hi| == k * w && |lo| == w
    ensures Pack(hi + lo, w) == Pack(hi, w) + [ValueOf(lo)]
  {
    PackAppend(hi, lo, w, k);
    PackGroup(lo, w);
  }

  /** One step of `PackBitsOf`: the top `n - 1` digits come from `v >>> w`, the last from its low `w` bits. */
  lemma PackDigitsStep(v: nat, w: nat, n: nat, m: nat)
    requires w > 0 && n > 0 && m == (n - 1) * w && n * w == m + w
    requires Pack(BitsOf(Shr(v, w), m), w) == Digits(Shr(v, w), w, n - 1)
    ensures Pack(BitsOf(v, n * w), w) == Digits(v, w, n)
  {
    var hi, lo := BitsOf(Shr(v, w), m), BitsOf(Mask(v, w), w);
    BitsOfSplit(v, m, w);
    PackSnocGroup(hi, lo, w, n - 1);
    ValueOfBitsOf(Mask(v, w), w);
  }

  /** Writing `v` in `n` groups of `w` bits and packing the groups gives its base-2^w digits. */
  lemma {:induction false} PackBitsOf(v: nat, w: nat, n: nat)
    requires w > 0
    ensures Pack(BitsOf(v, n * w), w) == Digits(v, w, n)
    decreases n
  {
    if n > 0 {
      MulPred(n, w);
      var m: nat := (n - 1) * w;
      PackBitsOf(Shr(v, w), w, n - 1);
      PackDigitsStep(v, w, n, m);
    }
  }

  /** Shifting a value left by a byte and adding a byte appends that byte's eight bits. */
  lemma BitsOfByteSnoc(v: nat, x: Byte, m: nat)
    ensures BitsOf(v * 256 + x, m + 8) == BitsOf(v, m) + BitsOf(x, 8)
  {
    var y := v * 256 + x;
    assert Pow2(8) == 256;
    DivModUnique(y, 256, v, x);
    ShrDiv(y, 8);
    assert Shr(y, 8) == v && Mask(y, 8) == x;
    BitsOfSplit(y, m, 8);
  }

  /** The bits of a byte string are the bits of its big-endian value. */
  lemma {:induction false} UnpackBigEndian(xs: seq<Byte>)
    ensures Unpack(xs, 8) == BitsOf(BigEndian(xs), 8 * |xs|)
    decreases |xs|
  {
    if xs != [] {
      var init, last := xs[..|xs| - 1], xs[|xs| - 1];
      assert xs == init + [last];
      UnpackSnoc(init, last, 8);
      UnpackBigEndian(init);
      assert 8 * |xs| == 8 * |init| + 8;
      BitsOfByteSnoc(BigEndian(init), last, 8 * |init|);
    }
  }

  /** Appending `k` zero bits multiplies the value by 2^k. */
  lemma ZerosShift(v: nat, m: nat, k: nat)
    ensures BitsOf(v * Pow2(k), m + k) == BitsOf(v, m) + Zeros(k)
  {
    BitsOfSplit(v * Pow2(k), m, k);
    ShrDiv(v * Pow2(k), k);
    DivModUnique(v * Pow2(k), Pow2(k), v, 0);
    BitsOfZero(k);
  }

  lemma {:induction false} BitsOfZero(k: nat)
    ensures BitsOf(0, k) == Zeros(k)
    decreases k
  {
    if k > 0 {
      BitsOfZero(k - 1);
    }
  }
}
