/**
 * The base32 codec of `src/utils/base32.ts`: four variants (RFC 3548 and
 * RFC 4648 section 6, "base32hex" of RFC 4648 section 7, and Crockford's
 * Base32), an encoder with optional `=` padding and a decoder.
 *
 * Each direction is a pure specification (`EncodeSpec`, `DecodeSpec`) over
 * the bit stream of `BitStream`, and a method (`Encode`, `Decode`) that runs
 * the source's accumulator loop and is proved to compute the specification.
 */
module Base32 {
  import opened Wrappers
  import opened BitStream
  import opened Ordering

  const Rfc4648Alphabet: string := "ABCDEFGHIJKLMNOPQRSTUVWXYZ234567"
  const Rfc4648HexAlphabet: string := "0123456789ABCDEFGHIJKLMNOPQRSTUV"
  const CrockfordAlphabet: string := "0123456789ABCDEFGHJKMNPQRSTVWXYZ"

  /** The variants the source's `switch` recognises; RFC 3548 and RFC 4648 behave alike. */
  datatype Variant = Rfc3548 | Rfc4648 | Rfc4648Hex | Crockford

  datatype Error =
    | UnknownVariant(name: string)   // "Unknown base32 variant: ..."
    | InvalidCharacter(c: char)      // "Invalid character found: ..."

  /** The variant named by a tag, or `None` for a tag the `switch` falls through. */
  function ParseVariant(name: string): (v: Option<Variant>)
    ensures v == None <==> name !in {"RFC3548", "RFC4648", "RFC4648-HEX", "Crockford"}
  {
    if name == "RFC3548" then Some(Rfc3548)
    else if name == "RFC4648" then Some(Rfc4648)
    else if name == "RFC4648-HEX" then Some(Rfc4648Hex)
    else if name == "Crockford" then Some(Crockford)
    else None
  }

  /** No character occurs twice. */
  predicate Distinct(s: string)
  {
    forall i, j :: 0 <= i < j < |s| ==> s[i] != s[j]
  }

  // ---------------------------------------------------------------- alphabets

  /** The letters `A`-`Z` and then the digits `2`-`7`, each run ascending. */
  lemma Rfc4648Ascending()
    ensures Ascending(Rfc4648Alphabet, 0, 26) && Ascending(Rfc4648Alphabet, 26, 32)
    ensures Rfc4648Alphabet[31] < Rfc4648Alphabet[0]
  {
    Rfc4648LettersAscending();
    Rfc4648DigitsAscending();
  }

  lemma Rfc4648LettersAscending()
    ensures Ascending(Rfc4648Alphabet, 0, 26)
  {
  }

  lemma Rfc4648DigitsAscending()
    ensures Ascending(Rfc4648Alphabet, 26, 32) && Rfc4648Alphabet[31] < Rfc4648Alphabet[0]
  {
  }

  lemma Rfc4648HexAscending()
    ensures Ascending(Rfc4648HexAlphabet, 0, 32)
  {
  }

  lemma CrockfordAscending()
    ensures Ascending(CrockfordAlphabet, 0, 32)
  {
  }

  /** In an ascending range, a later position holds a character at least as large. */
  lemma Monotone(s: string, i: nat, n: nat, j: nat, k: nat)
    requires n <= |s| && Ascending(s, i, n) && i <= j <= k < n
    ensures s[j] <= s[k]
  {
    if j < k { AscendingBelow(s, i, j, k, n); }
  }

  /** RFC 4648 symbols are upper-case letters and the digits 2 to 7. */
  lemma Rfc4648Chars(k: nat)
    requires k < 32
    ensures 'A' <= Rfc4648Alphabet[k] <= 'Z' || '2' <= Rfc4648Alphabet[k] <= '7'
  {
    var a := Rfc4648Alphabet;
    Rfc4648Ascending();
    assert a[0] == 'A' && a[25] == 'Z' && a[26] == '2' && a[31] == '7';
    if k < 26 {
      Monotone(a, 0, 26, 0, k);
      Monotone(a, 0, 26, k, 25);
    } else {
      Monotone(a, 26, 32, 26, k);
      Monotone(a, 26, 32, k, 31);
    }
  }

  /** Base32hex symbols are the digits and the letters `A` to `V`. */
  lemma Rfc4648HexChars(k: nat)
    requires k < 32
    ensures '0' <= Rfc4648HexAlphabet[k] <= '9' || 'A' <= Rfc4648HexAlphabet[k] <= 'V'
  {
    var a := Rfc4648HexAlphabet;
    assert a[0] == '0';
    assert a[9] == '9';
    assert a[10] == 'A';
    assert a[31] == 'V';
    Rfc4648HexAscending();
    if k < 10 {
      Monotone(a, 0, 32, 0, k);
      Monotone(a, 0, 32, k, 9);
    } else {
      Monotone(a, 0, 32, 10, k);
      Monotone(a, 0, 32, k, 31);
    }
  }

  /** Crockford symbols are digits and upper-case letters. */
  lemma CrockfordRange(k: nat)
    requires k < 32
    ensures '0' <= CrockfordAlphabet[k] <= '9' || 'A' <= CrockfordAlphabet[k] <= 'Z'
  {
    var a := CrockfordAlphabet;
    assert a[0] == '0';
    assert a[9] == '9';
    assert a[10] == 'A';
    assert a[31] == 'Z';
    CrockfordAscending();
    if k < 10 {
      Monotone(a, 0, 32, 0, k);
      Monotone(a, 0, 32, k, 9);
    } else {
      Monotone(a, 0, 32, 10, k);
      Monotone(a, 0, 32, k, 31);
    }
  }

  /** `c` is not a Crockford symbol when it falls between the symbols at `j` and `j + 1`. */
  lemma CrockfordGap(k: nat, j: nat, c: char)
    requires k < 32 && j + 1 < 32 && CrockfordAlphabet[j] < c < CrockfordAlphabet[j + 1]
    ensures CrockfordAlphabet[k] != c
  {
    CrockfordAscending();
    if k <= j { Monotone(CrockfordAlphabet, 0, 32, k, j); } else { Monotone(CrockfordAlphabet, 0, 32, j + 1, k); }
  }

  /** Crockford leaves out `I`, `L` and `O`. */
  lemma CrockfordOmits(k: nat)
    requires k < 32
    ensures CrockfordAlphabet[k] != 'I' && CrockfordAlphabet[k] != 'L' && CrockfordAlphabet[k] != 'O'
  {
    var a := CrockfordAlphabet;
    assert a[17] == 'H' && a[18] == 'J' && a[19] == 'K' && a[20] == 'M' && a[21] == 'N' && a[22] == 'P';
    CrockfordGap(k, 17, 'I');
    CrockfordGap(k, 19, 'L');
    CrockfordGap(k, 21, 'O');
  }

  /** The RFC 4648 alphabet repeats no symbol and holds only `A` to `Z` and `2` to `7`. */
  lemma Rfc4648Symbols()
    ensures Distinct(Rfc4648Alphabet)
    ensures forall c :: c in Rfc4648Alphabet ==> 'A' <= c <= 'Z' || '2' <= c <= '7'
  {
    var a := Rfc4648Alphabet;
    Rfc4648Ascending();
    forall i, j | 0 <= i < j < 32 ensures a[i] != a[j] {
      if j < 26 {
        AscendingBelow(a, 0, i, j, 26);
      } else if 26 <= i {
        AscendingBelow(a, 26, i, j, 32);
      } else {
        if i > 0 { AscendingBelow(a, 0, 0, i, 26); }
        if j < 31 { AscendingBelow(a, 26, j, 31, 32); }
      }
    }
    forall c | c in a ensures 'A' <= c <= 'Z' || '2' <= c <= '7' {
      var k :| 0 <= k < 32 && a[k] == c;
      Rfc4648Chars(k);
    }
  }

  /** The base32hex alphabet repeats no symbol and holds only the digits and `A` to `V`. */
  lemma Rfc4648HexSymbols()
    ensures Distinct(Rfc4648HexAlphabet)
    ensures forall c :: c in Rfc4648HexAlphabet ==> '0' <= c <= '9' || 'A' <= c <= 'V'
  {
    var a := Rfc4648HexAlphabet;
    Rfc4648HexAscending();
    forall i, j | 0 <= i < j < 32 ensures a[i] != a[j] {
      AscendingBelow(a, 0, i, j, 32);
    }
    forall c | c in a ensures '0' <= c <= '9' || 'A' <= c <= 'V' {
      var k :| 0 <= k < 32 && a[k] == c;
      Rfc4648HexChars(k);
    }
  }

  /** Crockford's alphabet repeats no symbol and holds only digits and upper-case letters other than `I`, `L` and `O`. */
  lemma CrockfordSymbols()
    ensures Distinct(CrockfordAlphabet)
    ensures forall c :: c in CrockfordAlphabet ==> ('0' <= c <= '9' || 'A' <= c <= 'Z') && c != 'I' && c != 'L' && c != 'O'
  {
    var a := CrockfordAlphabet;
    CrockfordAscending();
    forall i, j | 0 <= i < j < 32 ensures a[i] != a[j] {
      AscendingBelow(a, 0, i, j, 32);
    }
    forall c | c in a ensures ('0' <= c <= '9' || 'A' <= c <= 'Z') && c != 'I' && c != 'L' && c != 'O' {
      var k :| 0 <= k < 32 && a[k] == c;
      CrockfordRange(k);
      CrockfordOmits(k);
    }
  }

  /**
   * The symbol table of a variant, as the source's `switch` assigns it: the
   * 5-bit value k is written as the k-th character.
   */
  function Alphabet(v: Variant): (a: string)
    ensures |a| == 32 && Distinct(a)
    ensures v == Rfc3548 || v == Rfc4648 ==> forall c :: c in a ==> 'A' <= c <= 'Z' || '2' <= c <= '7'
    ensures v == Rfc4648Hex ==> forall c :: c in a ==> '0' <= c <= '9' || 'A' <= c <= 'V'
    ensures v == Crockford ==> forall c :: c in a ==> ('0' <= c <= '9' || 'A' <= c <= 'Z') && c != 'I' && c != 'L' && c != 'O'
  {
    match v
    case Rfc3548 | Rfc4648 => Rfc4648Symbols(); Rfc4648Alphabet
    case Rfc4648Hex => Rfc4648HexSymbols(); Rfc4648HexAlphabet
    case Crockford => CrockfordSymbols(); CrockfordAlphabet
  }

  /** Whether `=` padding is added: the caller's explicit choice, else the variant's default. */
  function UsePadding(v: Variant, padding: Option<bool>): (pad: bool)
    ensures padding.Some? ==> pad == padding.value
    ensures padding.None? ==> (pad <==> !v.Crockford?)
  {
    match padding
    case Some(p) => p
    case None => v != Crockford
  }

  // ---------------------------------------------------------------- encoding

  /** Bits per byte and bits per symbol. */
  const ByteWidth: nat := 8
  const SymbolWidth: nat := 5

  lemma Widths()
    ensures Pow2(ByteWidth) == 256 && Pow2(SymbolWidth) == 32
  {
    Pow2Constants();
  }

  /** The bit stream topped up with zero bits to a whole number of 5-bit groups. */
  function FillGroup(bs: seq<bool>): (r: seq<bool>)
    ensures |r| % 5 == 0 && |bs| <= |r| < |bs| + 5
  {
    bs + Zeros((5 - |bs| % 5) % 5)
  }

  /** The 5-bit groups of the input's bit stream, MSB first, the last one zero-filled. */
  function Quintets(data: seq<Byte>): (xs: seq<nat>)
    ensures forall k :: 0 <= k < |xs| ==> xs[k] < 32
  {
    Widths();
    PackBound(FillGroup(Unpack(data, ByteWidth)), SymbolWidth);
    Pack(FillGroup(Unpack(data, ByteWidth)), SymbolWidth)
  }

  /** The alphabet characters that the 5-bit values select. */
  function Symbols(alphabet: string, xs: seq<nat>): (s: string)
    requires forall k :: 0 <= k < |xs| ==> xs[k] < |alphabet|
    ensures |s| == |xs|
  {
    seq(|xs|, k requires 0 <= k < |xs| => alphabet[xs[k]])
  }

  function Repeat(c: char, n: nat): (s: string)
    ensures |s| == n
  {
    seq(n, _ => c)
  }

  /** The number of `=` that bring a length of `n` up to a multiple of 8. */
  function PadCount(n: nat): (k: nat)
  {
    (8 - n % 8) % 8
  }

  function Padded(s: string): (p: string)
  {
    s + Repeat('=', PadCount(|s|))
  }

  /** Adding `k <= PadCount(n)` characters to a length `n` reaches a multiple of 8 only at `k == PadCount(n)`. */
  lemma PadCountLeast(n: nat, k: nat)
    requires k <= PadCount(n)
    ensures (n + k) % 8 == 0 <==> k == PadCount(n)
  {
  }

  /** Taking in byte `i` extends the bits taken so far by that byte's eight bits. */
  lemma TakeByte(data: seq<Byte>, i: nat, done: seq<bool>, pending: seq<bool>)
    requires i < |data| && done + pending == Unpack(data[..i], ByteWidth)
    ensures done + (pending + BitsOf(data[i], ByteWidth)) == Unpack(data[..i + 1], ByteWidth)
  {
    UnpackPrefix(data, i, ByteWidth);
    Regroup(done, pending, BitsOf(data[i], ByteWidth), Unpack(data[..i], ByteWidth));
  }

  /** Once every byte is taken in and the last group is filled, the symbols are the specified ones. */
  lemma EncodedAll(alphabet: string, data: seq<Byte>, done: seq<bool>, output: string)
    requires |alphabet| == 32 && done == FillGroup(Unpack(data[..|data|], ByteWidth))
    requires forall k :: 0 <= k < |Pack(done, SymbolWidth)| ==> Pack(done, SymbolWidth)[k] < 32
    requires output == Symbols(alphabet, Pack(done, SymbolWidth))
    ensures output == Symbols(alphabet, Quintets(data))
  {
    assert data[..|data|] == data;
  }

  lemma RepeatSnoc(u: string, c: char, k: nat)
    ensures (u + Repeat(c, k)) + [c] == u + Repeat(c, k + 1)
  {
  }

  /** Topping up whole groups plus fewer than five pending bits: the pending bits, if any, fill one more group. */
  lemma FillGroupSplit(done: seq<bool>, pending: seq<bool>, stream: seq<bool>)
    requires |done| % 5 == 0 && |pending| < 5 && done + pending == stream
    ensures |pending| == 0 ==> FillGroup(stream) == done
    ensures |pending| > 0 ==> FillGroup(stream) == done + (pending + Zeros(5 - |pending|))
  {
    if |pending| == 0 {
      assert stream == done;
      assert Zeros(0) == [];
    }
  }

  /** What `encode(data, variant, { padding })` returns or throws. */
  function EncodeSpec(data: seq<Byte>, variant: string, padding: Option<bool>): (r: Result<string, Error>)
    ensures r.Err? <==> ParseVariant(variant).None?
    ensures r.Err? ==> r.error == UnknownVariant(variant)
  {
    match ParseVariant(variant)
    case None => Err(UnknownVariant(variant))
    case Some(v) =>
      var u := Symbols(Alphabet(v), Quintets(data));
      Ok(if UsePadding(v, padding) then Padded(u) else u)
  }

  lemma SymbolsSnoc(alphabet: string, xs: seq<nat>, x: nat)
    requires forall k :: 0 <= k < |xs| ==> xs[k] < |alphabet|
    requires x < |alphabet|
    ensures Symbols(alphabet, xs + [x]) == Symbols(alphabet, xs) + [alphabet[x]]
  {
  }

  /** Appending one whole 5-bit group to a stream of whole groups appends one symbol. */
  lemma EmitSymbol(alphabet: string, done: seq<bool>, g: seq<bool>, output: string)
    requires |alphabet| == 32 && |g| == SymbolWidth && |done| == 5 * |output|
    requires forall k :: 0 <= k < |Pack(done, SymbolWidth)| ==> Pack(done, SymbolWidth)[k] < 32
    requires output == Symbols(alphabet, Pack(done, SymbolWidth))
    ensures ValueOf(g) < 32
    ensures forall k :: 0 <= k < |Pack(done + g, SymbolWidth)| ==> Pack(done + g, SymbolWidth)[k] < 32
    ensures output + [alphabet[ValueOf(g)]] == Symbols(alphabet, Pack(done + g, SymbolWidth))
  {
    Widths();
    PackAppend(done, g, SymbolWidth, |output|);
    PackGroup(g, SymbolWidth);
    SymbolsSnoc(alphabet, Pack(done, SymbolWidth), ValueOf(g));
  }

  /** Appending to the pending bits appends to the whole stream. */
  lemma Regroup(done: seq<bool>, pending: seq<bool>, b: seq<bool>, stream: seq<bool>)
    requires done + pending == stream
    ensures done + (pending + b) == stream + b
  {
  }

  /** Moving the first `k` pending bits to the finished ones keeps their concatenation. */
  lemma MoveBits(done: seq<bool>, pending: seq<bool>, k: nat)
    requires k <= |pending|
    ensures (done + pending[..k]) + pending[k..] == done + pending
  {
    assert pending == pending[..k] + pending[k..];
  }

  /**
   * The state of `encode`'s accumulator once the bits `stream` are taken in:
   * the first bits, `done`, whole 5-bit groups, are already the symbols of
   * `output`; the remaining `pending` ones are the low `bits` bits of `value`.
   */
  ghost predicate Encoding(alphabet: string, stream: seq<bool>, value: nat, bits: nat,
                           done: seq<bool>, pending: seq<bool>, output: string)
  {
    Widths();
    PackBound(done, SymbolWidth);
    |alphabet| == 32 && done + pending == stream && |done| == 5 * |output| && |pending| == bits
    && BitsOf(value, bits) == pending && output == Symbols(alphabet, Pack(done, SymbolWidth))
  }

  /** Nothing taken in, nothing emitted. */
  lemma EncodingStart(alphabet: string)
    requires |alphabet| == 32
    ensures Encoding(alphabet, Unpack([], ByteWidth), 0, 0, [], [], "")
  {
    Widths();
    assert Pack([], SymbolWidth) == [];
  }

  /** The 32-bit accumulator keeps the pending bits, now followed by the byte's. */
  lemma ByteBits(alphabet: string, data: seq<Byte>, i: nat, value: nat, bits: nat,
                   done: seq<bool>, pending: seq<bool>, output: string)
    requires i < |data| && bits < 5
    requires Encoding(alphabet, Unpack(data[..i], ByteWidth), value, bits, done, pending, output)
    ensures BitsOf((Shl(value, ByteWidth) + data[i]) % Word, bits + ByteWidth) == pending + BitsOf(data[i], ByteWidth)
  {
    Widths();
    TakeIn(value, pending, bits, data[i], ByteWidth);
  }

  /** The bit stream grows by the byte's eight bits. */
  lemma ByteStream(alphabet: string, data: seq<Byte>, i: nat, value: nat, bits: nat,
                   done: seq<bool>, pending: seq<bool>, output: string)
    requires i < |data| && bits < 5
    requires Encoding(alphabet, Unpack(data[..i], ByteWidth), value, bits, done, pending, output)
    ensures done + (pending + BitsOf(data[i], ByteWidth)) == Unpack(data[..i + 1], ByteWidth)
  {
    TakeByte(data, i, done, pending);
  }

  /** `value = (value << 8) | data[i]` in 32 bits takes byte `i` in as eight more pending bits. */
  lemma ByteIn(alphabet: string, data: seq<Byte>, i: nat, value: nat, bits: nat,
                   done: seq<bool>, pending: seq<bool>, output: string)
    requires i < |data| && bits < 5
    requires Encoding(alphabet, Unpack(data[..i], ByteWidth), value, bits, done, pending, output)
    ensures Encoding(alphabet, Unpack(data[..i + 1], ByteWidth), (Shl(value, ByteWidth) + data[i]) % Word, bits + ByteWidth,
                     done, pending + BitsOf(data[i], ByteWidth), output)
  {
    ByteBits(alphabet, data, i, value, bits, done, pending, output);
    ByteStream(alphabet, data, i, value, bits, done, pending, output);
  }

  /** `(value >>> (bits - 5)) & 31` is the symbol of the first five pending bits. */
  lemma GroupOut(alphabet: string, stream: seq<bool>, value: nat, bits: nat,
                 done: seq<bool>, pending: seq<bool>, output: string)
    requires bits >= 5 && Encoding(alphabet, stream, value, bits, done, pending, output)
    ensures Mask(Shr(value, bits - SymbolWidth), SymbolWidth) < 32
    ensures Encoding(alphabet, stream, value, bits - SymbolWidth, done + pending[..SymbolWidth], pending[SymbolWidth..],
                     output + [alphabet[Mask(Shr(value, bits - SymbolWidth), SymbolWidth)]])
  {
    Widths();
    PackBound(done, SymbolWidth);
    TakeOut(value, pending, bits, SymbolWidth);
    EmitSymbol(alphabet, done, pending[..SymbolWidth], output);
    MoveBits(done, pending, SymbolWidth);
  }

  /**
   * After the last byte: with no bits pending the symbols are complete; with
   * some pending, `(value << (5 - bits)) & 31` is the last, zero-filled, symbol.
   */
  lemma LastGroup(alphabet: string, data: seq<Byte>, value: nat, bits: nat,
                  done: seq<bool>, pending: seq<bool>, output: string)
    requires bits < 5 && Encoding(alphabet, Unpack(data[..|data|], ByteWidth), value, bits, done, pending, output)
    ensures bits == 0 ==> output == Symbols(alphabet, Quintets(data))
    ensures bits > 0 ==> Mask(Shl(value, SymbolWidth - bits) % Word, SymbolWidth) < 32
    ensures bits > 0 ==> output + [alphabet[Mask(Shl(value, SymbolWidth - bits) % Word, SymbolWidth)]] == Symbols(alphabet, Quintets(data))
  {
    Widths();
    PackBound(done, SymbolWidth);
    FillGroupSplit(done, pending, Unpack(data[..|data|], ByteWidth));
    if bits > 0 {
      FillOut(value, pending, bits, SymbolWidth);
      EmitSymbol(alphabet, done, pending + Zeros(SymbolWidth - bits), output);
      EncodedAll(alphabet, data, done + (pending + Zeros(SymbolWidth - bits)), output + [alphabet[Mask(Shl(value, SymbolWidth - bits) % Word, SymbolWidth)]]);
    } else {
      EncodedAll(alphabet, data, done, output);
    }
  }

  /**
   * The accumulator loop of `encode` (base32.ts lines 36-52) over a 32-symbol
   * alphabet: the 32-bit `value` takes each byte in from the right; while at
   * least 5 bits are pending the top five of them select the next symbol; a
   * last partial group is filled with zero bits.
   */
  method EncodeSymbols(alphabet: string, data: seq<Byte>) returns (output: string)
    requires |alphabet| == 32
    ensures output == Symbols(alphabet, Quintets(data))
  {
    var bits: nat := 0;
    var value: nat := 0;
    output := "";
    ghost var done: seq<bool> := [];     // the bits already turned into symbols
    ghost var pending: seq<bool> := [];  // the low `bits` bits of `value`
    EncodingStart(alphabet);

    for i := 0 to |data|
      invariant bits < 5 && Encoding(alphabet, Unpack(data[..i], ByteWidth), value, bits, done, pending, output)
    {
      ByteIn(alphabet, data, i, value, bits, done, pending, output);
      value := (Shl(value, ByteWidth) + data[i]) % Word;
      bits := bits + ByteWidth;
      pending := pending + BitsOf(data[i], ByteWidth);

      while bits >= 5
        invariant Encoding(alphabet, Unpack(data[..i + 1], ByteWidth), value, bits, done, pending, output)
        decreases bits
      {
        GroupOut(alphabet, Unpack(data[..i + 1], ByteWidth), value, bits, done, pending, output);
        output := output + [alphabet[Mask(Shr(value, bits - SymbolWidth), SymbolWidth)]];
        done, pending := done + pending[..SymbolWidth], pending[SymbolWidth..];
        bits := bits - SymbolWidth;
      }
    }

    LastGroup(alphabet, data, value, bits, done, pending, output);
    if bits > 0 {
      output := output + [alphabet[Mask(Shl(value, SymbolWidth - bits) % Word, SymbolWidth)]];
    }
  }

  /** The padding loop of `encode` (base32.ts lines 54-58): `=` until the length is a multiple of 8. */
  method Pad(unpadded: string) returns (output: string)
    ensures output == Padded(unpadded)
  {
    output := unpadded;
    while |output| % 8 != 0
      invariant |unpadded| <= |output| <= |unpadded| + PadCount(|unpadded|)
      invariant output == unpadded + Repeat('=', |output| - |unpadded|)
      decreases |unpadded| + PadCount(|unpadded|) - |output|
    {
      PadCountLeast(|unpadded|, |output| - |unpadded|);
      RepeatSnoc(unpadded, '=', |output| - |unpadded|);
      output := output + "=";
    }
    PadCountLeast(|unpadded|, |output| - |unpadded|);
  }

  /**
   * `encode` (base32.ts lines 11-61): the variant's alphabet and default
   * padding, the symbols of the data, then `=` up to a multiple of 8 when
   * padding is on.
   */
  method Encode(data: seq<Byte>, variant: string, padding: Option<bool>) returns (r: Result<string, Error>)
    ensures r == EncodeSpec(data, variant, padding)
  {
    var v: Variant;
    match ParseVariant(variant) {
      case None => return Err(UnknownVariant(variant));
      case Some(w) => v := w;
    }
    var output := EncodeSymbols(Alphabet(v), data);
    if UsePadding(v, padding) {
      output := Pad(output);
    }
    return Ok(output);
  }

  // ---------------------------------------------------------------- decoding

  /** `alphabet.indexOf(c)`: the first position of `c`, or -1. */
  function IndexOf(s: string, c: char): (i: int)
    ensures -1 <= i < |s|
    ensures i == -1 <==> c !in s
    ensures 0 <= i ==> i < |s| && s[i] == c && c !in s[..i]
  {
    if s == [] then -1
    else if s[0] == c then 0
    else
      var j := IndexOf(s[1..], c);
      assert s == [s[0]] + s[1..];
      if j == -1 then -1
      else
        assert s[..j + 1] == [s[0]] + s[1..][..j];
        j + 1
  }

  /** `readChar` (base32.ts lines 72-80): the 5-bit value of a character, or the error it throws. */
  function ReadChar(alphabet: string, c: char): (r: Result<nat, Error>)
    ensures r.Ok? <==> c in alphabet
    ensures r.Ok? ==> r.value < |alphabet| && alphabet[r.value] == c
    ensures r.Err? ==> r.error == InvalidCharacter(c)
  {
    var idx := IndexOf(alphabet, c);
    if idx == -1 then Err(InvalidCharacter(c)) else Ok(idx as nat)
  }

  /** `input.replace(/=+$/, '')`: the input without its trailing run of `=`. */
  function StripPadding(s: string): (t: string)
    ensures t <= s
    ensures t == [] || t[|t| - 1] != '='
    ensures forall k :: |t| <= k < |s| ==> s[k] == '='
  {
    if s != [] && s[|s| - 1] == '=' then StripPadding(s[..|s| - 1]) else s
  }

  /** Upper-casing of ASCII letters. */
  function ToUpper(c: char): (u: char)
    ensures !('a' <= u <= 'z')
    ensures 'a' <= c <= 'z' ==> 'A' <= u <= 'Z' && u as int - 'A' as int == c as int - 'a' as int
    ensures !('a' <= c <= 'z') ==> u == c
  {
    if 'a' <= c <= 'z' then (c as int - 32) as char else c
  }

  /** Crockford's reading of one character: upper case, `O` as `0`, `I` and `L` as `1`. */
  function CrockfordCanonical(c: char): (d: char)
    ensures d != 'O' && d != 'I' && d != 'L' && !('a' <= d <= 'z')
    ensures ToUpper(c) == 'O' ==> d == '0'
    ensures ToUpper(c) == 'I' || ToUpper(c) == 'L' ==> d == '1'
    ensures ToUpper(c) != 'O' && ToUpper(c) != 'I' && ToUpper(c) != 'L' ==> d == ToUpper(c)
  {
    var u := ToUpper(c);
    if u == 'O' then '0' else if u == 'I' || u == 'L' then '1' else u
  }

  /** The input as the decoder's `switch` prepares it (base32.ts lines 85-101). */
  function Preprocess(v: Variant, input: string): (s: string)
    ensures !v.Crockford? ==> s <= input && (s == [] || s[|s| - 1] != '=')
    ensures !v.Crockford? ==> forall k :: |s| <= k < |input| ==> input[k] == '='
    ensures v.Crockford? ==> |s| == |input|
    ensures v.Crockford? ==> forall k :: 0 <= k < |s| ==> s[k] != 'O' && s[k] != 'I' && s[k] != 'L' && !('a' <= s[k] <= 'z')
  {
    match v
    case Rfc3548 | Rfc4648 | Rfc4648Hex => StripPadding(input)
    case Crockford => seq(|input|, k requires 0 <= k < |input| => CrockfordCanonical(input[k]))
  }

  /**
   * The 5-bit values of the characters of `s`, read left to right, or the
   * error `readChar` throws at the first character outside the alphabet.
   */
  function Lookup(alphabet: string, s: string): (r: Result<seq<nat>, Error>)
    ensures r.Ok? ==> |r.value| == |s|
    ensures r.Err? ==> r.error.InvalidCharacter? && r.error.c in s && r.error.c !in alphabet
  {
    if s == [] then Ok([])
    else
      match Lookup(alphabet, s[..|s| - 1])
      case Err(e) => Err(e)
      case Ok(xs) =>
        match ReadChar(alphabet, s[|s| - 1])
        case Err(e) => Err(e)
        case Ok(x) => Ok(xs + [x])
  }

  /**
   * The bytes that the characters of `s` spell over `alphabet`, MSB first, a
   * trailing partial byte dropped; or the error of the first character outside
   * the alphabet.
   */
  function DecodeChars(alphabet: string, s: string): (r: Result<seq<Byte>, Error>)
    ensures r.Ok? ==> |r.value| == 5 * |s| / 8
    ensures r.Err? ==> r.error.InvalidCharacter? && r.error.c in s && r.error.c !in alphabet
  {
    match Lookup(alphabet, s)
    case Err(e) => Err(e)
    case Ok(xs) =>
      Widths();
      PackBound(Unpack(xs, SymbolWidth), ByteWidth);
      Ok(Pack(Unpack(xs, SymbolWidth), ByteWidth))
  }

  /** What `decode(input, variant)` returns or throws. */
  function DecodeSpec(input: string, variant: string): (r: Result<seq<Byte>, Error>)
    ensures ParseVariant(variant).None? ==> r == Err(UnknownVariant(variant))
    ensures ParseVariant(variant).Some? && r.Err? ==>
      r.error.InvalidCharacter? && r.error.c !in Alphabet(ParseVariant(variant).value)
    ensures r.Ok? ==> |r.value| == 5 * |Preprocess(ParseVariant(variant).value, input)| / 8
  {
    match ParseVariant(variant)
    case None => Err(UnknownVariant(variant))
    case Some(v) => DecodeChars(Alphabet(v), Preprocess(v, input))
  }

  /** Once a prefix holds an invalid character, the rest of the input does not matter. */
  lemma {:induction false} LookupErrPrefix(alphabet: string, p: string, q: string)
    requires Lookup(alphabet, p).Err?
    ensures Lookup(alphabet, p + q) == Lookup(alphabet, p)
    decreases |q|
  {
    if q == [] {
      assert p + q == p;
    } else {
      assert (p + q)[..|p + q| - 1] == p + q[..|q| - 1];
      LookupErrPrefix(alphabet, p, q[..|q| - 1]);
    }
  }

  /**
   * The state of `decode`'s accumulator after the first `i` characters of
   * `s`: they are in the alphabet, with values `xs`; the first bits of their
   * stream, `done`, whole bytes, are already `written`; the remaining
   * `pending` ones are the low `bits` bits of `value`.
   */
  ghost predicate Decoding(alphabet: string, s: string, i: nat, xs: seq<nat>, value: nat, bits: nat,
                           done: seq<bool>, pending: seq<bool>, written: seq<Byte>)
  {
    i <= |s| && Lookup(alphabet, s[..i]) == Ok(xs) && done + pending == Unpack(xs, SymbolWidth)
    && |done| == 8 * |written| && |pending| == bits && 5 * i == 8 * |written| + bits
    && BitsOf(value, bits) == pending && written == Pack(done, ByteWidth)
  }

  /** Nothing read, nothing written. */
  lemma DecodingStart(alphabet: string, s: string)
    ensures Decoding(alphabet, s, 0, [], 0, 0, [], [], [])
  {
    assert s[..0] == [];
    assert Pack([], ByteWidth) == [];
  }

  /** A character outside the alphabet at position `i`, after valid ones, is the error of the whole input. */
  lemma InvalidAt(alphabet: string, s: string, i: nat, xs: seq<nat>)
    requires i < |s| && Lookup(alphabet, s[..i]) == Ok(xs) && ReadChar(alphabet, s[i]).Err?
    ensures DecodeChars(alphabet, s) == Err(ReadChar(alphabet, s[i]).error)
  {
    assert s[..i + 1][..i] == s[..i];
    assert s == s[..i + 1] + s[i + 1..];
    LookupErrPrefix(alphabet, s[..i + 1], s[i + 1..]);
  }

  /** A character inside the alphabet extends the looked-up values by its own. */
  lemma LookupStep(alphabet: string, s: string, i: nat, xs: seq<nat>, d: nat)
    requires i < |s| && Lookup(alphabet, s[..i]) == Ok(xs) && ReadChar(alphabet, s[i]) == Ok(d)
    ensures Lookup(alphabet, s[..i + 1]) == Ok(xs + [d])
  {
    assert s[..i + 1][..i] == s[..i];
  }

  /** The values read so far grow by the new character's value. */
  lemma CharLookup(alphabet: string, s: string, i: nat, xs: seq<nat>, value: nat, bits: nat,
               done: seq<bool>, pending: seq<bool>, written: seq<Byte>, d: nat)
    requires |alphabet| == 32 && i < |s| && bits < 8
    requires Decoding(alphabet, s, i, xs, value, bits, done, pending, written)
    requires ReadChar(alphabet, s[i]) == Ok(d)
    ensures Lookup(alphabet, s[..i + 1]) == Ok(xs + [d])
  {
    LookupStep(alphabet, s, i, xs, d);
  }

  /** The bit stream grows by the new character's five bits. */
  lemma CharStream(alphabet: string, s: string, i: nat, xs: seq<nat>, value: nat, bits: nat,
               done: seq<bool>, pending: seq<bool>, written: seq<Byte>, d: nat)
    requires |alphabet| == 32 && i < |s| && bits < 8
    requires Decoding(alphabet, s, i, xs, value, bits, done, pending, written)
    requires ReadChar(alphabet, s[i]) == Ok(d)
    ensures done + (pending + BitsOf(d, SymbolWidth)) == Unpack(xs + [d], SymbolWidth)
  {
    UnpackSnoc(xs, d, SymbolWidth);
    Regroup(done, pending, BitsOf(d, SymbolWidth), Unpack(xs, SymbolWidth));
  }

  /** The 32-bit accumulator keeps the pending bits, now followed by the new character's. */
  lemma CharBits(alphabet: string, s: string, i: nat, xs: seq<nat>, value: nat, bits: nat,
               done: seq<bool>, pending: seq<bool>, written: seq<Byte>, d: nat)
    requires |alphabet| == 32 && i < |s| && bits < 8
    requires Decoding(alphabet, s, i, xs, value, bits, done, pending, written)
    requires ReadChar(alphabet, s[i]) == Ok(d)
    ensures BitsOf((Shl(value, SymbolWidth) + d) % Word, bits + SymbolWidth) == pending + BitsOf(d, SymbolWidth)
  {
    Widths();
    TakeIn(value, pending, bits, d, SymbolWidth);
  }

  /** `value = (value << 5) | readChar(alphabet, s[i])` in 32 bits takes the character in as five more pending bits. */
  lemma CharIn(alphabet: string, s: string, i: nat, xs: seq<nat>, value: nat, bits: nat,
               done: seq<bool>, pending: seq<bool>, written: seq<Byte>, d: nat)
    requires |alphabet| == 32 && i < |s| && bits < 8
    requires Decoding(alphabet, s, i, xs, value, bits, done, pending, written)
    requires ReadChar(alphabet, s[i]) == Ok(d)
    ensures Decoding(alphabet, s, i + 1, xs + [d], (Shl(value, SymbolWidth) + d) % Word, bits + SymbolWidth,
                     done, pending + BitsOf(d, SymbolWidth), written)
  {
    CharLookup(alphabet, s, i, xs, value, bits, done, pending, written, d);
    CharStream(alphabet, s, i, xs, value, bits, done, pending, written, d);
    CharBits(alphabet, s, i, xs, value, bits, done, pending, written, d);
  }

  /** `(value >>> (bits - 8)) & 255` is the byte of the first eight pending bits. */
  lemma OctetOut(alphabet: string, s: string, i: nat, xs: seq<nat>, value: nat, bits: nat,
                 done: seq<bool>, pending: seq<bool>, written: seq<Byte>, b: Byte)
    requires bits >= 8 && Decoding(alphabet, s, i, xs, value, bits, done, pending, written)
    requires b == Mask(Shr(value, bits - ByteWidth), ByteWidth)
    ensures Decoding(alphabet, s, i, xs, value, bits - ByteWidth, done + pending[..ByteWidth], pending[ByteWidth..], written + [b])
  {
    Widths();
    TakeOut(value, pending, bits, ByteWidth);
    EmitOctet(done, pending[..ByteWidth], |written|);
    MoveBits(done, pending, ByteWidth);
  }

  /** Once every character is read, all of them are in the alphabet. */
  lemma DecodedLookup(alphabet: string, s: string, xs: seq<nat>, value: nat, bits: nat,
                      done: seq<bool>, pending: seq<bool>, written: seq<Byte>)
    requires bits < 8 && Decoding(alphabet, s, |s|, xs, value, bits, done, pending, written)
    ensures Lookup(alphabet, s) == Ok(xs)
  {
    assert s[..|s|] == s;
  }

  /** Once every character is read, the bytes written are all the whole bytes of the stream. */
  lemma DecodedBytes(alphabet: string, s: string, xs: seq<nat>, value: nat, bits: nat,
                      done: seq<bool>, pending: seq<bool>, written: seq<Byte>)
    requires bits < 8 && Decoding(alphabet, s, |s|, xs, value, bits, done, pending, written)
    ensures Pack(Unpack(xs, SymbolWidth), ByteWidth) == written
  {
    PackAppend(done, pending, ByteWidth, |written|);
    DivModUnique(|pending|, ByteWidth, 0, |pending|);
    assert Pack(pending, ByteWidth) == [];
  }

  /** Once every character is read, the buffer is full: it holds floor(5 * length / 8) bytes. */
  lemma DecodedLength(alphabet: string, s: string, xs: seq<nat>, value: nat, bits: nat,
                      done: seq<bool>, pending: seq<bool>, written: seq<Byte>)
    requires bits < 8 && Decoding(alphabet, s, |s|, xs, value, bits, done, pending, written)
    ensures |written| == |s| * 5 / 8
  {
    DivModUnique(|s| * 5, 8, |written|, bits);
  }

  /** Once every character is read, the buffer holds the specified bytes and is full. */
  lemma DecodedAll(alphabet: string, s: string, xs: seq<nat>, value: nat, bits: nat,
                      done: seq<bool>, pending: seq<bool>, written: seq<Byte>)
    requires bits < 8 && Decoding(alphabet, s, |s|, xs, value, bits, done, pending, written)
    ensures |written| == |s| * 5 / 8
    ensures DecodeChars(alphabet, s) == Ok(written)
  {
    DecodedLookup(alphabet, s, xs, value, bits, done, pending, written);
    DecodedBytes(alphabet, s, xs, value, bits, done, pending, written);
    DecodedLength(alphabet, s, xs, value, bits, done, pending, written);
  }

  /** Appending one whole 8-bit group to a stream of whole groups appends one octet. */
  lemma EmitOctet(done: seq<bool>, g: seq<bool>, n: nat)
    requires |g| == ByteWidth && |done| == ByteWidth * n
    ensures Pack(done + g, ByteWidth) == Pack(done, ByteWidth) + [ValueOf(g)]
  {
    PackAppend(done, g, ByteWidth, n);
    PackGroup(g, ByteWidth);
  }

  /** While a character is still to be read, eight more bits fit in the buffer. */
  lemma Room(length: nat, i: nat, index: nat, bits: nat)
    requires i < length && 5 * (i + 1) == 8 * index + bits && bits >= 8
    ensures index < length * 5 / 8
  {
    DivModUnique(length * 5, 8, (length * 5) / 8, (length * 5) % 8);
  }

  /**
   * Writes the oldest eight buffered bits as the next output byte,
   * as the decoder's inner step does once at least eight bits are buffered.
   */
  method FlushOctet(ghost alphabet: string, ghost s: string, ghost i: nat, ghost xs: seq<nat>, value: nat, bits: nat,
                    ghost done: seq<bool>, ghost pending: seq<bool>, output: array<Byte>, index: nat)
    returns (index': nat, bits': nat, ghost done': seq<bool>, ghost pending': seq<bool>)
    requires 8 <= bits < 8 + 8 && index <= output.Length == |s| * 5 / 8 && 0 < i
    requires Decoding(alphabet, s, i, xs, value, bits, done, pending, output[..index])
    modifies output
    ensures index' == index + 1 <= output.Length && bits' == bits - ByteWidth
    ensures Decoding(alphabet, s, i, xs, value, bits', done', pending', output[..index'])
  {
    // the top eight pending bits become the byte at `index`
    Widths();
    var b: Byte := Mask(Shr(value, bits - ByteWidth), ByteWidth);
    ghost var written := output[..index];
    OctetOut(alphabet, s, i, xs, value, bits, done, pending, written, b);
    Room(|s|, i - 1, index, bits);
    output[index] := b;
    assert output[..index + 1] == written + [b];
    index', bits' := index + 1, bits - ByteWidth;
    done', pending' := done + pending[..ByteWidth], pending[ByteWidth..];
  }

  /**
   * Shifts the value of character `s[i]` into the 32-bit buffer and, once at least
   * eight bits are buffered, writes the oldest eight of them as the next output byte.
   */
  method TakeSymbol(ghost alphabet: string, ghost s: string, i: nat, ghost xs: seq<nat>, value: nat, bits: nat,
                    ghost done: seq<bool>, ghost pending: seq<bool>, output: array<Byte>, index: nat, d: nat)
    returns (value': nat, bits': nat, index': nat, ghost xs': seq<nat>, ghost done': seq<bool>, ghost pending': seq<bool>)
    requires |alphabet| == 32 && i < |s| && bits < 8 && index <= output.Length == |s| * 5 / 8
    requires Decoding(alphabet, s, i, xs, value, bits, done, pending, output[..index])
    requires ReadChar(alphabet, s[i]) == Ok(d)
    modifies output
    ensures bits' < 8 && index' <= output.Length
    ensures Decoding(alphabet, s, i + 1, xs', value', bits', done', pending', output[..index'])
  {
    // shift the character's five bits into the 32-bit accumulator
    CharIn(alphabet, s, i, xs, value, bits, done, pending, output[..index], d);
    value', bits', index' := (Shl(value, SymbolWidth) + d) % Word, bits + SymbolWidth, index;
    xs', done', pending' := xs + [d], done, pending + BitsOf(d, SymbolWidth);
    if bits' >= 8 {
      index', bits', done', pending' := FlushOctet(alphabet, s, i + 1, xs', value', bits', done', pending', output, index');
    }
  }

  /**
   * The accumulator loop of `decode` (base32.ts lines 103-121): every
   * character is looked up and shifted into the 32-bit `value`; whenever 8
   * bits are pending the top eight of them fill the next slot of a buffer
   * pre-sized to floor(5 * length / 8).
   */
  method DecodeSymbols(alphabet: string, s: string) returns (r: Result<seq<Byte>, Error>)
    requires |alphabet| == 32
    ensures r == DecodeChars(alphabet, s)
  {
    var length := |s|;
    var bits: nat := 0;
    var value: nat := 0;
    var index: nat := 0;
    var output := new Byte[length * 5 / 8];
    ghost var xs: seq<nat> := [];        // the values of the characters read so far
    ghost var done: seq<bool> := [];     // the bits already written to `output`
    ghost var pending: seq<bool> := [];  // the low `bits` bits of `value`
    DecodingStart(alphabet, s);

    for i := 0 to length
      invariant bits < 8 && index <= output.Length
      invariant Decoding(alphabet, s, i, xs, value, bits, done, pending, output[..index])
    {
      var idx := ReadChar(alphabet, s[i]);
      if idx.Err? {
        InvalidAt(alphabet, s, i, xs);
        return Err(idx.error);
      }
      value, bits, index, xs, done, pending := TakeSymbol(alphabet, s, i, xs, value, bits, done, pending, output, index, idx.value);
    }
    DecodedAll(alphabet, s, xs, value, bits, done, pending, output[..index]);
    assert output[..] == output[..index];
    return Ok(output[..]);
  }

  /**
   * `decode` (base32.ts lines 82-122): the variant's alphabet and input
   * preparation, then the accumulator loop.
   */
  method Decode(input: string, variant: string) returns (r: Result<seq<Byte>, Error>)
    ensures r == DecodeSpec(input, variant)
  {
    var v: Variant;
    match ParseVariant(variant) {
      case None => return Err(UnknownVariant(variant));
      case Some(w) => v := w;
    }
    var s := Preprocess(v, input);
    r := DecodeSymbols(Alphabet(v), s);
  }
}
