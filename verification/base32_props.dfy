module Base32Properties {
  import opened Wrappers
  import opened BitStream
  import opened Base32

  // ---------------------------------------------------------------- reading characters

  /** Every character of `s` occurs in `alphabet`. */
  predicate AllIn(s: string, alphabet: string)
  {
    forall k :: 0 <= k < |s| ==> s[k] in alphabet
  }

  /**
   * Reading succeeds exactly when every character is in the alphabet, and then
   * yields, character by character, a position where the alphabet holds that character.
   */
  lemma {:induction false} LookupOk(alphabet: string, s: string)
    ensures Lookup(alphabet, s).Ok? <==> AllIn(s, alphabet)
    ensures Lookup(alphabet, s).Ok? ==> forall k :: 0 <= k < |s| ==>
      Lookup(alphabet, s).value[k] < |alphabet| && alphabet[Lookup(alphabet, s).value[k]] == s[k]
    decreases |s|
  {
    if s != [] {
      var t := s[..|s| - 1];
      LookupOk(alphabet, t);
      assert forall k :: 0 <= k < |t| ==> t[k] == s[k];
    }
  }

  /** Reading fails with the first character that is not in the alphabet. */
  lemma {:induction false} LookupErr(alphabet: string, s: string, j: nat)
    requires j < |s| && s[j] !in alphabet && AllIn(s[..j], alphabet)
    ensures Lookup(alphabet, s) == Err(InvalidCharacter(s[j]))
    decreases |s|
  {
    var t := s[..|s| - 1];
    if j == |s| - 1 {
      assert t == s[..j];
      LookupOk(alphabet, t);
    } else {
      assert t[j] == s[j] && t[..j] == s[..j];
      LookupErr(alphabet, t, j);
    }
  }

  /** Positions of equal characters in a distinct string are equal. */
  lemma DistinctAt(s: string, i: nat, j: nat)
    requires Distinct(s) && i < |s| && j < |s| && s[i] == s[j]
    ensures i == j
  {
  }

  /** Symbols are all in the alphabet. */
  lemma SymbolsIn(alphabet: string, xs: seq<nat>)
    requires forall k :: 0 <= k < |xs| ==> xs[k] < |alphabet|
    ensures AllIn(Symbols(alphabet, xs), alphabet)
  {
    var s := Symbols(alphabet, xs);
    forall k | 0 <= k < |s| ensures s[k] in alphabet {
      assert s[k] == alphabet[xs[k]];
    }
  }

  /** Over a distinct alphabet, reading the symbols of values gives those values back. */
  lemma LookupSymbols(alphabet: string, xs: seq<nat>)
    requires Distinct(alphabet)
    requires forall k :: 0 <= k < |xs| ==> xs[k] < |alphabet|
    ensures Lookup(alphabet, Symbols(alphabet, xs)) == Ok(xs)
  {
    var s := Symbols(alphabet, xs);
    SymbolsIn(alphabet, xs);
    LookupOk(alphabet, s);
    var ys := Lookup(alphabet, s).value;
    forall k | 0 <= k < |xs| ensures ys[k] == xs[k] {
      DistinctAt(alphabet, ys[k], xs[k]);
    }
    assert ys == xs;
  }

  // ---------------------------------------------------------------- encoding

  /** A stream of `8n` bits topped up to whole 5-bit groups holds ceil(8n / 5) groups. */
  lemma QuintetsLength(data: seq<Byte>)
    ensures |Quintets(data)| == (8 * |data| + 4) / 5
  {
    var f := FillGroup(Unpack(data, ByteWidth));
    var n := 8 * |data|;
    assert n <= |f| < n + 5 && |f| % 5 == 0;
    var q := |f| / 5;
    DivMod(|f|, 5);
    DivModUnique(n + 4, 5, q, n + 4 - 5 * q);
  }

  /** Without padding, `n` bytes encode to ceil(8n / 5) characters, all from the variant's alphabet. */
  lemma EncodeUnpadded(data: seq<Byte>, variant: string, padding: Option<bool>)
    requires ParseVariant(variant).Some? && !UsePadding(ParseVariant(variant).value, padding)
    ensures EncodeSpec(data, variant, padding).Ok?
    ensures |EncodeSpec(data, variant, padding).value| == (8 * |data| + 4) / 5
    ensures AllIn(EncodeSpec(data, variant, padding).value, Alphabet(ParseVariant(variant).value))
  {
    QuintetsLength(data);
    SymbolsIn(Alphabet(ParseVariant(variant).value), Quintets(data));
  }

  /**
   * With padding, the output is the unpadded output followed by `=` characters,
   * at most seven of them, up to the least multiple of 8.
   */
  lemma EncodePadded(data: seq<Byte>, variant: string, padding: Option<bool>)
    requires ParseVariant(variant).Some? && UsePadding(ParseVariant(variant).value, padding)
    ensures EncodeSpec(data, variant, padding).Ok? && EncodeSpec(data, variant, Some(false)).Ok?
    ensures var u, p := EncodeSpec(data, variant, Some(false)).value, EncodeSpec(data, variant, padding).value;
      |u| <= |p| <= |u| + 7 && p[..|u|] == u && (forall k :: |u| <= k < |p| ==> p[k] == '=') &&
      |p| % 8 == 0 && (forall m :: |u| <= m < |p| ==> m % 8 != 0)
  {
    var u := EncodeSpec(data, variant, Some(false)).value;
    var p := EncodeSpec(data, variant, padding).value;
    var r := Repeat('=', PadCount(|u|));
    assert p == u + r;
    assert p[..|u|] == u;
    PadCountLeast(|u|, PadCount(|u|));
    assert |p| % 8 == 0;
    forall k | |u| <= k < |p| ensures p[k] == '=' {
      assert p[k] == r[k - |u|];
    }
    forall m | |u| <= m < |p| ensures m % 8 != 0 {
      PadCountLeast(|u|, m - |u|);
    }
  }

  /** Padding is on by default except for Crockford. */
  lemma PaddingDefault(data: seq<Byte>, variant: string)
    requires ParseVariant(variant).Some?
    ensures EncodeSpec(data, variant, None) == EncodeSpec(data, variant, Some(variant != "Crockford"))
  {
  }

  /** An unrecognised variant tag makes both directions fail, with the tag in the error. */
  lemma UnknownVariantFails(data: seq<Byte>, input: string, variant: string, padding: Option<bool>)
    ensures EncodeSpec(data, variant, padding).Err? <==> variant !in {"RFC3548", "RFC4648", "RFC4648-HEX", "Crockford"}
    ensures variant !in {"RFC3548", "RFC4648", "RFC4648-HEX", "Crockford"} ==>
      EncodeSpec(data, variant, padding) == Err(UnknownVariant(variant)) &&
      DecodeSpec(input, variant) == Err(UnknownVariant(variant))
  {
  }

  // ---------------------------------------------------------------- decoding

  /** Decoding succeeds exactly when every preprocessed character is in the alphabet. */
  lemma DecodeOk(input: string, variant: string)
    requires ParseVariant(variant).Some?
    ensures var v := ParseVariant(variant).value;
      DecodeSpec(input, variant).Ok? <==> AllIn(Preprocess(v, input), Alphabet(v))
  {
    var v := ParseVariant(variant).value;
    LookupOk(Alphabet(v), Preprocess(v, input));
  }

  /** Decoding fails with the first preprocessed character that is not in the alphabet. */
  lemma DecodeFirstInvalid(input: string, variant: string, j: nat)
    requires ParseVariant(variant).Some?
    requires var v := ParseVariant(variant).value; var s := Preprocess(v, input);
      j < |s| && s[j] !in Alphabet(v) && AllIn(s[..j], Alphabet(v))
    ensures DecodeSpec(input, variant) == Err(InvalidCharacter(Preprocess(ParseVariant(variant).value, input)[j]))
  {
    var v := ParseVariant(variant).value;
    LookupErr(Alphabet(v), Preprocess(v, input), j);
  }

  /** An `=` that is not trailing is rejected by the RFC variants. */
  lemma RejectsInteriorPadding()
    ensures DecodeSpec("MY=A", "RFC4648") == Err(InvalidCharacter('='))
  {
    var s := "MY=A";
    assert Preprocess(Rfc4648, s) == s;
    assert Rfc4648Alphabet[12] == 'M';
    assert Rfc4648Alphabet[24] == 'Y';
    assert AllIn(s[..2], Rfc4648Alphabet) by {
      assert s[..2][0] == Rfc4648Alphabet[12] && s[..2][1] == Rfc4648Alphabet[24];
    }
    Rfc4648Symbols();
    LookupErr(Rfc4648Alphabet, s, 2);
  }

  /** A lower-case letter is rejected by the RFC variants. */
  lemma RejectsLowerCase()
    ensures DecodeSpec("my", "RFC4648") == Err(InvalidCharacter('m'))
  {
    var s := "my";
    assert Preprocess(Rfc4648, s) == s;
    Rfc4648Symbols();
    assert AllIn(s[..0], Rfc4648Alphabet);
    LookupErr(Rfc4648Alphabet, s, 0);
  }

  // ---------------------------------------------------------------- Crockford's leniency

  /** Crockford reading ignores case and reads `O` as `0` and `I`, `L` as `1`. */
  lemma CrockfordFolds(c: char)
    ensures 'a' <= c <= 'z' ==> CrockfordCanonical(c) == CrockfordCanonical((c as int - 32) as char)
    ensures c == 'O' || c == 'o' ==> CrockfordCanonical(c) == '0'
    ensures c == 'I' || c == 'i' || c == 'L' || c == 'l' ==> CrockfordCanonical(c) == '1'
  {
  }

  /** Inputs that read alike character by character decode alike under Crockford. */
  lemma CrockfordLenient(a: string, b: string)
    requires |a| == |b| && forall k :: 0 <= k < |a| ==> CrockfordCanonical(a[k]) == CrockfordCanonical(b[k])
    ensures DecodeSpec(a, "Crockford") == DecodeSpec(b, "Crockford")
  {
    assert Preprocess(Crockford, a) == Preprocess(Crockford, b);
  }

  /** Every Crockford symbol reads as itself: none is lower case, `O`, `I` or `L`. */
  lemma CrockfordSymbolsCanonical(c: char)
    requires c in CrockfordAlphabet
    ensures CrockfordCanonical(c) == c
  {
    CrockfordSymbols();
  }

  /** Crockford preprocessing changes nothing in a text of Crockford symbols, such as the encoder's output. */
  lemma CrockfordPreprocessIdentity(s: string)
    requires AllIn(s, CrockfordAlphabet)
    ensures Preprocess(Crockford, s) == s
  {
    forall k | 0 <= k < |s| ensures Preprocess(Crockford, s)[k] == s[k] {
      CrockfordSymbolsCanonical(s[k]);
    }
  }

  // ---------------------------------------------------------------- round trip

  /** The 5-bit groups, written back as bits, are the zero-filled bit stream. */
  lemma QuintetsBits(data: seq<Byte>)
    ensures Unpack(Quintets(data), SymbolWidth) == FillGroup(Unpack(data, ByteWidth))
  {
    var f := FillGroup(Unpack(data, ByteWidth));
    Widths();
    UnpackPack(f, SymbolWidth, |f| / 5);
  }

  /** The whole bytes of the zero-filled bit stream are the input bytes: the fill is under a byte. */
  lemma FillGroupBytes(data: seq<Byte>)
    ensures Pack(FillGroup(Unpack(data, ByteWidth)), ByteWidth) == data
  {
    var stream := Unpack(data, ByteWidth);
    var z := Zeros((5 - |stream| % 5) % 5);
    assert FillGroup(stream) == stream + z;
    PackAppend(stream, z, ByteWidth, |data|);
    assert Pack(z, ByteWidth) == [];
    Widths();
    PackUnpack(data, ByteWidth);
  }

  /** Reading back the symbols of the 5-bit groups of `data` gives `data`. */
  lemma DecodeSymbolsOfQuintets(v: Variant, data: seq<Byte>)
    ensures DecodeChars(Alphabet(v), Symbols(Alphabet(v), Quintets(data))) == Ok(data)
  {
    LookupSymbols(Alphabet(v), Quintets(data));
    QuintetsBits(data);
    FillGroupBytes(data);
  }

  /** Stripping trailing `=` from a text without a final `=` followed by `=` characters gives the text. */
  lemma StripPadded(u: string, k: nat)
    requires u == [] || u[|u| - 1] != '='
    ensures StripPadding(u + Repeat('=', k)) == u
  {
    var s := u + Repeat('=', k);
    var t := StripPadding(s);
    assert u == [] || s[|u| - 1] == u[|u| - 1];
    assert forall j :: |u| <= j < |s| ==> s[j] == '=';
    assert t == [] || s[|t| - 1] == t[|t| - 1];
    assert |t| == |u|;
    assert t == s[..|t|] && u == s[..|u|];
  }

  /** `=` is in no alphabet. */
  lemma PadNotSymbol(v: Variant)
    ensures '=' !in Alphabet(v)
  {
    match v
    case Rfc3548 | Rfc4648 => Rfc4648Symbols();
    case Rfc4648Hex => Rfc4648HexSymbols();
    case Crockford => CrockfordSymbols();
  }

  /** The decoder's preprocessing turns the encoder's output back into the unpadded symbols. */
  lemma PreprocessEncoded(data: seq<Byte>, variant: string, padding: Option<bool>)
    requires ParseVariant(variant).Some?
    requires variant == "Crockford" ==> !UsePadding(Crockford, padding)
    ensures EncodeSpec(data, variant, padding).Ok?
    ensures var v := ParseVariant(variant).value;
      Preprocess(v, EncodeSpec(data, variant, padding).value) == Symbols(Alphabet(v), Quintets(data))
  {
    var v := ParseVariant(variant).value;
    var u := Symbols(Alphabet(v), Quintets(data));
    SymbolsIn(Alphabet(v), Quintets(data));
    if v == Crockford {
      CrockfordPreprocessIdentity(u);
    } else {
      PadNotSymbol(v);
      assert u == [] || u[|u| - 1] in Alphabet(v);
      var k := if UsePadding(v, padding) then PadCount(|u|) else 0;
      StripPadded(u, k);
      assert EncodeSpec(data, variant, padding).value == u + Repeat('=', k);
    }
  }

  /** ceil(8n / 5) symbols fill whole groups of 8 exactly when n is a multiple of 5. */
  lemma SymbolCountWhole(n: nat)
    ensures ((8 * n + 4) / 5) % 8 == 0 <==> n % 5 == 0
  {
    var m, r := n / 5, n % 5;
    DivMod(n, 5);
    var e := (8 * r + 4) / 5;
    assert 8 * n + 4 == 5 * (8 * m + e) + (8 * r + 4) % 5;
    DivModUnique(8 * n + 4, 5, 8 * m + e, (8 * r + 4) % 5);
    DivModUnique(8 * m + e, 8, m, e);
  }

  /** No `=` is added exactly when the length is already a multiple of 8. */
  lemma PadCountZero(n: nat)
    ensures PadCount(n) == 0 <==> n % 8 == 0
  {
  }

  /** The Crockford symbols of n bytes need no `=` exactly when n is a multiple of 5. */
  lemma CrockfordPadCount(data: seq<Byte>)
    ensures PadCount(|Symbols(CrockfordAlphabet, Quintets(data))|) == 0 <==> |data| % 5 == 0
  {
    QuintetsLength(data);
    SymbolCountWhole(|data|);
    PadCountZero(|Quintets(data)|);
  }

  /** What Crockford encoding returns without and with padding. */
  lemma CrockfordEncodings(data: seq<Byte>, padding: Option<bool>)
    requires UsePadding(Crockford, padding)
    ensures EncodeSpec(data, "Crockford", Some(false)) == Ok(Symbols(CrockfordAlphabet, Quintets(data)))
    ensures EncodeSpec(data, "Crockford", padding) == Ok(Padded(Symbols(CrockfordAlphabet, Quintets(data))))
  {
    assert ParseVariant("Crockford") == Some(Crockford);
  }

  /** Crockford with padding on: the unpadded output, then the `=` that reach a multiple of 8. */
  lemma CrockfordPaddedOutput(data: seq<Byte>, padding: Option<bool>)
    requires UsePadding(Crockford, padding)
    ensures EncodeSpec(data, "Crockford", padding).Ok? && EncodeSpec(data, "Crockford", Some(false)).Ok?
    ensures var u, p := EncodeSpec(data, "Crockford", Some(false)).value, EncodeSpec(data, "Crockford", padding).value;
      p == u + Repeat('=', PadCount(|u|)) && (PadCount(|u|) == 0 <==> |data| % 5 == 0)
  {
    CrockfordEncodings(data, padding);
    CrockfordPadCount(data);
  }

  /** With a byte count that is a multiple of 5 no `=` is added, so the round trip holds. */
  lemma CrockfordPaddedWhole(data: seq<Byte>, padding: Option<bool>)
    requires UsePadding(Crockford, padding) && |data| % 5 == 0
    ensures EncodeSpec(data, "Crockford", padding).Ok?
    ensures DecodeSpec(EncodeSpec(data, "Crockford", padding).value, "Crockford") == Ok(data)
  {
    CrockfordPaddedOutput(data, padding);
    var u := EncodeSpec(data, "Crockford", Some(false)).value;
    assert EncodeSpec(data, "Crockford", padding).value == u;
    PreprocessEncoded(data, "Crockford", Some(false));
    DecodeSymbolsOfQuintets(Crockford, data);
  }

  /** Otherwise at least one `=` is added, and decoding fails on it. */
  lemma CrockfordPaddedPartial(data: seq<Byte>, padding: Option<bool>)
    requires UsePadding(Crockford, padding) && |data| % 5 != 0
    ensures EncodeSpec(data, "Crockford", padding).Ok?
    ensures DecodeSpec(EncodeSpec(data, "Crockford", padding).value, "Crockford").Err?
  {
    CrockfordPaddedOutput(data, padding);
    var u := EncodeSpec(data, "Crockford", Some(false)).value;
    var p := EncodeSpec(data, "Crockford", padding).value;
    assert p[|u|] == '=';
    assert Preprocess(Crockford, p)[|u|] == '=';
    PadNotCrockford();
    DecodeOk(p, "Crockford");
  }

  /**
   * Crockford with padding on round-trips exactly when the byte count is a
   * multiple of 5, because only then is no `=` added.
   */
  lemma CrockfordPaddedRoundTrip(data: seq<Byte>, padding: Option<bool>)
    requires UsePadding(Crockford, padding)
    ensures EncodeSpec(data, "Crockford", padding).Ok?
    ensures DecodeSpec(EncodeSpec(data, "Crockford", padding).value, "Crockford") == Ok(data) <==> |data| % 5 == 0
  {
    if |data| % 5 == 0 {
      CrockfordPaddedWhole(data, padding);
    } else {
      CrockfordPaddedPartial(data, padding);
    }
  }

  /**
   * Decoding undoes encoding for every variant and padding choice, except
   * Crockford with padding on and a byte count that is not a multiple of 5,
   * where the decoder meets the `=` it does not strip.
   */
  lemma RoundTrip(data: seq<Byte>, variant: string, padding: Option<bool>)
    requires ParseVariant(variant).Some?
    requires variant == "Crockford" && UsePadding(Crockford, padding) ==> |data| % 5 == 0
    ensures EncodeSpec(data, variant, padding).Ok?
    ensures DecodeSpec(EncodeSpec(data, variant, padding).value, variant) == Ok(data)
  {
    if variant == "Crockford" && UsePadding(Crockford, padding) {
      CrockfordPaddedWhole(data, padding);
    } else {
      PreprocessEncoded(data, variant, padding);
      DecodeSymbolsOfQuintets(ParseVariant(variant).value, data);
    }
  }

  // ---------------------------------------------------------------- test vectors

  /** The 5-bit groups are the base-32 digits of the input's big-endian value shifted past the zero fill. */
  lemma QuintetsDigits(data: seq<Byte>, k: nat, q: nat, v: nat)
    requires k == (5 - (8 * |data|) % 5) % 5 && 8 * |data| + k == 5 * q && v == BigEndian(data) * Pow2(k)
    ensures Quintets(data) == Digits(v, SymbolWidth, q)
  {
    var stream := Unpack(data, ByteWidth);
    assert SymbolWidth == 5 && ByteWidth == 8;
    var len: nat := 8 * |data| + k;
    assert q * SymbolWidth == len;
    UnpackBigEndian(data);
    ZerosShift(BigEndian(data), 8 * |data|, k);
    assert FillGroup(stream) == BitsOf(v, len);
    PackBitsOf(v, SymbolWidth, q);
  }

  /** Base-32 digits, most significant first, by plain division. */
  function Base32Digits(v: nat, n: nat): (ds: seq<nat>)
  {
    if n == 0 then [] else Base32Digits(v / 32, n - 1) + [v % 32]
  }

  lemma {:induction false} DigitsBase32(v: nat, n: nat)
    ensures Digits(v, SymbolWidth, n) == Base32Digits(v, n)
    decreases n
  {
    if n > 0 {
      Widths();
      ShrDiv(v, SymbolWidth);
      DigitsBase32(v / 32, n - 1);
    }
  }

  /** The 5-bit groups of "f" (0x66 = 01100 110, then two fill bits). */
  lemma QuintetsF()
    ensures Quintets([0x66]) == [12, 24]
  {
    var data: seq<Byte> := [0x66];
    assert data[..0] == [];
    assert Pow2(2) == 4;
    QuintetsDigits(data, 2, 2, 0x66 * 4);
    DigitsBase32(0x66 * 4, 2);
  }

  /** What RFC 4648 encoding returns with padding on. */
  lemma Rfc4648Encodings(data: seq<Byte>, padding: Option<bool>)
    requires UsePadding(Rfc4648, padding)
    ensures EncodeSpec(data, "RFC4648", padding) == Ok(Padded(Symbols(Rfc4648Alphabet, Quintets(data))))
  {
    assert ParseVariant("RFC4648") == Some(Rfc4648);
  }

  /** Two symbols are followed by six pad characters. */
  lemma PaddedTwo(u: string)
    requires |u| == 2
    ensures Padded(u) == u + "======"
  {
    assert PadCount(2) == 6;
  }

  /** Section 10 of RFC 4648: "f" encodes as "MY======". */
  lemma VectorF()
    ensures EncodeSpec([0x66], "RFC4648", None) == Ok("MY======")
  {
    Rfc4648Encodings([0x66], None);
    QuintetsF();
    SymbolsMY();
    PaddedTwo("MY");
    assert "MY" + "======" == "MY======";
  }

  /** Quintets 12 and 24 are "MY" in the RFC 4648 alphabet. */
  lemma SymbolsMY()
    ensures Symbols(Rfc4648Alphabet, [12, 24]) == "MY"
  {
    assert Rfc4648Alphabet[12] == 'M' && Rfc4648Alphabet[24] == 'Y';
  }

  /** What base32hex encoding returns with padding on. */
  lemma Rfc4648HexEncodings(data: seq<Byte>, padding: Option<bool>)
    requires UsePadding(Rfc4648Hex, padding)
    ensures EncodeSpec(data, "RFC4648-HEX", padding) == Ok(Padded(Symbols(Rfc4648HexAlphabet, Quintets(data))))
  {
    assert ParseVariant("RFC4648-HEX") == Some(Rfc4648Hex);
  }

  /** Section 10 of RFC 4648, base32hex: "f" encodes as "CO======". */
  lemma VectorHexF()
    ensures EncodeSpec([0x66], "RFC4648-HEX", None) == Ok("CO======")
  {
    Rfc4648HexEncodings([0x66], None);
    QuintetsF();
    SymbolsCO();
    PaddedTwo("CO");
    assert "CO" + "======" == "CO======";
  }

  /** Quintets 12 and 24 are "CO" in the base32hex alphabet. */
  lemma SymbolsCO()
    ensures Symbols(Rfc4648HexAlphabet, [12, 24]) == "CO"
  {
    assert Rfc4648HexAlphabet[12] == 'C' && Rfc4648HexAlphabet[24] == 'O';
  }

  /** What RFC 3548 encoding returns with padding on. */
  lemma Rfc3548Encodings(data: seq<Byte>, padding: Option<bool>)
    requires UsePadding(Rfc3548, padding)
    ensures EncodeSpec(data, "RFC3548", padding) == Ok(Padded(Symbols(Rfc4648Alphabet, Quintets(data))))
  {
    assert ParseVariant("RFC3548") == Some(Rfc3548);
  }

  /** The RFC 3548 tag selects the RFC 4648 alphabet: "f" also encodes as "MY======". */
  lemma VectorRfc3548F()
    ensures EncodeSpec([0x66], "RFC3548", None) == Ok("MY======")
    ensures EncodeSpec([0x66], "RFC3548", None) == EncodeSpec([0x66], "RFC4648", None)
  {
    Rfc3548Encodings([0x66], None);
    Rfc4648Encodings([0x66], None);
    VectorF();
  }

  /** Forced padding on Crockford: "f" encodes as "CR======". */
  lemma CrockfordPaddedF()
    ensures EncodeSpec([0x66], "Crockford", Some(true)) == Ok("CR======")
  {
    CrockfordEncodings([0x66], Some(true));
    QuintetsF();
    SymbolsCR();
    PaddedTwo("CR");
    assert "CR" + "======" == "CR======";
  }

  /** Quintets 12 and 24 are "CR" in Crockford's alphabet. */
  lemma SymbolsCR()
    ensures Symbols(CrockfordAlphabet, [12, 24]) == "CR"
  {
    assert CrockfordAlphabet[12] == 'C' && CrockfordAlphabet[24] == 'R';
  }

  /** Crockford preprocessing leaves `=` in place. */
  lemma CrockfordKeepsPadding()
    ensures Preprocess(Crockford, "CR======") == "CR======"
  {
  }

  lemma CrockfordCR()
    ensures AllIn("CR", CrockfordAlphabet)
  {
    assert CrockfordAlphabet[12] == 'C';
    assert CrockfordAlphabet[24] == 'R';
  }

  lemma PadNotCrockford()
    ensures '=' !in CrockfordAlphabet
  {
    CrockfordSymbols();
  }

  /** `=` is not a Crockford symbol, so lookup stops at the first one. */
  lemma CrockfordLookupPadding()
    ensures Lookup(CrockfordAlphabet, "CR======") == Err(InvalidCharacter('='))
  {
    var s := "CR======";
    assert s[..2] == "CR" && s[2] == '=';
    CrockfordCR();
    PadNotCrockford();
    LookupErr(CrockfordAlphabet, s, 2);
  }

  /** The Crockford decoder rejects the padding its own encoder can emit. */
  lemma CrockfordRejectsPadding()
    ensures DecodeSpec("CR======", "Crockford") == Err(InvalidCharacter('='))
  {
    CrockfordKeepsPadding();
    CrockfordLookupPadding();
  }

  /** So the round trip fails for Crockford with padding forced on. */
  lemma CrockfordPaddedNoRoundTrip()
    ensures EncodeSpec([0x66], "Crockford", Some(true)).Ok?
    ensures DecodeSpec(EncodeSpec([0x66], "Crockford", Some(true)).value, "Crockford") != Ok([0x66])
  {
    CrockfordPaddedF();
    CrockfordRejectsPadding();
  }

  lemma BigEndianSnoc(xs: seq<Byte>, x: Byte)
    ensures BigEndian(xs + [x]) == BigEndian(xs) * 256 + x
  {
    assert (xs + [x])[..|xs|] == xs;
  }

  lemma BigEndianF83E()
    ensures BigEndian([0xf8, 0x3e, 0x7f, 0x83]) == 4164845443
  {
    BigEndianSnoc([], 0xf8);
    assert [] + [0xf8 as Byte] == [0xf8];
    BigEndianSnoc([0xf8], 0x3e);
    assert [0xf8 as Byte] + [0x3e as Byte] == [0xf8, 0x3e];
    BigEndianSnoc([0xf8, 0x3e], 0x7f);
    assert [0xf8 as Byte, 0x3e] + [0x7f as Byte] == [0xf8, 0x3e, 0x7f];
    BigEndianSnoc([0xf8, 0x3e, 0x7f], 0x83);
    assert [0xf8 as Byte, 0x3e, 0x7f] + [0x83 as Byte] == [0xf8, 0x3e, 0x7f, 0x83];
  }

  lemma Base32DigitsStep(v: nat, n: nat, ds: seq<nat>)
    requires n > 0 && Base32Digits(v / 32, n - 1) == ds
    ensures Base32Digits(v, n) == ds + [v % 32]
  {
  }

  lemma DigitsF83E()
    ensures Base32Digits(33318763544, 7) == [31, 0, 31, 7, 31, 0, 24]
  {
    Base32DigitsStep(31, 1, []);
    Base32DigitsStep(992, 2, [31]);
    Base32DigitsStep(31775, 3, [31, 0]);
    Base32DigitsStep(1016807, 4, [31, 0, 31]);
    Base32DigitsStep(32537855, 5, [31, 0, 31, 7]);
    Base32DigitsStep(1041211360, 6, [31, 0, 31, 7, 31]);
    Base32DigitsStep(33318763544, 7, [31, 0, 31, 7, 31, 0]);
  }

  /** The 5-bit groups of f8 3e 7f 83: 32 bits and three fill bits make seven groups. */
  lemma QuintetsF83E()
    ensures Quintets([0xf8, 0x3e, 0x7f, 0x83]) == [31, 0, 31, 7, 31, 0, 24]
  {
    BigEndianF83E();
    assert Pow2(3) == 8;
    QuintetsDigits([0xf8, 0x3e, 0x7f, 0x83], 3, 7, 33318763544);
    DigitsBase32(33318763544, 7);
    DigitsF83E();
  }

  lemma SymbolsF83E()
    ensures Symbols(Rfc4648Alphabet, [31, 0, 31, 7, 31, 0, 24]) == "7A7H7AY"
  {
    assert Rfc4648Alphabet[31] == '7';
    assert Rfc4648Alphabet[0] == 'A';
    assert Rfc4648Alphabet[7] == 'H';
    assert Rfc4648Alphabet[24] == 'Y';
  }

  lemma PaddedF83E()
    ensures Padded("7A7H7AY") == "7A7H7AY="
  {
    assert PadCount(7) == 1;
  }

  /** f8 3e 7f 83 encodes as "7A7H7AY=" under RFC 4648 with padding. */
  lemma VectorF83E()
    ensures EncodeSpec([0xf8, 0x3e, 0x7f, 0x83], "RFC4648", Some(true)) == Ok("7A7H7AY=")
  {
    Rfc4648Encodings([0xf8, 0x3e, 0x7f, 0x83], Some(true));
    QuintetsF83E();
    SymbolsF83E();
    PaddedF83E();
  }
}
