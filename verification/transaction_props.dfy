/** Properties of the transaction model: check order, field copying and round trips. */
module TransactionProperties {
  import opened Wrappers
  import opened BitStream
  import opened Decimal
  import opened Transactions

  // ---------------------------------------------------------------- fromJSON

  /** Where a key stands in the checking order. */
  function Position(k: Key): (i: nat)
    ensures i < |Keys| && Keys[i] == k
  {
    match k
    case To => 0
    case From => 1
    case Nonce => 2
    case Value => 3
    case GasFeeCap => 4
    case GasPremium => 5
    case GasLimit => 6
    case Method => 7
    case Params => 8
  }

  /** Every key that comes before `k` in the checking order passed its check. */
  predicate PassedBefore(message: Json, k: Key)
  {
    forall j :: 0 <= j < Position(k) ==> KeyOk(message, Keys[j])
  }

  /** The first key (in checking order) that fails its check decides the error, and names that key. */
  lemma FromJSONFirstFailure(env: Env, message: Json, k: Key)
    requires IsObject(message) && PassedBefore(message, k) && !KeyOk(message, k)
    ensures FromJSON(env, message) == Err(InvalidField(k))
  {
    var i := Position(k);
    if i > 0 { assert KeyOk(message, Keys[0]); }
    if i > 1 { assert KeyOk(message, Keys[1]); }
    if i > 2 { assert KeyOk(message, Keys[2]); }
    if i > 3 { assert KeyOk(message, Keys[3]); }
    if i > 4 { assert KeyOk(message, Keys[4]); }
    if i > 5 { assert KeyOk(message, Keys[5]); }
    if i > 6 { assert KeyOk(message, Keys[6]); }
    if i > 7 { assert KeyOk(message, Keys[7]); }
  }

  /** Conversely, an `InvalidField` error names a failing key all of whose predecessors passed. */
  lemma FromJSONErrorIsFirst(env: Env, message: Json, k: Key)
    requires FromJSON(env, message) == Err(InvalidField(k))
    ensures IsObject(message) && PassedBefore(message, k) && !KeyOk(message, k)
  {
    match k
    case To => case From => case Nonce => case Value => case GasFeeCap =>
    case GasPremium => case GasLimit => case Method => case Params =>
  }

  /** A success means the input was an object and every one of the nine keys passed its check. */
  lemma FromJSONChecksAll(env: Env, message: Json)
    requires FromJSON(env, message).Ok?
    ensures message.JObject?
    ensures forall k: Key :: KeyOk(message, k)
  {
    forall k: Key
      ensures KeyOk(message, k)
    {
      match k
      case To => case From => case Nonce => case Value => case GasFeeCap =>
      case GasPremium => case GasLimit => case Method => case Params =>
    }
  }

  /**
   * With all nine keys valid, only address parsing can fail; on success the result has
   * version Zero and the other fields copied unchanged.
   */
  lemma FromJSONAccepts(env: Env, message: Json)
    requires IsObject(message)
    requires forall k: Key :: KeyOk(message, k)
    ensures var r := FromJSON(env, message);
            && (r.Ok? <==> env.addressFromString(Text(message, To)).Some? &&
                           env.addressFromString(Text(message, From)).Some?)
            && (r.Ok? ==> r.value == Transaction(Zero, env.addressFromString(Text(message, To)).value,
                                                env.addressFromString(Text(message, From)).value,
                                                Number(message, Nonce), Text(message, Value),
                                                Number(message, GasLimit), Text(message, GasFeeCap),
                                                Text(message, GasPremium), Number(message, Method),
                                                Text(message, Params)))
  {
    assert KeyOk(message, To) && KeyOk(message, From) && KeyOk(message, Nonce);
    assert KeyOk(message, Value) && KeyOk(message, GasFeeCap) && KeyOk(message, GasPremium);
    assert KeyOk(message, GasLimit) && KeyOk(message, Method) && KeyOk(message, Params);
  }

  /** Every key of a valid transaction's JSON record passes its check. */
  lemma ToJSONKeysOk(env: Env, t: Transaction)
    requires Valid(t)
    ensures forall k: Key :: KeyOk(ToJSON(env, t), k)
  {
    forall k: Key
      ensures KeyOk(ToJSON(env, t), k)
    {
      ToJSONField(env, t, k);
    }
  }

  /** A string key of the record reads back the string `toJSON` wrote. */
  lemma ToJSONText(env: Env, t: Transaction, k: Key)
    requires Valid(t) && !NumberKey(k)
    ensures KeyOk(ToJSON(env, t), k) && JString(Text(ToJSON(env, t), k)) == Written(env, t, k)
  {
    ToJSONField(env, t, k);
  }

  /** A number key of the record reads back the number `toJSON` wrote. */
  lemma ToJSONNumber(env: Env, t: Transaction, k: Key)
    requires NumberKey(k)
    ensures KeyOk(ToJSON(env, t), k) && JNumber(Number(ToJSON(env, t), k)) == Written(env, t, k)
  {
    ToJSONField(env, t, k);
  }

  /** `fromJSON` undoes `toJSON` for a valid transaction whose addresses survive their text form. */
  lemma JsonRoundTrip(env: Env, t: Transaction)
    requires Valid(t)
    requires env.addressFromString(env.addressToString(t.to)) == Some(t.to)
    requires env.addressFromString(env.addressToString(t.from)) == Some(t.from)
    ensures FromJSON(env, ToJSON(env, t)) == Ok(t)
  {
    ToJSONKeysOk(env, t);
    ToJSONText(env, t, To);
    ToJSONText(env, t, From);
    ToJSONNumber(env, t, Nonce);
    ToJSONText(env, t, Value);
    ToJSONText(env, t, GasFeeCap);
    ToJSONText(env, t, GasPremium);
    ToJSONNumber(env, t, GasLimit);
    ToJSONNumber(env, t, Method);
    ToJSONText(env, t, Params);
    var j := ToJSON(env, t);
    FromJSONAccepts(env, j);
    assert Text(j, To) == env.addressToString(t.to);
    assert Text(j, From) == env.addressToString(t.from);
    assert FromJSON(env, j).Ok?;
    assert t.version == Zero;
  }

  // ---------------------------------------------------------------- fromCBOR

  /** Elements past the tenth are never read. */
  lemma FromCBORIgnoresExtra(env: Env, prefix: NetworkPrefix, items: seq<Cbor>, extra: seq<Cbor>)
    requires |items| >= 10
    ensures FromCBOR(env, prefix, CArray(items + extra)) == FromCBOR(env, prefix, CArray(items))
  {
    var all := items + extra;
    assert forall k :: 0 <= k < 10 ==> all[k] == items[k];
  }

  /** The version is checked before the value's sign byte or any other field. */
  lemma FromCBORVersionFirst(env: Env, prefix: NetworkPrefix, items: seq<Cbor>)
    requires |items| >= 10 && items[0] != CInt(0)
    ensures FromCBOR(env, prefix, CArray(items)) == Err(UnsupportedVersion)
  {
  }

  /** A version-0 array whose value starts with 0x01 is rejected before anything else is read. */
  lemma FromCBORNegativeValue(env: Env, prefix: NetworkPrefix, items: seq<Cbor>)
    requires |items| >= 10 && items[0] == CInt(0)
    requires items[4].CBytes? && |items[4].bytes| > 0 && items[4].bytes[0] == 0x01
    ensures FromCBOR(env, prefix, CArray(items)) == Err(NegativeValue)
  {
  }

  /**
   * On success the three amounts are the big-endian values of all their bytes: only the
   * value's leading byte is sign-checked, so a fee cap or premium that starts with 0x01
   * reads as a positive number. The constructor check never fails.
   */
  lemma FromCBORFields(env: Env, prefix: NetworkPrefix, items: seq<Cbor>)
    requires FromCBOR(env, prefix, CArray(items)).Ok?
    ensures |items| >= 10 && items[4].CBytes? && items[6].CBytes? && items[7].CBytes?
    ensures items[4].bytes == [] || items[4].bytes[0] != 0x01
    ensures var t := FromCBOR(env, prefix, CArray(items)).value;
            && Canonical(t.value) && DecimalValue(t.value) == BigEndian(items[4].bytes)
            && Canonical(t.gasFeeCap) && DecimalValue(t.gasFeeCap) == BigEndian(items[6].bytes)
            && Canonical(t.gasPremium) && DecimalValue(t.gasPremium) == BigEndian(items[7].bytes)
            && items[3] == CInt(t.nonce) && items[5] == CInt(t.gasLimit) && items[8] == CInt(t.methodNum)
            && items[9].CBytes? && t.params == env.base64Encode(items[9].bytes)
            && Some(t.to) == env.addressFromBytes(prefix, items[1].bytes)
            && Some(t.from) == env.addressFromBytes(prefix, items[2].bytes)
  {
  }

  /** `fromCBOR` never fails with the constructor's `InvalidValue`. */
  lemma FromCBORValueValid(env: Env, prefix: NetworkPrefix, decoded: Cbor)
    ensures FromCBOR(env, prefix, decoded) != Err(InvalidValue)
  {
  }

  lemma {:induction false} BigEndianLeadingZero(xs: seq<Byte>)
    ensures BigEndian([0] + xs) == BigEndian(xs)
    decreases |xs|
  {
    if xs != [] {
      var init := xs[..|xs| - 1];
      assert ([0] + xs)[..|xs|] == [0] + init;
      BigEndianLeadingZero(init);
    }
  }

  /** A leading 0x00 sign byte contributes nothing to a decoded amount. */
  lemma SignByteZero(xs: seq<Byte>)
    ensures DecodeBigNum([0] + xs) == DecodeBigNum(xs)
  {
    BigEndianLeadingZero(xs);
  }

  // ---------------------------------------------------------------- round trip through the wire array

  /** What `serializeBigNum(s, 10)` must do for a decimal string `s`: the magnitude, and no negative sign byte. */
  predicate EncodesBigNum(env: Env, s: string)
  {
    AllDigits(s) && BigEndian(env.serializeBigNum(s)) == DecimalValue(s) && !SignNegative(CBytes(env.serializeBigNum(s)))
  }

  lemma DecodeEncodedBigNum(env: Env, s: string)
    requires Canonical(s) && EncodesBigNum(env, s)
    ensures DecodeBigNum(env.serializeBigNum(s)) == s
  {
    ValueString(s);
  }

  /** The elements have the kinds `fromCBOR` reads them as. */
  predicate WellKinded(items: seq<Cbor>)
  {
    && |items| >= 10
    && items[1].CBytes? && items[2].CBytes? && items[3].CInt? && items[4].CBytes? && items[5].CInt?
    && items[6].CBytes? && items[7].CBytes? && items[8].CInt? && items[9].CBytes?
  }

  /**
   * A version-0, well-kinded array with a non-negative value decodes exactly when both
   * addresses parse, and then into the fields read positionally.
   */
  lemma FromCBORAccepts(env: Env, prefix: NetworkPrefix, items: seq<Cbor>)
    requires WellKinded(items) && items[0] == CInt(0) && !SignNegative(items[4])
    ensures var r := FromCBOR(env, prefix, CArray(items));
            var to, from := env.addressFromBytes(prefix, items[1].bytes), env.addressFromBytes(prefix, items[2].bytes);
            && (r.Ok? <==> to.Some? && from.Some?)
            && (r.Ok? ==> r.value == Transaction(Zero, to.value, from.value, items[3].i, DecodeBigNum(items[4].bytes),
                                                items[5].i, DecodeBigNum(items[6].bytes), DecodeBigNum(items[7].bytes),
                                                items[8].i, env.base64Encode(items[9].bytes)))
  {
    DigitsNoSign(DecodeBigNum(items[4].bytes));
  }

  /**
   * `fromCBOR` undoes `serialize` when the amounts are canonical decimals and the
   * collaborators invert each other on this transaction's fields.
   */
  lemma CborRoundTrip(env: Env, prefix: NetworkPrefix, t: Transaction)
    requires Canonical(t.value) && Canonical(t.gasFeeCap) && Canonical(t.gasPremium)
    requires EncodesBigNum(env, t.value) && EncodesBigNum(env, t.gasFeeCap) && EncodesBigNum(env, t.gasPremium)
    requires env.addressFromBytes(prefix, env.addressToBytes(t.to)) == Some(t.to)
    requires env.addressFromBytes(prefix, env.addressToBytes(t.from)) == Some(t.from)
    requires env.base64Encode(env.base64Decode(t.params)) == t.params
    ensures FromCBOR(env, prefix, Serialize(env, t)) == Ok(t)
  {
    var items := Serialize(env, t).items;
    assert items[0] == CInt(0) && items[4] == CBytes(env.serializeBigNum(t.value));
    assert WellKinded(items);
    DecodeEncodedBigNum(env, t.value);
    DecodeEncodedBigNum(env, t.gasFeeCap);
    DecodeEncodedBigNum(env, t.gasPremium);
    FromCBORAccepts(env, prefix, items);
    assert items[1].bytes == env.addressToBytes(t.to) && items[2].bytes == env.addressToBytes(t.from);
    assert items[3].i == t.nonce && items[5].i == t.gasLimit && items[8].i == t.methodNum;
    assert DecodeBigNum(items[4].bytes) == t.value;
    assert DecodeBigNum(items[6].bytes) == t.gasFeeCap;
    assert DecodeBigNum(items[7].bytes) == t.gasPremium;
    assert env.base64Encode(items[9].bytes) == t.params;
    assert t.version == Zero;
  }

  /**
   * The constructor accepts a value with leading zeros, but the wire form keeps only its
   * magnitude: "007" comes back as "7".
   */
  lemma LeadingZerosLost(env: Env, prefix: NetworkPrefix, t: Transaction)
    requires t.value == "007" && EncodesBigNum(env, t.value)
    ensures Valid(t)
    ensures FromCBOR(env, prefix, Serialize(env, t)) != Ok(t)
    ensures FromCBOR(env, prefix, Serialize(env, t)).Ok? ==> FromCBOR(env, prefix, Serialize(env, t)).value.value == "7"
  {
    var r := FromCBOR(env, prefix, Serialize(env, t));
    var s: string := "007";
    assert s[..2] == "00" && "00"[..1] == "0" && "0"[..0] == [];
    assert DecimalValue(s) == 7;
    if r.Ok? {
      FromCBORFields(env, prefix, Serialize(env, t).items);
      ValueString("7");
      ValueString(r.value.value);
    }
  }
}
