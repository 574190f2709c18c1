/**
 * A Filecoin transaction message: the constructor's value check, decoding from a
 * decoded CBOR array and from a JSON object, and the two projections back (the JSON
 * record and the 10-element array that is CBOR-encoded for signing).
 *
 * Addresses, base64 and the big-number serializer are collaborators whose code is not
 * part of this model: they appear as the function-valued fields of `Env`.
 */
module Transactions {
  import opened Wrappers
  import opened BitStream
  import opened Decimal

  /** An address; its text and byte forms are produced and parsed by `Env`. */
  type Address(==)

  /** The network an address is rendered for (mainnet or testnet). */
  type NetworkPrefix(==)

  /** Message versions; only version 0 exists. */
  datatype TxVersion = Zero

  datatype Transaction = Transaction(
    version: TxVersion,
    to: Address,
    from: Address,
    nonce: int,
    value: string,
    gasLimit: int,
    gasFeeCap: string,
    gasPremium: string,
    methodNum: int,
    params: string)

  /** The errors the source throws, one constructor per distinct check. */
  datatype TxError =
    | InvalidValue             // constructor: value empty or negative
    | NotAnArray               // fromCBOR: decoded value is not an array
    | MissingFields            // fromCBOR: fewer than 10 elements
    | UnsupportedVersion       // fromCBOR: version is not Zero
    | NegativeValue            // fromCBOR: value starts with the sign byte 0x01
    | FieldType(index: nat)    // fromCBOR: element of the wrong kind
    | InvalidAddress(key: Key)   // address parsing failed
    | NotAnObject              // fromJSON: not an object, or null
    | InvalidField(key: Key)     // fromJSON: key missing or of the wrong type

  /** The shape of a decoded CBOR item, as far as the transaction reads it. */
  datatype Cbor = CInt(i: int) | CBytes(bytes: seq<Byte>) | CText(text: string) | CArray(items: seq<Cbor>) | COther

  /** A parsed JSON value; numbers are integers here. */
  datatype Json =
    | JNull
    | JBool(b: bool)
    | JNumber(n: int)
    | JString(s: string)
    | JArray(elems: seq<Json>)
    | JObject(fields: map<string, Json>)

  /** The collaborators: address parsing and rendering, base64, and `serializeBigNum(_, 10)`. */
  datatype Env = Env(
    addressFromString: string -> Option<Address>,
    addressFromBytes: (NetworkPrefix, seq<Byte>) -> Option<Address>,
    addressToBytes: Address -> seq<Byte>,
    addressToString: Address -> string,
    base64Encode: seq<Byte> -> string,
    base64Decode: string -> seq<Byte>,
    serializeBigNum: string -> seq<Byte>)

  // ---------------------------------------------------------------- construction

  /** The constructor's invariant: `value` is not empty and has no minus sign. */
  predicate ValidValue(value: string)
  {
    value != "" && '-' !in value
  }

  predicate Valid(t: Transaction)
  {
    ValidValue(t.value)
  }

  /** `new Transaction(...)`: every field as given, or `InvalidValue`. */
  function NewTransaction(version: TxVersion, to: Address, from: Address, nonce: int, value: string,
                          gasLimit: int, gasFeeCap: string, gasPremium: string, methodNum: int, params: string)
    : (r: Result<Transaction, TxError>)
    ensures r.Ok? <==> value != "" && '-' !in value
    ensures r.Ok? ==> Valid(r.value)
    ensures r.Ok? ==> r.value == Transaction(version, to, from, nonce, value, gasLimit, gasFeeCap, gasPremium, methodNum, params)
    ensures r.Err? ==> r.error == InvalidValue
  {
    if value == "" || '-' in value then Err(InvalidValue)
    else Ok(Transaction(version, to, from, nonce, value, gasLimit, gasFeeCap, gasPremium, methodNum, params))
  }

  // ---------------------------------------------------------------- from CBOR

  /** bn.js reading of a byte string as hexadecimal, rendered in base 10. */
  function DecodeBigNum(raw: seq<Byte>): (s: string)
    ensures Canonical(s) && ValidValue(s)
    ensures DecimalValue(s) == BigEndian(raw)
  {
    DecimalStringCanonical(BigEndian(raw));
    DecimalStringValue(BigEndian(raw));
    DecimalString(BigEndian(raw))
  }

  /** The value's first byte is the negative sign octet. */
  predicate SignNegative(c: Cbor)
    ensures SignNegative(c) ==> c.CBytes?
    ensures c.CBytes? && c.bytes == [] ==> !SignNegative(c)
    ensures c.CBytes? && c.bytes != [] ==> (SignNegative(c) <==> c.bytes[0] == 0x01)
  {
    c.CBytes? && |c.bytes| > 0 && c.bytes[0] == 0x01
  }

  /**
   * `fromCBOR` on the decoded item: shape, version and sign guards, then the fields in
   * positional order.
   */
  function FromCBOR(env: Env, prefix: NetworkPrefix, decoded: Cbor): (r: Result<Transaction, TxError>)
    ensures !decoded.CArray? ==> r == Err(NotAnArray)
    ensures decoded.CArray? && |decoded.items| < 10 ==> r == Err(MissingFields)
    ensures r.Ok? ==> decoded.CArray? && |decoded.items| >= 10 && decoded.items[0] == CInt(0)
    ensures r.Ok? ==> Valid(r.value) && r.value.version == Zero
  {
    if !decoded.CArray? then Err(NotAnArray)
    else if |decoded.items| < 10 then Err(MissingFields)
    else
      var items := decoded.items;
      if items[0] != CInt(0) then Err(UnsupportedVersion)
      else if SignNegative(items[4]) then Err(NegativeValue)
      else if !items[4].CBytes? then Err(FieldType(4))
      else if !items[6].CBytes? then Err(FieldType(6))
      else if !items[7].CBytes? then Err(FieldType(7))
      else if !items[1].CBytes? then Err(FieldType(1))
      else
        match env.addressFromBytes(prefix, items[1].bytes)
        case None => Err(InvalidAddress(To))
        case Some(to) =>
          if !items[2].CBytes? then Err(FieldType(2))
          else
            match env.addressFromBytes(prefix, items[2].bytes)
            case None => Err(InvalidAddress(From))
            case Some(from) =>
              if !items[3].CInt? then Err(FieldType(3))
              else if !items[5].CInt? then Err(FieldType(5))
              else if !items[8].CInt? then Err(FieldType(8))
              else if !items[9].CBytes? then Err(FieldType(9))
              else
                NewTransaction(Zero, to, from, items[3].i, DecodeBigNum(items[4].bytes), items[5].i,
                               DecodeBigNum(items[6].bytes), DecodeBigNum(items[7].bytes), items[8].i,
                               env.base64Encode(items[9].bytes))
  }

  // ---------------------------------------------------------------- from JSON

  /** The nine keys of the JSON record. */
  datatype Key = To | From | Nonce | Value | GasFeeCap | GasPremium | GasLimit | Method | Params

  /** The key's spelling in the JSON object. */
  function Name(k: Key): (s: string)
  {
    match k
    case To => "To"
    case From => "From"
    case Nonce => "Nonce"
    case Value => "Value"
    case GasFeeCap => "GasFeeCap"
    case GasPremium => "GasPremium"
    case GasLimit => "GasLimit"
    case Method => "Method"
    case Params => "Params"
  }

  /** The order in which `fromJSON` checks the keys. */
  const Keys: seq<Key> := [To, From, Nonce, Value, GasFeeCap, GasPremium, GasLimit, Method, Params]

  /** The keys whose value must be a number; the others must be strings. */
  predicate NumberKey(k: Key)
  {
    k == Nonce || k == GasLimit || k == Method
  }

  /** `typeof message === 'object' && message != null`: objects and arrays. */
  predicate IsObject(message: Json)
    ensures IsObject(message) <==> !(message.JNull? || message.JBool? || message.JNumber? || message.JString?)
  {
    message.JObject? || message.JArray?
  }

  /** `key in message`; an array has no entry under any of the nine names. */
  function Field(message: Json, k: Key): (f: Option<Json>)
    ensures f.Some? <==> message.JObject? && Name(k) in message.fields
    ensures f.Some? ==> f.value == message.fields[Name(k)]
  {
    if message.JObject? && Name(k) in message.fields then Some(message.fields[Name(k)]) else None
  }

  /** The check `fromJSON` makes on one key: present, of its type, and for `Value` not empty or negative. */
  predicate KeyOk(message: Json, k: Key)
    ensures KeyOk(message, k) <==>
      Field(message, k).Some? &&
      ((NumberKey(k) && Field(message, k).value.JNumber?) ||
       (!NumberKey(k) && Field(message, k).value.JString? && (k == Value ==> ValidValue(Field(message, k).value.s))))
  {
    match Field(message, k)
    case Some(JNumber(_)) => NumberKey(k)
    case Some(JString(s)) => !NumberKey(k) && (k == Value ==> ValidValue(s))
    case _ => false
  }

  /** The string under a key that passed its check. */
  function Text(message: Json, k: Key): (s: string)
    requires KeyOk(message, k) && !NumberKey(k)
  {
    Field(message, k).value.s
  }

  /** The number under a key that passed its check. */
  function Number(message: Json, k: Key): (n: int)
    requires KeyOk(message, k) && NumberKey(k)
  {
    Field(message, k).value.n
  }

  /** `fromJSON`: the object check, the nine key checks in order, then address parsing. */
  function FromJSON(env: Env, message: Json): (r: Result<Transaction, TxError>)
    ensures !IsObject(message) ==> r == Err(NotAnObject)
    ensures r.Ok? ==> Valid(r.value) && r.value.version == Zero
  {
    if !IsObject(message) then Err(NotAnObject)
    else if !KeyOk(message, To) then Err(InvalidField(To))
    else if !KeyOk(message, From) then Err(InvalidField(From))
    else if !KeyOk(message, Nonce) then Err(InvalidField(Nonce))
    else if !KeyOk(message, Value) then Err(InvalidField(Value))
    else if !KeyOk(message, GasFeeCap) then Err(InvalidField(GasFeeCap))
    else if !KeyOk(message, GasPremium) then Err(InvalidField(GasPremium))
    else if !KeyOk(message, GasLimit) then Err(InvalidField(GasLimit))
    else if !KeyOk(message, Method) then Err(InvalidField(Method))
    else if !KeyOk(message, Params) then Err(InvalidField(Params))
    else
      match env.addressFromString(Text(message, To))
      case None => Err(InvalidAddress(To))
      case Some(to) =>
        match env.addressFromString(Text(message, From))
        case None => Err(InvalidAddress(From))
        case Some(from) =>
          NewTransaction(Zero, to, from, Number(message, Nonce), Text(message, Value), Number(message, GasLimit),
                         Text(message, GasFeeCap), Text(message, GasPremium), Number(message, Method),
                         Text(message, Params))
  }

  // ---------------------------------------------------------------- projections

  /** Recovers a key from its spelling by length and first letter. */
  function KeyOfName(name: string): (k: Key)
  {
    if |name| == 2 then To
    else if |name| == 4 then From
    else if |name| == 5 then (if name[0] == 'N' then Nonce else Value)
    else if |name| == 9 then GasFeeCap
    else if |name| == 10 then GasPremium
    else if |name| == 8 then GasLimit
    else if |name| == 6 && name[0] == 'M' then Method
    else Params
  }

  /** `KeyOfName` inverts `Name`, so no two keys share a spelling. */
  lemma NameInjective(a: Key, b: Key)
    ensures KeyOfName(Name(a)) == a
    ensures Name(a) == Name(b) ==> a == b
  {
    assert KeyOfName(Name(a)) == a && KeyOfName(Name(b)) == b;
  }

  /** The JSON value `toJSON` writes under each key. */
  function Written(env: Env, t: Transaction, k: Key): (j: Json)
    ensures j.JNumber? <==> NumberKey(k)
    ensures j.JString? <==> !NumberKey(k)
  {
    match k
    case To => JString(env.addressToString(t.to))
    case From => JString(env.addressToString(t.from))
    case Nonce => JNumber(t.nonce)
    case Value => JString(t.value)
    case Params => JString(t.params)
    case GasFeeCap => JString(t.gasFeeCap)
    case GasPremium => JString(t.gasPremium)
    case GasLimit => JNumber(t.gasLimit)
    case Method => JNumber(t.methodNum)
  }

  /** The nine names of the JSON record. */
  function Names(): (names: set<string>)
  {
    set k: Key :: Name(k)
  }

  /** `toJSON`: the nine-key record, each name holding the field of the key it spells. */
  function ToJSON(env: Env, t: Transaction): (j: Json)
    ensures j.JObject? && j.fields.Keys == Names()
  {
    JObject(map name | name in Names() :: Written(env, t, KeyOfName(name)))
  }

  /** `toJSON` writes each key's field under its own name. */
  lemma ToJSONField(env: Env, t: Transaction, k: Key)
    ensures Field(ToJSON(env, t), k) == Some(Written(env, t, k))
  {
    assert Name(k) in Names();
    NameInjective(k, KeyOfName(Name(k)));
  }

  /** The version number written on the wire. */
  function VersionNumber(v: TxVersion): (n: int)
  {
    match v
    case Zero => 0
  }

  /** The array `serialize` hands to the CBOR encoder. */
  function Serialize(env: Env, t: Transaction): (c: Cbor)
    ensures c.CArray? && |c.items| == 10
  {
    CArray([
      CInt(VersionNumber(t.version)),
      CBytes(env.addressToBytes(t.to)),
      CBytes(env.addressToBytes(t.from)),
      CInt(t.nonce),
      CBytes(env.serializeBigNum(t.value)),
      CInt(t.gasLimit),
      CBytes(env.serializeBigNum(t.gasFeeCap)),
      CBytes(env.serializeBigNum(t.gasPremium)),
      CInt(t.methodNum),
      CBytes(env.base64Decode(t.params))])
  }
}
