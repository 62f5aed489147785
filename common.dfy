/** The `presence` and `byteOrder` enumerations shared by every schema element. */
module Common {
  import opened Wrappers

  /** The `presence` attribute of a type or field. */
  datatype Presence = Required | Optional | Constant

  /** The string value each `Presence` member carries. */
  function PresenceText(p: Presence): string
  {
    match p
    case Required => "required"
    case Optional => "optional"
    case Constant => "constant"
  }

  /** `Presence(s)`: look a member up by its value; any other string raises ValueError. */
  function PresenceFromText(s: string): Result<Presence>
  {
    if s == "required" then Ok(Required)
    else if s == "optional" then Ok(Optional)
    else if s == "constant" then Ok(Constant)
    else Err(ValueError)
  }

  /**
   * Exactly the three member values are accepted, each names its own member,
   * and every other string is refused with ValueError.
   */
  lemma PresenceFromTextExact(s: string)
    ensures PresenceFromText(s).Ok? <==> s in {"required", "optional", "constant"}
    ensures PresenceFromText(s).Ok? ==> PresenceText(PresenceFromText(s).value) == s
    ensures PresenceFromText(s).Err? ==> PresenceFromText(s).error == ValueError
  {
  }

  lemma PresenceRoundTrip(p: Presence)
    ensures PresenceFromText(PresenceText(p)) == Ok(p)
  {
  }

  /** The `byteOrder` attribute of a message schema. */
  datatype ByteOrder = BigEndian | LittleEndian

  function ByteOrderText(b: ByteOrder): string
  {
    match b
    case BigEndian => "bigEndian"
    case LittleEndian => "littleEndian"
  }

  /** The Python member name, which diagnostics print (`byte_order.name`). */
  function ByteOrderName(b: ByteOrder): string
  {
    match b
    case BigEndian => "BIG_ENDIAN"
    case LittleEndian => "LITTLE_ENDIAN"
  }

  /** `ByteOrder(s)`: only the two member values are accepted. */
  function ByteOrderFromText(s: string): Result<ByteOrder>
  {
    if s == "bigEndian" then Ok(BigEndian)
    else if s == "littleEndian" then Ok(LittleEndian)
    else Err(ValueError)
  }

  lemma ByteOrderFromTextExact(s: string)
    ensures ByteOrderFromText(s).Ok? <==> s in {"bigEndian", "littleEndian"}
    ensures ByteOrderFromText(s).Ok? ==> ByteOrderText(ByteOrderFromText(s).value) == s
    ensures ByteOrderFromText(s).Err? ==> ByteOrderFromText(s).error == ValueError
  {
  }

  lemma ByteOrderRoundTrip(b: ByteOrder)
    ensures ByteOrderFromText(ByteOrderText(b)) == Ok(b)
  {
  }
}
