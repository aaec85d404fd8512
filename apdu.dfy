/** Command and response APDUs (ISO/IEC 7816-4) as the emulator handles them, and the
    protocol constants of ISOProtocol, which this model keeps as parameters. */
module Apdu {

  datatype Option<+T> = None | Some(value: T)

  /** An unsigned 8-bit value, as written to and read from a socket stream. */
  newtype byte = x: int | 0 <= x < 256

  /** The hexadecimal rendering of a byte array, two digits per byte. */
  type Hex = seq<char>

  /** A command APDU together with its rendering by Utils.toHexString. The rendering is
      not computed here: the two views are carried side by side and nothing links them. */
  datatype CommandApdu = CommandApdu(bytes: seq<byte>, hex: Hex)

  /** A response APDU: Utils.hexStringToByteArray applied to a hex string (left
      uninterpreted, so identified with that string), bytes received from the relay
      peer, or the null the relay produces when it has no answer. */
  datatype ResponseApdu = FromHex(hex: Hex) | Raw(bytes: seq<byte>) | Absent

  /** The ten instruction codes the emulator recognises. */
  datatype Ins =
    | Select
    | ReadBinary
    | WriteBinary
    | UpdateBinary
    | ReadRecord
    | ReadNdef
    | PerformSecurityOperation
    | GetProcessingOptions
    | GenerateApplicationCryptogram
    | GetData

  /** The constants of ISOProtocol: the minimum hex length of a command, the INS code of
      each recognised instruction and the status words the resolver answers with. */
  datatype Protocol = Protocol(
    minApduLength: nat,
    insSelect: Hex,
    insReadBinary: Hex,
    insWriteBinary: Hex,
    insUpdateBinary: Hex,
    insReadRecord: Hex,
    insReadNdef: Hex,
    insPerformSecurityOperation: Hex,
    insGetProcessingOptions: Hex,
    insGenerateApplicationCryptogram: Hex,
    insGetData: Hex,
    swCommandAborted: Hex,
    swFileNotFound: Hex,
    swRecordNotFound: Hex,
    swInsNotSupportedOrInvalid: Hex)

  /** The INS constant of an instruction. */
  function Code(p: Protocol, ins: Ins): Hex
  {
    match ins
    case Select => p.insSelect
    case ReadBinary => p.insReadBinary
    case WriteBinary => p.insWriteBinary
    case UpdateBinary => p.insUpdateBinary
    case ReadRecord => p.insReadRecord
    case ReadNdef => p.insReadNdef
    case PerformSecurityOperation => p.insPerformSecurityOperation
    case GetProcessingOptions => p.insGetProcessingOptions
    case GenerateApplicationCryptogram => p.insGenerateApplicationCryptogram
    case GetData => p.insGetData
  }

  /** What the model assumes of the constants it does not see: every INS code is one
      byte (two hex digits) and the codes are pairwise distinct (they label the cases of
      one Java switch); the status words are pairwise distinct; and the minimum length
      covers CLA and INS, so that taking the INS digits of a valid command is defined. */
  ghost predicate WellFormed(p: Protocol)
  {
    && p.minApduLength >= 4
    && (forall ins :: |Code(p, ins)| == 2)
    && (forall a, b :: a != b ==> Code(p, a) != Code(p, b))
    && p.swCommandAborted != p.swFileNotFound
    && p.swCommandAborted != p.swRecordNotFound
    && p.swCommandAborted != p.swInsNotSupportedOrInvalid
    && p.swFileNotFound != p.swRecordNotFound
    && p.swFileNotFound != p.swInsNotSupportedOrInvalid
    && p.swRecordNotFound != p.swInsNotSupportedOrInvalid
  }

  /** The framing rule applied before anything else: at least the minimum length and an
      even number of hex digits. */
  predicate ValidFrame(p: Protocol, hex: Hex)
  {
    !(|hex| < p.minApduLength || |hex| % 2 != 0)
  }

  /** The switch on the INS digits (the second header byte): the instruction whose
      constant equals them, tried in the order of the source's cases. */
  function Classify(p: Protocol, insDigits: Hex): (r: Option<Ins>)
    ensures r.Some? ==> Code(p, r.value) == insDigits
    ensures r.None? ==> forall ins :: Code(p, ins) != insDigits
  {
    if insDigits == p.insSelect then Some(Select)
    else if insDigits == p.insReadBinary then Some(ReadBinary)
    else if insDigits == p.insWriteBinary then Some(WriteBinary)
    else if insDigits == p.insUpdateBinary then Some(UpdateBinary)
    else if insDigits == p.insReadRecord then Some(ReadRecord)
    else if insDigits == p.insReadNdef then Some(ReadNdef)
    else if insDigits == p.insPerformSecurityOperation then Some(PerformSecurityOperation)
    else if insDigits == p.insGetProcessingOptions then Some(GetProcessingOptions)
    else if insDigits == p.insGenerateApplicationCryptogram then Some(GenerateApplicationCryptogram)
    else if insDigits == p.insGetData then Some(GetData)
    else None
  }

  /** With distinct constants the switch finds exactly the instruction whose code it is given. */
  lemma ClassifyCode(p: Protocol, ins: Ins)
    requires WellFormed(p)
    ensures Classify(p, Code(p, ins)) == Some(ins)
  {
  }
}
