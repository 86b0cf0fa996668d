/** The error type of the codec and the signature-type registry. */
module Ans104Types {
  import opened Wrappers
  import opened Bytes

  datatype Ans104Error =
    | FieldLength(field: string, actual: nat, expected: nat)
    | InvalidTags(reason: string)
    | Malformed(reason: string)
    | UnsupportedSignatureType(signatureType: nat)
    | SigningFailed
    | Io(reason: string)

  type u16 = x: int | 0 <= x < 0x1_0000

  type bytes32 = bs: seq<byte> | |bs| == 32 witness seq(32, i => 0)

  datatype SigConfig = SigConfig(signatureLen: nat, ownerLen: nat)

  /** The framing lengths of the seven registered signature types. */
  function SigConfigOf(signatureType: u16): Result<SigConfig, Ans104Error> {
    match signatureType
    case 1 => Ok(SigConfig(512, 512))
    case 2 => Ok(SigConfig(64, 32))
    case 3 => Ok(SigConfig(65, 65))
    case 4 => Ok(SigConfig(64, 32))
    case 5 => Ok(SigConfig(64, 32))
    case 6 => Ok(SigConfig(64 * 32 + 4, 32 * 32 + 1))
    case 7 => Ok(SigConfig(65, 42))
    case other => Err(UnsupportedSignatureType(other))
  }
}
