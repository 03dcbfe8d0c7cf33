/**
 * The exceptions the codec and the session raise, as one closed set of
 * error kinds. Python's own ValueError, IndexError, KeyError and
 * AttributeError are listed beside the package's RelpProtocolError, because
 * the code lets them escape unchanged.
 */
module Errors {

  datatype Error =
      /** ValueError: a str.split gave the wrong number of fields to unpack */
    | UnpackError
      /** ValueError: int() of a field that is not a decimal number */
    | NotAnInteger
      /** RelpProtocolError from validate_frame: the txnr is not an integer */
    | BadTxnr
      /** RelpProtocolError from validate_frame: the length is not an integer */
    | BadLength
      /** RelpProtocolError from validate_frame: the command is not [a-zA-Z]{1,32} */
    | BadCommand
      /** RelpProtocolError from validate_frame: length field != payload length */
    | LengthMismatch
      /** RelpProtocolError from decode_batch: the payload is followed by `found`, not a newline */
    | MissingTerminator(found: char)
      /** IndexError: decode_batch reads data[0] of an empty remainder */
    | IndexOutOfRange
      /** AttributeError: an offer without a `commands` header (None.split) */
    | MissingCommands
      /** AckManager.prepare: another caller already waits for this key */
    | AlreadyWaiting
      /** AckManager.put: no event was prepared for this key */
    | NoEvent
      /** KeyError: AckManager.get pops a value that was never delivered */
    | KeyMissing
      /** RelpSession.send: the peer answered with code 500 */
    | Nack(message: string)
      /** NotImplementedError: a command the session's mode does not accept */
    | WrongMode(command: string)
      /** RelpProtocolError: a command the session does not know */
    | UnsupportedCommand(command: string)
}
