/** The client's errors (`src/error.rs`). */
module Errors {
  import opened Wire
  import opened Pdu

  /** Error kinds; the messages are left out. */
  datatype ModbusError =
    | Timeout
    | Connection
    | Protocol
    | ExceptionError(fc: Byte, code: Byte)
    | Serial
    | Other

  /** The result of one request. */
  type Outcome = Result<Response, ModbusError>
}
