/** The values the SMS codec exchanges with its callers. */
module SmsTypes {
  import opened Bits
  import opened Wrappers
  import Gsm7
  import SmsTime

  datatype SmsError =
    | InvalidRecipient
    | EmptyText
    | TextContainsNul
    | TooLong
    | NoReference          // the random source failed
    | InvalidHeader
    | NoUserData
    | EmptyTpdu
    | TooShort
    | Truncated
    | UnsupportedType
    | InvalidAddress
    | InvalidText

  datatype Direction = Received | Submitted | StatusReport | UnknownDirection

  /** Character sets the fallback text detection can report. */
  datatype Charset = Utf8 | Gb18030 | Latin1

  datatype Encoding = Gsm7Text | Gsm7Pdu | Ucs2Pdu | EightBitPdu | Detected(charset: Charset) | UnknownEncoding

  datatype ConcatInfo = ConcatInfo(reference: nat, total: nat, sequence: nat)

  /** A decoded message; a field keeps its initial value until the decoder reaches it. */
  datatype Message = Message(
    direction: Direction,
    from: string,
    to: string,
    text: string,
    encoding: Encoding,
    reference: Option<Byte>,
    concat: Option<ConcatInfo>,
    protocolId: Byte,
    codingScheme: Byte,
    serviceCentre: string,
    serviceCentreTime: Option<SmsTime.Timestamp>,
    dischargeTime: Option<SmsTime.Timestamp>,
    status: Option<Byte>,
    deliveryStatus: Option<DeliveryStatus>)

  const BLANK := Message(UnknownDirection, "", "", "", UnknownEncoding, None, None, 0, 0, "", None, None, None, None)

  datatype DeliveryStatus = Delivered | TemporaryError | PermanentError | TemporaryErrorNoRetry | ReservedStatus

  /** The alphabet in force and the services the codec gets from libraries: which
      characters print, decoding with a national language table (locking shift,
      single shift), and detection of other character sets. */
  datatype Codec = Codec(
    alphabet: Gsm7.Alphabet,
    encoder: Gsm7.Encoder,
    printable: char -> bool,
    national: (seq<Byte>, Option<Byte>, Option<Byte>) -> (string, bool),
    detect: seq<Byte> -> Option<(string, Charset)>)
  {
    ghost predicate Valid() {
      alphabet.Valid() && Gsm7.IsEncoder(alphabet, encoder)
    }
  }
}
