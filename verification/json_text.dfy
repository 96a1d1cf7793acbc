/** What the JSON modules share: byte texts, their end, and the error codes of the reader. */
module JsonText {

  type Byte = b: int | 0 <= b < 256

  /** A text is a byte string. Its end, like a zero byte in it, reads as `'\0'`. */
  type Text = seq<Byte>

  function Peek(text: Text): Byte {
    if text == [] then 0 else text[0]
  }

  lemma Regrouped(a: Text, b: Text, c: Text)
    ensures a + b + c == a + (b + c)
  {
  }

  datatype ErrorCode =
    | DocumentEmpty
    | DocumentRootNotSingular
    | ValueInvalid
    | ObjectMissName
    | ObjectMissColon
    | ObjectMissCommaOrCurlyBracket
    | ArrayMissCommaOrSquareBracket
    | StringUnicodeEscapeInvalidHex
    | StringUnicodeSurrogateInvalid
    | StringEscapeInvalid
    | StringMissQuotationMark
    | StringInvalidEncoding
    | NumberTooBig
    | NumberMissFraction
    | NumberMissExponent
    | Termination
    | UnspecificSyntaxError

  /** A piece of text that has been read, and the text behind it; or why reading stopped. */
  datatype Lexed<+T> = Lexed(value: T, rest: Text) | Failed(code: ErrorCode)
}
