/** The error codes of the codec (include/tinycbor/cbor.h) that the modelled operations return. */
module Errors {
  datatype CborError =
    | NoError
    | UnknownLength
    | AdvancePastEOF
    | GarbageAtEnd
    | UnexpectedEOF
    | UnexpectedBreak
    | UnknownType
    | IllegalType
    | IllegalNumber
    | IllegalSimpleType
    | UnknownSimpleType
    | UnknownTag
    | InappropriateTagForType
    | InvalidUtf8TextString
    | ExcludedType
    | ExcludedValue
    | OverlongEncoding
    | MapKeyNotString
    | MapNotSorted
    | MapKeysNotUnique
    | TooManyItems
    | TooFewItems
    | DataTooLarge
    | NestingTooDeep
    | OutOfMemory
}
