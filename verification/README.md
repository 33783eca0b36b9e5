# libcp2p, verified

A Dafny model of the codecs of libcp2p: the vendored TinyCBOR encoder, pull parser and validator, the
message formats built on them, base32 and multibase, the in-place converters of the JSON exporter,
protobuf content identifiers, and the hash table of argtable3. `dafny verify dfyconfig.toml` checks
everything.

## How it is built

The reference for CBOR is the grammar of RFC 7049 section 2, written as concrete syntax trees
(`Syntax.Cst`) that are in one-to-one correspondence with well-formed bytes. `Serialize` writes a tree,
`ParseItem` reads one, and the two are proved inverse. `WellFormed` is the check of RFC 7049 appendix C on
bytes alone, and accepts the same bytes. `Values` says what a tree means and which tree is canonical, and
`Layout` gives the canonical encoding byte by byte.

The encoder is a class over one buffer with a cursor that turns into a count of missing bytes; a ghost
field records everything emitted. The iterator is a class with the source's fields; `Places` says where
it may stand and where each step takes it, and every method is proved to take it there. Traversal, string
iteration, map lookup, reading back and validation are programs over these two classes, each specified
by the grammar alone. What the validation flags mean is said twice: as the recursion that follows the
source (`Canonical`), and as laws about every item inside an accepted one (`Laws`). Base32 and base64 are
specified by the digits of the 40-bit and 24-bit numbers of RFC 4648 and, character by character, by its
alphabets, UTF-8 by RFC 3629, the hash table by a finite map.

| files | what they hold |
|---|---|
| Wrappers, Bytes, Errors | options, big-endian numbers, errors |
| Syntax, WellFormed, Limits, Values, Layout | the grammar, appendix C, depths and lengths, the data model, the bytes |
| Encoder, EncoderRuns | the encoder and whole runs of it |
| Places, Parser, Strings, StringApi, Traversal, MapLookup, Walk, Reader, Lookup | the iterator and everything built on it |
| Utf8, Canonical, Laws, Validator, Verdicts, KeyOrder | the validator and what its answers are worth |
| Base32, Base32Codec, Base32Stream, Base32Text, Multibase | base32, streaming, characters, multibase |
| InPlace, Base64Text | base16 and base64 inside one buffer, and their characters |
| HashTable | the chained hash table |
| Records, Messages | messages, hello messages, public keys |
| Varint, Cid | varints, protobuf fields, content identifiers |

## Where the source does not do what its documentation says

- The sorting check is documented as part of the canonical form of RFC 7049 section 3.9, but compares the
  numbers in the heads before the bytes. `KeyOrder` gives keys on which the two orders differ and, for all
  keys, the exact condition under which they agree.
- The flag for complete data compares the end of the buffer with the iterator that was passed in, which
  still stands on the item, so validation with that flag never succeeds (`Validator.Validate`).
- The nesting limits of advancing and validating differ by one, and validation also counts tags
  (`Validator.LimitsDiffer`).
- An identifier holds its codec in an int, but the decoder reads it into a char, so codecs outside -128 to
  127, such as 0x90 for an Ethereum block, do not come back (`Cids.CidRoundTrip`).
- The encoder writes the simple value 24 and the parser refuses it (`Messages.Simple24`), so messages and
  keys with types 20 to 31 do not come back.

## Model

| member | source | states |
|---|---|---|
| Syntax.ParseSound | src/tinycbor/cborparser.c:162-189 | Whatever the reference reader accepts at a position is the serialization of the well-formed tree it returns, and it stops exactly behind it |
| Syntax.ParseComplete | src/tinycbor/cborparser.c:162-189 | Wherever the serialization of a well-formed tree sits in a buffer, the reference reader returns that tree and stops behind it |
| Syntax.ParseExact | src/tinycbor/cborparser.c:495-520 | The reference reader succeeds exactly on buffers that start with a well-formed item, and that item is unique |
| Syntax.ContainerSound | src/tinycbor/cborparser.c:598-648 | Definite and indefinite arrays and maps: accepted bytes are head, items and break of the returned tree |
| Syntax.ContainerComplete | src/tinycbor/cborparser.c:598-648 | Every array and map is read back from its bytes, with its own length form |
| Syntax.StringComplete | src/tinycbor/cborparser.c:1013-1060 | Every definite or chunked string is read back from its bytes, chunk by chunk |
| WellFormedness.AppendixC | src/tinycbor/cborparser.c:162-655 | The grammar, with trees, accepts exactly the bytes that the well-formedness check of RFC 7049 appendix C accepts, without trees, and ends at the same byte; indefinite lengths, chunks, breaks and two-byte simple values included |
| Values.ToValueCanon | src/tinycbor/cborencoder.c:273-300 | The canonical tree of a value means that value |
| Values.ParseEncoding | src/tinycbor/cborparser.c:162-189 | Reading the encoding of a value, wherever it sits, gives the value and the number of bytes it has |
| Values.CanonicalIsCanon | src/tinycbor/cborvalidation.c:325-354 | A tree with shortest heads and definite lengths is the canonical tree of its meaning |
| Layouts.EncodingIs | src/tinycbor/cborencoder.c:273-553 | The encoding of every value, byte by byte in literals: initial bytes by major type, numbers in network byte order, contents |
| Layouts.LeastHead | src/tinycbor/cborencoder.c:273-300 | No head with the same number is shorter than the one the encoder writes, and only that one is as short |
| Layouts.CanonCanonical | src/tinycbor/cborvalidation.c:325-354 | What the encoder writes has shortest heads and definite lengths |
| Layouts.CanonicalIff | src/tinycbor/cborvalidation.c:325-354 | A well-formed tree is canonical exactly if it is the canonical tree of its meaning |
| Encoder.CborEncoder.constructor | src/tinycbor/cborencoder.c:203-209 | A fresh encoder has emitted nothing; with a null buffer it only measures |
| Encoder.CborEncoder.Append | src/tinycbor/cborencoder.c:236-267 | The bytes are appended to what has been emitted; the buffer holds exactly the emitted bytes, or the encoder is short by exactly the excess |
| Encoder.CborEncoder.EncodeNumberNoUpdate | src/tinycbor/cborencoder.c:273-300 | Emits the shortest head for the number and major type |
| Encoder.CborEncoder.EncodeUint | src/tinycbor/cborencoder.c:319-321 | Emits the canonical encoding of the unsigned number and counts one item, saturating at zero |
| Encoder.CborEncoder.EncodeNegativeInt | src/tinycbor/cborencoder.c:331-334 | Emits the canonical encoding of the negated number; zero stands for -2^64 |
| Encoder.CborEncoder.EncodeInt | src/tinycbor/cborencoder.c:342-348 | Emits the canonical encoding of any 64-bit signed number |
| Encoder.CborEncoder.EncodeSimpleValue | src/tinycbor/cborencoder.c:357-364 | Emits the simple value, except 25 to 31, which are refused without any change |
| Encoder.CborEncoder.EncodeFloatingPoint | src/tinycbor/cborencoder.c:377-394 | Emits the float with its raw bits |
| Encoder.CborEncoder.EncodeTag | src/tinycbor/cborencoder.c:401-404 | Emits the tag and does not count it as an item |
| Encoder.CborEncoder.EncodeString | src/tinycbor/cborencoder.c:406-412 | Emits the canonical encoding of the byte or text string |
| Encoder.CborEncoder.CreateContainer | src/tinycbor/cborencoder.c:449-476 | The new encoder continues behind the container head, and its counter is one more than the declared number of items |
| Encoder.CborEncoder.CreateMap | src/tinycbor/cborencoder.c:517-522 | Refuses exactly the lengths whose double does not fit, otherwise opens a map |
| Encoder.CborEncoder.CloseContainer | src/tinycbor/cborencoder.c:536-553 | The parent continues behind the container and its break; too few or too many items are reported exactly |
| Encoder.CborEncoder.ExtraBytesNeeded | include/tinycbor/cbor.h:285-288 | The number of missing bytes is the emitted length minus the buffer size |
| Encoder.NumberBytes | src/tinycbor/cborencoder.c:273-300 | The 16-byte scratch buffer yields the shortest big-endian head |
| EncoderRuns.RunOps | src/tinycbor/cborencoder.c:236-553 | Any run of calls, with any nesting, ends with exactly its own error, or has emitted exactly its bytes, and is out of memory exactly if they do not fit |
| EncoderRuns.RunContainer | src/tinycbor/cborencoder.c:452-553 | Creating, filling and closing one container: the error and the bytes are those of the run inside it |
| EncoderRuns.EncodeGrowing | include/tinycbor/cbor.h:285-288 | Space accounting: the reported extra bytes are exactly the excess, and the same run into that much more space succeeds with the run's bytes |
| EncoderRuns.ToOpsRuns | src/tinycbor/cborencoder.c:319-553 | The calls for a value, containers counted right, raise no error and emit its canonical encoding |
| EncoderRuns.EncodeValue | src/tinycbor/cborencoder.c:319-553 | Encoding a value appends its canonical encoding, or is out of memory |
| Parser.CborValue.PreparseValue | src/tinycbor/cborparser.c:211-302 | Succeeds exactly on a complete and legal head, and then the cache holds its type, 16 bits of its number and its flags; end of data and break are reported exactly |
| Parser.CborValue.PreparseSimple | src/tinycbor/cborparser.c:252-288 | The branch for major type 7: refuses exactly two-byte simple values below 32 |
| Parser.CborValue.PreparseNextValueNoDecrement | src/tinycbor/cborparser.c:304-321 | Goes on to the next item or over the break; a break in mid-pair or after a tag is refused |
| Parser.CborValue.PreparseNextValue | src/tinycbor/cborparser.c:323-339 | Counts one item unless it was a tag, then goes on to the place the grammar gives |
| Parser.CborValue.Init | src/tinycbor/cborparser.c:390-400 | The iterator stands on the first item exactly if the buffer starts with a legal head |
| Parser.CborValue.ExtractNumber | src/tinycbor/cborparser.c:162-189 | Reads the number of a head and moves behind it, or fails as the grammar does |
| Parser.CborValue.ExtractInt64 | include/tinycbor/cbor.h:340-344 | The number from the cache or from the bytes is the number of the item |
| Parser.CborValue.DecodeInt64Internal | src/tinycbor/cborparser.c:365-378 | A number of 32 or 64 bits is read from the bytes |
| Parser.CborValue.AdvanceInternal | src/tinycbor/cborparser.c:341-353 | Advances over an item of fixed size to the next place; a tag is passed without counting |
| Parser.CborValue.AdvanceFixed | src/tinycbor/cborparser.c:487-493 | The same, or an error at the end of the container |
| Parser.CborValue.EnterContainer | src/tinycbor/cborparser.c:598-636 | The new iterator stands on the first place inside; lengths beyond the 32-bit counters are refused exactly |
| Parser.CborValue.LeaveContainer | src/tinycbor/cborparser.c:650-655 | The outer iterator goes on behind the container |
| Places.StepAhead | src/tinycbor/cborparser.c:323-339 | What lies ahead of an item is the item and what lies ahead of the place after it |
| Places.EnterAhead | src/tinycbor/cborparser.c:598-636 | What lies ahead of the first place inside a container are its items |
| Walk.MakeCalls | src/tinycbor/cborparser.c:211-1374 | Any program of the calls that move an iterator (advance, advance over a fixed item, skip tags, next chunk, copy or duplicate a string, look up a map key and go on from there, enter and leave) keeps position, count and cache consistent as long as the calls succeed |
| Walk.MakeCall | src/tinycbor/cborparser.c:211-1374 | Every such call keeps the iterator consistent; between the chunks of a string only the next chunk may be asked for |
| Walk.SoundAgrees | src/tinycbor/cborparser.c:211-302 | A consistent iterator is inside the buffer, and on an item its cache says what the bytes say |
| Walk.LookAgain | include/tinycbor/cbor.h:340-344 | Extracting the number again from the bytes gives the number the iterator reports |
| Walk.WalkAnywhere | src/tinycbor/cborparser.c:390-1374 | The same from a fresh parser on any bytes, after any such calls that succeed |
| Traversal.AdvanceRecursive | src/tinycbor/cborparser.c:495-520 | Advances over one whole item exactly if it is well-formed and within the limits, or over a tag head |
| Traversal.AdvanceToEnd | src/tinycbor/cborparser.c:508-518 | Goes over everything left in a container, exactly if all of it is well-formed and within the limits |
| Traversal.Advance | src/tinycbor/cborparser.c:537-542 | Advances to the place behind the item, and fails past the end |
| Traversal.SkipTag | src/tinycbor/cborparser.c:572-579 | Stops on the item under the tags |
| Traversal.SkipItem | src/tinycbor/cborparser.c:537-579 | Skipping tags and advancing passes a whole item, exactly if it is well-formed and within the limits |
| Traversal.FitsIs | src/tinycbor/cborparser.c:495-520 | The recursion stays within its limits exactly if the item nests at most that many containers, definite arrays have less than 2^32 - 1 items and definite maps less than 2^31 pairs; indefinite lengths are free |
| Traversal.SkipFirst | src/tinycbor/cborparser.c:390-542 | Exact grammar: on any bytes, succeeds exactly if the buffer starts with a well-formed item of at most 1024 nested containers and countable definite lengths, and stops exactly behind it |
| Reader.ReadItem | src/tinycbor/cborparser.c:211-655 | Walking an item with the getters rebuilds its value and stops behind it, exactly if it is well-formed and within the limits |
| Reader.GetFixed | include/tinycbor/cbor.h:349-444 | The typed getters return the value of an integer, simple value or float |
| Reader.ReadContainer | src/tinycbor/cborparser.c:598-655 | Entering, reading and leaving a container rebuilds its items |
| Reader.ReadFirst | src/tinycbor/cborparser.c:390-655 | On any bytes, walking the first item by entering and leaving succeeds exactly if the buffer starts with a well-formed item whose definite lengths can be counted, at any depth; it rebuilds the value and uses the item's bytes |
| Limits.DepthBounded | src/tinycbor/cborparser.c:598-655 | An item is never nested deeper than it has bytes, so entering needs no limit of its own |
| Reader.RoundTrip | src/tinycbor/cborencoder.c:273-553 | Parsing undoes encoding: every value tree whose arrays have less than 2^32 - 1 items and whose maps have at most 2^31 - 1 pairs, nested as deep as may be, comes back, and every byte is used |
| Strings.GetStringChunk | src/tinycbor/cborparser.c:1013-1060 | Delivers the next chunk as the range of the buffer it occupies, or the end of the string, or an error if the string is not well-formed |
| Strings.IterateStringChunks | src/tinycbor/cborparser.c:1094-1136 | One loop measures, copies or compares the concatenation of the chunks, and stops on what follows the string |
| StringApi.CopyString | src/tinycbor/cborparser.c:1212-1219 | Copies the concatenation, with a NUL if there is room; succeeds exactly if it fits and the string is well-formed |
| StringApi.CalculateStringLength | src/tinycbor/cborparser.c:989-992 | The length is that of the concatenation |
| StringApi.DupString | src/tinycbor/cborparser_dup_string.c:101-123 | The new buffer is the concatenation and a NUL |
| MapLookup.TextStringEquals | src/tinycbor/cborparser.c:1239-1254 | True exactly if the item, under its tags, is a text string whose concatenation is the text |
| MapLookup.MapFindValue | src/tinycbor/cborparser.c:1328-1374 | On a well-formed map of at most 1025 nested containers and countable lengths: stops on the value of the first pair whose key is the text under any tags and however chunked, and is invalid exactly if there is none |
| Lookups.FindValue | src/tinycbor/cborparser.c:1328-1374 | From bytes to value: finding a key and reading the element is looking the key up in the list of pairs that the map means |
| Lookups.IsTextValue | src/tinycbor/cborparser.c:572-579 | A key matches exactly if its value, without its tags, is the text |
| MapLookup.SearchPair | src/tinycbor/cborparser.c:1337-1365 | One turn of the search either finds the key, or passes key and value |
| MapLookup.PassKey | src/tinycbor/cborparser.c:1338-1356 | Passes a key and says whether it is the text |
| Utf8.GetUtf8 | include/tinycbor/utf8_p.h:32-101 | Returns the one code point whose encoding is the bytes consumed, or fails exactly if no well-formed sequence starts there |
| Utf8.Continuations | include/tinycbor/utf8_p.h:67-90 | Accepts exactly continuation bytes, and joins their bits |
| Utf8.CharIsEncode | include/tinycbor/utf8_p.h:32-101 | Every sequence of the grammar of RFC 3629 section 4 encodes the scalar value its bits spell |
| Utf8.EncodeIsChar | include/tinycbor/utf8_p.h:32-101 | The encoding of every scalar value is a sequence of that grammar |
| Utf8.ValidateUtf8String | src/tinycbor/cborvalidation.c:300-309 | Accepts exactly the concatenations of encodings of scalar values |
| Validator.ValidateNumber | src/tinycbor/cborvalidation.c:325-354 | With the flag, accepts exactly shortest heads |
| Validator.ValidateKind | src/tinycbor/cborvalidation.c:580-668 | Integers, simple values, undefined and floats: accepted exactly if the tree's rule for the item's number holds; simple types no registry knows are refused in the ranges the flags check |
| Validator.ValidateTagUse | src/tinycbor/cborvalidation.c:356-404 | The search of the ascending table of tags accepts exactly the tags and types the flags allow |
| Validator.ValidateChunk | src/tinycbor/cborvalidation.c:588-621 | One chunk: its head, its bytes, its UTF-8 |
| Validator.ValidateString | src/tinycbor/cborvalidation.c:588-621 | Accepts exactly well-formed strings all of whose chunks are acceptable, and stops behind them |
| Validator.ValidateTag | src/tinycbor/cborvalidation.c:622-636 | A tag and what is under it, one level of nesting down |
| Validator.ValidateKey | src/tinycbor/cborvalidation.c:482-540 | A key is accepted exactly if it is valid and in order behind the one before it |
| Validator.CompareKeys | src/tinycbor/cborvalidation.c:508-535 | Comparing numbers and then bytes decides the order of two keys |
| Validator.ValidatePair | src/tinycbor/cborvalidation.c:482-545 | One turn of the loop over a map: key, order and value |
| Validator.ValidateMap | src/tinycbor/cborvalidation.c:473-545 | A whole map: accepted exactly if all keys and values are, and all neighbouring keys are in order |
| Validator.ValidateArray | src/tinycbor/cborvalidation.c:473-545 | A whole array: accepted exactly if all items are |
| Validator.ValidateContainerValue | src/tinycbor/cborvalidation.c:563-579 | Containers, one level of nesting down, with their lengths |
| Validator.ValidateValue | src/tinycbor/cborvalidation.c:549-675 | Accepts exactly the items whose tree is well-formed, shallow enough and acceptable for the flags, and stops behind them |
| Validator.Validate | src/tinycbor/cborvalidation.c:691-699 | The entry point; with the flag for complete data it never succeeds, because it looks at the iterator it was given |
| Validator.ValidateBasic | src/tinycbor/cborparser.c:466-469 | The other traversal, which only advances |
| Validator.TraversalsAgree | src/tinycbor/cborvalidation.c:549-699 | With flags zero, validation reaches the same place as advancing on every item that is no tag, exactly if the item is shallow enough for it |
| Validator.BothTraversals | src/tinycbor/cborvalidation.c:691-699 | On one buffer whose first item is no tag, full validation with flags zero succeeds exactly if the basic one does and there are at most 1023 containers and tags on a path |
| Validator.LimitsDiffer | src/tinycbor/cborvalidation.c:479-480 | The deepest nest of arrays that can be advanced over cannot be validated: the two limits differ by exactly one |
| Validator.ValidateFirst | src/tinycbor/cborvalidation.c:691-699 | On any bytes, succeeds exactly if the first item is well-formed, shallow enough and acceptable for the flags |
| Validator.ValidateCanonical | src/tinycbor/cborvalidation.c:691-699 | Accepted with shortest integers and definite lengths: the bytes are what the encoder writes for the value read |
| Validator.ValidateUnique | src/tinycbor/cborvalidation.c:691-699 | Accepted with unique keys, whatever the other flags: every map at every depth has strictly increasing keys, no two with the same encoding |
| Canonical.ShallowIs | src/tinycbor/cborvalidation.c:473-480 | The recursion stays within its limits exactly if there are fewer containers and tags on a path and the definite lengths can be counted |
| Laws.AcceptLaw | src/tinycbor/cborvalidation.c:549-675 | An item is acceptable exactly if every item in it, at every depth, meets the laws of the flags: no shorter head, definite length, keys never decreasing or increasing, text keys, UTF-8 chunks, registered tags on the right types, known simple values, floats |
| Laws.NeighboursSorted | src/tinycbor/cborvalidation.c:482-545 | Keys are in order as neighbours exactly if all of them are, repeated keys included |
| Laws.TagsLaw | src/tinycbor/cborvalidation.c:356-404 | The search of the table decides which tags are registered and what they may be put on, in literals |
| Laws.ShortestLaw | src/tinycbor/cborvalidation.c:325-354 | The threshold test accepts a head exactly if no well-formed head with the same number has fewer bytes |
| Verdicts.ValidateByLaw | src/tinycbor/cborvalidation.c:691-699 | On any bytes and flags: succeeds exactly if the buffer starts with a well-formed item with at most 1023 containers and tags on a path and countable definite lengths, in which every item meets the laws of the flags |
| Verdicts.CanonicalExactly | src/tinycbor/cborvalidation.c:549-675 | With the flags of canonical form only, acceptable is exactly canonical with sorted maps |
| Verdicts.ValidateEncoding | src/tinycbor/cborvalidation.c:691-699 | What the encoder writes for a value is accepted, with any flags about form, exactly if it is not nested too deeply, can be counted, and has its maps in order where that is checked |
| Canonical.Reencode | src/tinycbor/cborvalidation.c:325-354 | Re-encoding an accepted tree gives the same bytes |
| Canonical.CanonicalUnique | src/tinycbor/cborvalidation.c:325-354 | Two accepted encodings of one value are equal |
| Canonical.KeysIncrease | src/tinycbor/cborvalidation.c:482-545 | Comparing each key with the one before it orders all keys of the map |
| Canonical.UniqueInOrder | src/tinycbor/cborvalidation.c:482-545 | In an accepted item, every map at every depth has strictly increasing keys |
| Canonical.IncreasingKeysDiffer | src/tinycbor/cborvalidation.c:482-545 | So no two keys of a map have the same encoding |
| Canonical.InOrderDistinct | src/tinycbor/cborvalidation.c:482-545 | The same of every map at every depth |
| Canonical.KeyLessTransitive | src/tinycbor/cborvalidation.c:508-535 | The order of keys is transitive |
| Canonical.CompareIsLex | src/tinycbor/cborvalidation.c:522-530 | memcmp and the lengths decide lexicographic order and equality |
| KeyOrder.OrdersDiffer | src/tinycbor/cborvalidation.c:508-535 | The order is not that of RFC 7049 section 3.9: -1 and 10, false and 21, and the arrays [24] and [""] are sorted the other way round |
| KeyOrder.SmallerHead | src/tinycbor/cborvalidation.c:508-535 | Of any two keys with different head numbers, the RFC puts the one with the smaller number first exactly if it is shorter, or as long and with a first byte that is not larger |
| KeyOrder.OrdersAgree | src/tinycbor/cborvalidation.c:508-535 | For all keys the check can come to, the two orders agree on a pair exactly if the pair does not clash: the key with the smaller head number is longer, or as long with a larger first byte; or, with equal numbers, the lexicographically smaller encoding is the longer |
| KeyOrder.PlainClashes | src/tinycbor/cborvalidation.c:508-535 | For integers and strings with shortest heads, a clash is a negative integer before a non-negative one of the same size, or a string before an integer it is not shorter than |
| KeyOrder.NoClash | src/tinycbor/cborvalidation.c:508-535 | The orders always agree on two strings and on two integers of one sign |
| KeyOrder.MapOrder | src/tinycbor/cborvalidation.c:482-545 | A map sorted for the validator, with any keys, is sorted for the RFC exactly if no two of its keys clash |
| KeyOrder.AcceptedOrder | src/tinycbor/cborvalidation.c:482-545 | The same of every map that validation with unique keys accepts |
| Base32.GroupRoundTrip | src/encoding/base32.c:346-416 | A group of one to five bytes, as digits of a 40-bit number with padding, decodes to itself |
| Base32.RoundTrip | src/encoding/base32.c:97-145 | For every byte string, decoding undoes encoding |
| Base32.Encode | src/encoding/base32.c:97-145 | The text has eight characters for every five bytes, rounded up |
| Base32.SplitRight | src/encoding/base32.c:104-138 | The shifts and masks of the encoder give the base-32 digits of the 40-bit number |
| Base32.MergeRight | src/encoding/base32.c:346-416 | The shifts and masks of the decoder give the bytes of the 40-bit number |
| Base32Codec.Base32Encode | src/encoding/base32.c:97-145 | The loop writes the RFC 4648 text, cut off at the end of the buffer, and a NUL if there is room, and nothing else |
| Base32Text.EncodeIs | src/encoding/base32.c:97-145 | Every character of every text: the letter of ABCDEFGHIJKLMNOPQRSTUVWXYZ234567 at the five bits of its place, by division, or the padding character |
| Base32Text.DigitValueIs | src/encoding/base32.c:242-287 | The decoding table is the same string read backwards |
| Base32Text.LetterF | src/encoding/base32.c:97-145 | The letter f becomes MY and six padding characters |
| Base32Text.DecodeGroupIff | src/encoding/base32.c:346-416 | Eight characters decode exactly if two, four, five, seven or eight letters come first and padding behind them |
| Base32Text.DecodeGroupIs | src/encoding/base32.c:346-416 | They decode to the bytes that the places of the letters in the alphabet spell |
| Base32Text.DecodeConcat | src/encoding/base32.c:436-506 | A text decodes group by group, padding in the middle included |
| Base32Text.DecodeBase | src/encoding/base32.c:436-506 | Nothing decodes to nothing, and eight characters as a group |
| Base32Text.DecodeWholeGroups | src/encoding/base32.c:436-506 | A text that is not made of eights does not decode |
| Base32Text.TextIs | src/encoding/base32.c:301-332 | The only character that is skipped is the newline |
| Base32Codec.Decode8 | src/encoding/base32.c:346-416 | Decodes eight characters exactly if they are a group, writing as many bytes as fit |
| Base32Codec.Decode8Bytes | src/encoding/base32.c:346-416 | The nested tests accept exactly the five shapes of a group, byte by byte |
| Base32Stream.DecodeWhole | src/encoding/base32.c:436-506 | Without a context: succeeds exactly on base32 texts, newlines being garbage; in any case the bytes of the good groups in front are in the buffer |
| Base32Stream.Get8 | src/encoding/base32.c:301-332 | Delivers up to eight characters that are no newlines, from the input or through the context, losing none |
| Base32Stream.DecodePiece | src/encoding/base32.c:436-506 | One call with a context decodes the whole groups of what was pending and what came in, and keeps the rest; if a group is bad it fails, with the bytes of the groups before it in the buffer |
| Base32Stream.Flush | src/encoding/base32.c:436-506 | The call without input succeeds exactly if nothing is pending |
| Base32Stream.DecodePieces | src/encoding/base32.c:436-506 | Streaming refines one-shot decoding: any pieces, with newlines anywhere, and a flush all succeed exactly if the newline-free text decodes, and the outputs concatenate to its bytes |
| Base32Stream.RunConcat | src/encoding/base32.c:436-506 | Decoding can stop anywhere and go on with the characters left over |
| Base32Stream.Fits | src/encoding/base32.c:608-610 | A call never decodes more than five bytes for every eight characters it has |
| Multibase.EncodeZeroed | src/encoding/base32.c:554-563 | The length is found by strlen, or is that of the buffer if the text fills it |
| Multibase.MultibaseEncode | src/multibase/multibase.c:22-66 | Succeeds exactly if the base is known and text and prefix fit, and then the buffer holds both |
| Multibase.MultibaseDecode | src/multibase/multibase.c:99-140 | Succeeds exactly on the prefix and a base32 text |
| Multibase.MultibaseRoundTrip | src/multibase/multibase.c:22-162 | With buffers of the sizes the size functions give, decoding undoes encoding for every byte string |
| InPlace.HexInPlace | src/tinycbor/cbortojson.c:173-198 | Although input and output share the buffer, the result is the base16 text and the NUL |
| InPlace.Base64InPlace | src/tinycbor/cbortojson.c:200-272 | Although input and output share the buffer, the result is the base64 or unpadded base64url text, NUL-terminated, for every length |
| InPlace.EnoughRoom | src/tinycbor/cbortojson.c:208-216 | The text never catches up with the bytes still to be read |
| InPlace.ConvertThree | src/tinycbor/cbortojson.c:225-243 | Three bytes, read along with one that is already overwritten, become the four characters of their group |
| InPlace.ConvertRest | src/tinycbor/cbortojson.c:246-269 | The last one or two bytes become their group, with padding or without |
| InPlace.DumpBase16 | src/tinycbor/cbortojson.c:173-198 | From the iterator: the base16 text of the string however chunked, and the iterator behind it |
| InPlace.DumpBase64 | src/tinycbor/cbortojson.c:200-297 | From the iterator: the base64 or base64url text of the string however chunked, and the iterator behind it |
| Base64Text.Base64Is | src/tinycbor/cbortojson.c:200-297 | Every character of every base64 or base64url text: the letter of its alphabet, in literals, at the six bits of its place, or padding |
| Base64Text.Base64Length | src/tinycbor/cbortojson.c:200-297 | Padded, four characters for every three bytes; unpadded, one for every six bits |
| Base64Text.Base64Back | src/tinycbor/cbortojson.c:200-297 | A decoder that looks the letters up in the alphabet gives the bytes back |
| Base64Text.HexIs | src/tinycbor/cbortojson.c:173-198 | Every character of every base16 text: the letter of 0123456789abcdef for each four bits |
| Base64Text.HexBack | src/tinycbor/cbortojson.c:173-198 | Looking the letters up gives the bytes back |
| HashTables.Create | thirdparty/argtable3/arg_hashtable.c:108-142 | The first prime length above the minimum; none exactly for minimums above 2^30 |
| HashTables.HashTable.Expand | thirdparty/argtable3/arg_hashtable.c:144-178 | Moves all entries to the next prime length, keeping them all and each in the bucket of its hash; fails exactly at the last length |
| HashTables.Transfer | thirdparty/argtable3/arg_hashtable.c:163-171 | Moving entries one by one loses and adds none |
| HashTables.HashTable.Insert | thirdparty/argtable3/arg_hashtable.c:184-205 | Adds exactly one entry; the table grows to the next length exactly if the entries with the new one exceed the load limit and there is a next length |
| HashTables.PrimesDouble | thirdparty/argtable3/arg_hashtable.c:83-88 | Each length is larger than the one before it and about twice as large |
| HashTables.PrimesAscend | thirdparty/argtable3/arg_hashtable.c:83-88 | So a later length is always larger |
| HashTables.Fold14Is | thirdparty/argtable3/arg_hashtable.c:91-102 | A step of the mixing folds in a rotation by 14 |
| HashTables.Fold10Is | thirdparty/argtable3/arg_hashtable.c:91-102 | Another folds in a rotation by 10 |
| HashTables.ScaleIs | thirdparty/argtable3/arg_hashtable.c:91-102 | Another multiplies by 17 |
| HashTables.SpreadIs | thirdparty/argtable3/arg_hashtable.c:91-102 | The first sends 0 to -1 and 1 to -512 |
| HashTables.HashTable.Search | thirdparty/argtable3/arg_hashtable.c:207-222 | Finds an entry with an equal key exactly if there is one |
| HashTables.HashTable.Remove | thirdparty/argtable3/arg_hashtable.c:224-252 | Takes out exactly one entry with an equal key if there is one, and changes nothing otherwise |
| HashTables.InBucket | thirdparty/argtable3/arg_hashtable.c:104-106 | An entry is in the table exactly if it is in the bucket of its key's hash |
| HashTables.RunAll | thirdparty/argtable3/arg_hashtable.c:108-252 | Any run of insert, search and remove that keeps keys distinct returns what the finite map returns, and the count is the size of the map |
| Records.OpenArray | src/network/messages.c:170-186 | Fails only if the buffer does not start with an array that can be counted; otherwise what lies ahead are the items of that array |
| Records.TakeSimple | src/network/messages.c:379-396 | Takes the next item, a simple value, leaving the rest ahead; fails only if no simple value comes next |
| Records.TakeInteger | src/network/messages.c:398-415 | Takes the next item, an integer, leaving the rest ahead; fails only if no integer comes next |
| Records.TakeBytes | src/network/messages.c:226-239 | Takes the next item, a byte string however chunked that fits the buffer; fails only if no such string comes next |
| Records.TakePlainBytes | src/network/messages.c:417-435 | Takes the next item, a byte string in one piece; fails only if no such string comes next |
| Records.CloseArray | src/network/messages.c:437-441 | Leaves the array exactly if nothing is left in it |
| Messages.EncodeMessage | src/network/messages.c:294-339 | The 24 bytes of slack always suffice; fails exactly on types 25 to 31 |
| Messages.EncodeHello | src/network/messages.c:111-160 | The 32 bytes of slack suffice exactly unless both lengths reach 2^32 |
| Messages.EncodeKey | src/crypto/key.c:220-267 | The 11 bytes of slack suffice exactly for data up to 65535 bytes |
| Messages.DecodeMessage | src/network/messages.c:356-456 | Succeeds exactly on an array of a simple value, an integer and a byte string in one piece |
| Messages.DecodeHello | src/network/messages.c:165-286 | Succeeds exactly on an array of two lengths and two byte strings that are not longer |
| Messages.DecodeKey | src/crypto/key.c:111-211 | Succeeds exactly on an array of a simple value, a byte string in one piece and an integer |
| Messages.MessageRoundTrip | src/network/messages.c:294-456 | A message comes back exactly if its type is none of 20 to 31 |
| Messages.HelloRoundTrip | src/network/messages.c:111-286 | A hello message comes back exactly if one of its parts is shorter than 2^32 bytes |
| Messages.KeyRoundTrip | src/crypto/key.c:111-267 | A public key comes back exactly if it has at most 65535 bytes and its type is none of 20 to 31 |
| Messages.Simple24 | src/tinycbor/cborparser.c:270-278 | The simple value 24, which the encoder writes, is refused by the parser |
| Messages.MessageLayout | src/network/messages.c:294-339 | The bytes of a message: 0x83, simple value, length, byte string |
| Messages.HelloLayout | src/network/messages.c:111-160 | The bytes of a hello message: 0x84, two lengths, two byte strings |
| Messages.KeyLayout | src/crypto/key.c:220-267 | The bytes of a public key: 0x83, simple value, byte string, length |
| Messages.MessageInIs | src/network/messages.c:356-456 | As values: a message decodes exactly from a simple value outside 20 to 31, any integer and bytes in one piece |
| Messages.HelloInIs | src/network/messages.c:165-286 | As values: a hello message decodes exactly from two lengths and two byte strings that are not longer |
| Messages.KeyInIs | src/crypto/key.c:111-211 | As values: a public key decodes exactly from a simple value outside 20 to 31, bytes in one piece and any integer |
| Varints.EncodingLengthRight | src/protobuf/varint.c:20-35 | The table of powers gives the length of the varint of every 64-bit number |
| Varints.VarintRoundTrip | src/protobuf/varint.c:36-95 | Every 64-bit number followed by any bytes is read back from exactly its own bytes |
| Varints.VarintByte | src/protobuf/varint.c:48-65 | Every byte of every varint: n divided by 128^j, modulo 128, with the high bit on all but the last |
| Varints.VarintEncode | src/protobuf/varint.c:48-65 | The loop writes the varint and nothing in front of it |
| Varints.VarintDecode | src/protobuf/varint.c:75-95 | The loop sums the groups of seven bits modulo 2^64 |
| Varints.EncodeVarintField | src/protobuf/protobuf.c:90-106 | Writes field number, wire type and number |
| Varints.EncodeBytesField | src/protobuf/protobuf.c:11-33 | Writes field number, wire type, length and bytes |
| Varints.FieldHeadIs | src/protobuf/protobuf.c:11-33 | A field starts with its number times eight and the wire type, 0 for a number and 2 for bytes |
| Cids.CidBytes | src/cid/cid.c:19-23 | A buffer of the computed size holds the three fields of every identifier |
| Cids.CidEncode | src/cid/cid.c:25-50 | Writes exactly the three fields |
| Cids.CidLayout | src/cid/cid.c:25-50 | The bytes of every identifier: 0x08 and the version, 0x10 and the codec, 0x1a, the length and the hash |
| Cids.CidSmall | src/cid/cid.c:25-50 | The same for small numbers, byte by byte |
| Cids.WireTypeIgnored | src/cid/cid.c:53-102 | The decoder goes by the field number and ignores the wire type |
| Cids.UnknownField | src/cid/cid.c:53-102 | Of an unknown field the decoder passes only the head |
| Cids.LastWins | src/cid/cid.c:53-102 | Of repeated fields the last one counts |
| Cids.CidDecode | src/cid/cid.c:53-102 | The loop comes to the fields decoded one after the other |
| Cids.DecodeFields | src/cid/cid.c:53-102 | Known fields in any order, repeated or not, are all read, the last of each winning |
| Cids.NarrowWiden | src/cid/cid.c:53-102 | Sign extension to 64 bits and truncation give every version back, and a codec exactly if it fits a char |
| Cids.CidRoundTrip | src/cid/cid.c:19-133 | Every identifier with a hash comes back from a buffer of the computed size with its codec cut to a char; so it survives exactly if its codec is between -128 and 127 |
| Cids.EthereumBlock | src/cid/cid.c:53-102 | The codec 0x90 comes back as -112 |
| Cids.NewCidRoundTrip | src/cid/cid.c:112-133 | Every identifier made by ipfs_cid_new with a hash survives, negative versions and codecs included |

## Left out

- Floating point: floats are raw bits. The checks on floats (shortest form, finite values) are a parameter of the validator, of which nothing is assumed; half-float conversion and the typed float getters are not modelled.
- Pretty printing and the rest of the JSON exporter: printf and stdio around the iterator.
- Parser.CborValue.AdvanceInternal: the branch for strings is not modelled, because no caller reaches it.
- Strings.IterateStringChunks: the check for an overflow of the total length is modelled as an assertion, because in a buffer shorter than 2^64 bytes it cannot fail.
- Validator.ValidateTagUse: the packed list of types a tag allows is modelled as a list.
- Validator.ValidateValue: flag words with the sorting bit 0x200 and without the definite-length bit 0x100 are excluded by `Named`. No constant of the header is such a word, and with one the source compares a number it has not set as soon as a key has an indefinite length.
- Validator.Validate: the same flag words are excluded.
- Validator.ValidateFirst: the same flag words are excluded.
- Verdicts.ValidateByLaw: the same flag words are excluded.
- Verdicts.ValidateEncoding: the same flag words are excluded.
- Validator.ValidateTag: the same flag words are excluded.
- Validator.ValidateKey: the same flag words are excluded.
- Validator.ValidatePair: the same flag words are excluded.
- Validator.ValidateMap: the same flag words are excluded.
- Validator.ValidateArray: the same flag words are excluded.
- Validator.ValidateContainerValue: the same flag words are excluded.
- Records.CloseArray: an array with more items than the decoder takes runs into an assertion of the iterator; the model lets decoding fail there.
- Messages.DecodeMessage: items behind the third run into that assertion.
- Messages.DecodeKey: items behind the third run into that assertion.
- Messages.DecodeHello: items behind the fourth run into that assertion. Lengths below zero or above 2^63 - 1 would be sizes of local arrays, which C does not define; the model lets decoding fail there. Large local arrays are taken to fit the stack.
- HashTables.HashTable.Insert: chains are values that are relinked, not nodes on the heap, so freeing and aliasing of nodes is not captured. The load limit, computed in floating point, is any function of the length, and the count is unbounded.
- HashTables.Create: that the table lengths are prime is not proved.
- HashTables.HashTable.Remove: unlinking makes a new chain value, and freeing is not captured.
- HashTables.HashTable.Expand: moving entries makes new chain values, and freeing the old table is not captured.
- HashTables.Transfer: entries move as values, not as nodes on the heap.
- HashTables.RunAll: runs that insert a key twice are outside the finite map; the source says that they should not be made. The contracts of insert, search and remove cover them.
- Multibase.MultibaseDecode: the base16 and base64 prefixes, for the same reasons as in encoding.
- Multibase.MultibaseEncode: the base16 and base64 prefixes; base64 is a foreign library, and base16 decoding does not set the result length. The multiplication by 1.6 is exact, which a double is for all lengths below 2^45, and sizes are not cut to an int.
- Varints.VarintDecode: numbers of more than ten bytes shift a word beyond its width, which C does not define; the model lets decoding fail there, as it does where the source asserts that the buffer goes on.
- Cids.CidDecode: a length beyond the end of the buffer, or a missing hash field, reads memory that is not there; the model lets decoding fail.
- Cids.CidRoundTrip: an empty hash depends on what malloc returns for zero bytes.
- Memory allocation is taken to succeed, and buffers to be shorter than 2^64 bytes.
- Sockets, threads, the logger, the command line, the cryptographic wrappers, multiaddresses, the peer store, the CID set and the rest of argtable3.
