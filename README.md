# bencoding in Dafny

A model of the Go package `bencoding`, which converts Go values to and from
bencode, the format of BitTorrent metainfo files. The model covers:

- the streaming decoder (`Unmarshal`, `Decoder`, `TorrentDecoder` and
  `UnmarshalTorrent`). It reads from a hashing reader that feeds the bytes of
  the value under the dictionary key `"info"` to a hash.
- the binding of a decoded dictionary onto a struct through its
  `bencoding:"…"` field tags.
- the tag parser.
- the encoder (`Marshal`, `Encoder`, `encodeState`), which writes dictionary
  entries and struct fields in ascending byte order of their keys.

Go values are the `GoValue` datatype of module `Values`. It carries each
kind the package's reflection code tells apart: integers of each width,
strings, byte slices and arrays, slices, arrays, maps, structs with tagged
fields, pointers and interfaces. A decoded item is a `BValue`:

- an int64;
- a string;
- a `[]interface{}`;
- a `map[string]interface{}`.

`Bencode.BEncode` is its canonical encoding. The SHA-1 of the info
value is modelled by the bytes written to the hash, so `UnmarshalTorrent`
returns the hash input.

The imperative parts keep their Go form:

- `HashingReader.Reader` is a class whose position, hashing flag and hash
  input change as bytes are read.
- `Decoder.TorrentDecoder` reads through it.
- `Encoder.EncodeState` appends to its buffer.
- `Sorting.SortInPlace` sorts an array in place.
- `MapBinding.Bind` binds the keys one at a time.

Each method is proved equal to a pure function over the source bytes and
the reader state: `DecodeSpec`, `HashingReader`'s step functions,
`EncodeSpec.Enc`. The properties are proved about those functions, chiefly
these:

- Decoding the canonical encoding of any value gives the value back.
- Marshalling a decoded value writes its canonical encoding.
- The info hash input is exactly the bytes of the info value.
- A tag resolves to the leftmost match of the tag pattern.

## Model

| member | source | states |
|---|---|---|
| Strconv.FormatUintRoundTrip | encode.go:111-122 | the decimal digits AppendUint writes for any uint64 parse back to the same number |
| Strconv.FormatIntRoundTrip | encode.go:98-109 | the decimal text AppendInt writes for any int64 (sign included) parses back with ParseInt to the same number |
| Strconv.FormatUintDigits | encode.go:111-122 | the decimal text of a natural is all digits and has no leading zero unless it is "0" |
| Strconv.FormatIntSign | encode.go:98-109 | the decimal text of an integer starts with '-' exactly when it is negative, and with a digit otherwise |
| Strconv.ParseUint | decode.go:276-293 | ParseUint accepts exactly a non-empty run of digits whose value fits 64 bits, returns that value, and otherwise fails with a syntax or range error |
| Strconv.ScanDigits | decode.go:286 | the digit scan succeeds exactly when the rest is digits within range, with the decimal value |
| Strconv.ParseInt | decode.go:257-274 | a successful ParseInt returns a value in the int64 range; failures are syntax or range errors |
| Strconv.ParseUintRejectsSign | decode.go:286 | ParseUint refuses a leading '+' or '-' with a syntax error |
| Strconv.ParseIntIsLenient | decode.go:267 | ParseInt accepts forms bencode forbids: "007" is 7, "+5" is 5 and "-0" is 0 |
| Strconv.ValueOfFormatUint | encode.go:115 | the value of the digits written for n is n |
| Values.Zero | mapBinding.go:72-76 | the zero referent reflect.New allocates for a type has that type |
| Values.Dyn | decode.go:214-255 | a decoded item held as a Go value has the dynamic type of that item (int64, string, []interface{}, map[string]interface{}) |
| Values.WrapInt | decode.go:270 | SetInt into a narrower integer keeps a value within the width's signed range that is congruent to the decoded one modulo 2^width |
| Values.WrapUint | decode.go:289 | SetUint into a narrower unsigned integer keeps a value below 2^width congruent to the decoded one |
| Values.WrapInRange | decode.go:270 | a value already within the width's range is stored unchanged |
| Values.DynWellTyped | decode.go:214-255 | every decoded item is a well-typed Go value (list elements and map values are interface{} holding well-typed values) |
| Values.ZeroWellTyped | mapBinding.go:72-76 | the zero value of any type is well typed |
| Sorting.LessIrreflexive | encode.go:195-197 | bytes.Compare(a, a) == -1 never holds |
| Sorting.LessAsymmetric | encode.go:195-197 | the byte order is asymmetric |
| Sorting.LessTransitive | encode.go:195-197 | the byte order is transitive |
| Sorting.LessTotal | encode.go:195-197 | two distinct byte strings are ordered one way or the other |
| Sorting.InsertPermutes | encode.go:220 | inserting an element adds exactly that element to the multiset |
| Sorting.InsertSorted | encode.go:220 | inserting into a sorted sequence keeps it sorted |
| Sorting.SortByPermutes | encode.go:220 | sort.Sort permutes its input |
| Sorting.SortBySorted | encode.go:220 | sort.Sort leaves the sequence in ascending key order |
| Sorting.SortDistinct | encode.go:211-220 | sorting distinct keys gives a strictly ascending sequence |
| Sorting.StrictlySortedUnique | encode.go:220 | two strictly ascending sequences with the same elements are equal, so the key order is determined by the key set alone |
| Sorting.SortInPlace | encode.go:189-203 | the in-place sort of the array, through its Len/Less/Swap, leaves the array equal to the sorted sequence |
| Sorting.InsertInPlace | encode.go:199-203 | one insertion pass, by swaps, moves the element to its sorted place among the elements before it |
| Sorting.SortedKeysMembers | encode.go:206-220 | the sorted keys of a map are exactly its keys |
| Sorting.SortedKeysAscending | encode.go:206-220 | the sorted keys of a map are strictly ascending |
| Sorting.SortedEnumeration | encode.go:206-220 | sorting any enumeration of a map's keys gives the same sequence, whatever order MapKeys returned them in |
| Bencode.BEncodeHead | decode.go:219-253 | the first byte of a canonical encoding identifies the kind: 'i' for integers, a digit for strings, 'l' for lists, 'd' for dictionaries |
| TagParsing.RunEnd | tagParsing.go:17 | the end of a run of characters of the class [\w- ] stops at a character outside the class |
| TagParsing.RunEndInClass | tagParsing.go:17 | every character within the run is in the class |
| TagParsing.MatchAtSpec | tagParsing.go:17-19 | matching at a position succeeds exactly when the pattern `bencoding:"([\w- ]*)"` matches there, and then returns the captured group |
| TagParsing.MatchAtSound | tagParsing.go:17-19 | a match reported at a position is a match of the pattern |
| TagParsing.MatchAtComplete | tagParsing.go:17-19 | any match of the pattern at a position is the one reported |
| TagParsing.FindFromLeftmost | tagParsing.go:16-26 | the search returns the group of the leftmost match from a position on, or nothing when no match exists |
| TagParsing.ParseTagLeftmost | tagParsing.go:16-26 | parseTag returns the captured group of the leftmost match in the tag, and nil exactly when the tag has no match |
| TagParsing.TagForFieldNamedSpec | tagParsing.go:8-14 | the tag of a field is the tag of the first field with that name, and "" when no field has it |
| TagParsing.ExtractFieldOptionsUntagged | tagParsing.go:28-33 | a field without a bencoding tag is keyed by its own name |
| TagParsing.ExtractFieldOptionsTagged | tagParsing.go:28-38 | a tagged field's key is empty exactly when the tag value is "" or "-", and is the tag value otherwise |
| TagParsing.ParseTagFindsValue | tagParsing.go:16-26 | `bencoding:"foo"` yields foo; the empty and "-" values are captured too |
| TagParsing.ParseTagRejectsShort | tagParsing.go:16-26 | a tag shorter than the pattern, or with another key, yields nil |
| TagParsing.ParseTagRejectsUnclosed | tagParsing.go:16-26 | a value without its closing quote yields nil |
| TagParsing.ParseTagRejectsMisspelled | tagParsing.go:16-26 | a tag without the colon yields nil |
| HashingReader.Feed | hashingReader.go:22-24 | hashing appends the bytes to the hash input when hashing is on and changes nothing otherwise |
| HashingReader.FeedFeed | hashingReader.go:28-34 | feeding two pieces in turn hashes their concatenation |
| HashingReader.IndexFromSpec | hashingReader.go:29 | the delimiter search finds the first delimiter at or after the position, and fails only when there is none |
| HashingReader.PeekF | hashingReader.go:15-18 | Peek(n) returns the next n bytes without consuming them, and EOF when fewer remain |
| HashingReader.ReadByteSpec | hashingReader.go:20-26 | ReadByte consumes one byte and hashes it iff hashing is on; at the end it returns EOF and changes nothing |
| HashingReader.ReadBytesSpec | hashingReader.go:28-34 | ReadBytes returns the bytes up to and including the first delimiter and hashes exactly those; with no delimiter it consumes the rest, returns EOF and hashes nothing |
| HashingReader.StartStopSpec | hashingReader.go:36-45 | StartHasing installs an empty hash only when not already hashing; StopHashing clears the flag and keeps the hash |
| HashingReader.Reader.constructor | decode.go:51-55 | a new reader is at the start of the source, not hashing, with a nil hash |
| HashingReader.Reader.Peek | hashingReader.go:15-18 | Peek returns what PeekF specifies |
| HashingReader.Reader.ReadByte | hashingReader.go:20-26 | ReadByte updates the position and hash input as ReadByteSpec states |
| HashingReader.Reader.ReadBytes | hashingReader.go:28-34 | the scanning loop returns and hashes what ReadBytesSpec states |
| HashingReader.Reader.StartHashing | hashingReader.go:36-41 | the new state is the one StartStopSpec states for StartHasing |
| HashingReader.Reader.StopHashing | hashingReader.go:43-45 | the new state is the one StartStopSpec states for StopHashing |
| DecodeSpec.PeekByteF | decode.go:86-92 | peek returns the next byte, or EOF at the end of the source |
| DecodeSpec.IntLiteralF | decode.go:257-266 | an integer literal consumes the 'i', the digits and the 'e' |
| DecodeSpec.IntF | decode.go:257-274 | a decoded integer is in the int64 range and at least three bytes were consumed |
| DecodeSpec.UintF | decode.go:276-293 | a decoded unsigned integer fits in 64 bits |
| DecodeSpec.StringF | decode.go:310-326 | a decoded string is no longer than the int64 range allows and the reader has moved forward |
| DecodeSpec.ItemF | decode.go:214-255 | a decoded item always consumes input, and the reader never moves backward |
| DecodeSpec.ListLoopF | decode.go:138-149 | the element loop only appends to the elements decoded so far |
| DecodeSpec.Boxed | decode.go:147 | list elements are stored as interface{} values holding the decoded items, in order |
| DecodeSpec.BoxedMap | decode.go:188 | map entries are stored under the same keys as interface{} values holding the decoded items |
| DecodeLemmas.IntRoundTrip | decode.go:257-274 | decoding the encoding of an int64 gives it back and consumes (and hashes, when on) exactly its bytes |
| DecodeLemmas.UintRoundTrip | decode.go:276-293 | decoding the encoding of a uint64 gives it back and consumes exactly its bytes |
| DecodeLemmas.StringRoundTrip | decode.go:310-326 | decoding the encoding of a string gives it back and consumes exactly its bytes |
| DecodeLemmas.ItemRoundTrip | decode.go:214-255 | decoding the canonical encoding of any representable item gives it back and stops right after it; with no "info" key inside, the bytes hashed are exactly the bytes read |
| DecodeLemmas.ListRoundTrip | decode.go:121-158 | decoding the encoding of a list gives back all its elements in order |
| DecodeLemmas.DictRoundTrip | decode.go:160-203 | decoding the encoding of a dictionary gives back exactly its entries |
| DecodeLemmas.EntryRoundTrip | decode.go:173-189 | a dictionary entry reads back its key and then its value, with hashing switched on for the key "info" |
| DecodeLemmas.ListLoopRoundTrip | decode.go:138-149 | the element loop over the remaining encodings decodes all remaining elements |
| DecodeLemmas.DictLoopRoundTrip | decode.go:167-195 | the entry loop over the remaining encodings stores all remaining entries |
| DecodeLemmas.HeadIsNotEnd | decode.go:139-143 | no encoding begins with 'e', so the loops never mistake an item for the end |
| Decoder.TorrentDecoder.constructor | decode.go:51-59 | a new decoder reads from the start of the data, not hashing, with a nil hash |
| Decoder.TorrentDecoder.Peek | decode.go:86-92 | peek returns what PeekByteF specifies |
| Decoder.TorrentDecoder.UnmarshalInt | decode.go:257-274 | the result and the new reader state are those of IntF |
| Decoder.TorrentDecoder.UnmarshalUint | decode.go:276-293 | the result and the new reader state are those of UintF |
| Decoder.TorrentDecoder.ReadExactly | decode.go:297-308 | the byte-at-a-time loop fills the buffer and stops at EOF as ReadExactlyF states |
| Decoder.TorrentDecoder.UnmarshalString | decode.go:310-326 | the result and the new reader state are those of StringF |
| Decoder.TorrentDecoder.UnmarshalUnknownItem | decode.go:214-255 | the result and the new reader state are those of ItemF |
| Decoder.TorrentDecoder.UnmarshalList | decode.go:121-158 | the elements, error and reader state are those of ListF |
| Decoder.TorrentDecoder.UnmarshalDict | decode.go:160-203 | the entries, error and reader state, hashing of "info" included, are those of DictF |
| Decoder.TorrentDecoder.UnmarshalToVal | decode.go:99-119 | decoding into a pointer's referent dispatches on its kind; the outcome is as Unmarshalled states, including the errors for non-pointers and unsupported kinds |
| Decoder.TorrentDecoder.UnmarshalStruct | decode.go:205-212 | a struct is left unchanged when its dictionary fails to decode; otherwise binding succeeds iff every key binds, and a failure is some failing key's error |
| Decoder.TorrentDecoder.Decode | decode.go:76-84 | Decode returns the error of unmarshal, else the hash input when an info value was hashed, else the missing-info-key error |
| Decoder.PlainDecoder.constructor | decode.go:33-36 | a decoder over a byte slice starts at its first byte |
| Decoder.PlainDecoder.Decode | decode.go:43-45 | Decode is unmarshal into v |
| Decoder.Unmarshal | decode.go:19-22 | Unmarshal decodes from the start of the data into v |
| Decoder.UnmarshalTorrent | decode.go:71-74 | UnmarshalTorrent decodes from the start of the data and returns the hash input of the info value |
| InfoHash.DictHashRoundTrip | decode.go:179-193 | decoding a dictionary whose values hold no "info" key gives it back, and leaves as hash input exactly the encoding of its "info" value (or the earlier hash when there is none) |
| InfoHash.TorrentIntoMap | decode.go:71-84 | UnmarshalTorrent of an encoded dictionary into a map adds its entries and returns the encoding of its info value, or the missing-info-key error |
| InfoHash.HashAfterInfo | decode.go:179-193 | once the "info" entry is read the hash input is the encoding of its value |
| InfoHash.HashAfterNone | decode.go:179-193 | entries with other keys leave the hash input unchanged |
| InfoHash.InfoOnlyEncoding | decode.go:160-203 | a dictionary whose only key is "info" is encoded as d, the key, the value and e |
| InfoHash.NestedInfoStopsHashing | decode.go:179-193 | an "info" key inside the info value stops hashing at the end of the inner value, so the hash input lacks the outer value's closing 'e' |
| DecodeExamples.IntsInTurn | decode_test.go:28-55 | "i5ei-12e" decodes to 5 then -12 from the same reader; ParseUint rejects -12 |
| DecodeExamples.StringsInTurn | decode_test.go:57-82 | "3:foo2:ab" decodes to foo then ab; a negative length is an error |
| DecodeExamples.SmallLists | decode_test.go:84-126 | "le", "li3ee" and "llei3eex" decode to [], [3] and [[], 3], the last leaving the x unread |
| DecodeExamples.NestedList | decode_test.go:128-137 | "li3e1:ali4eee" decodes to [3, "a", [4]] |
| DecodeExamples.SmallDicts | decode_test.go:139-170 | "de" and "d3:fooi4ee" decode to the empty map and {foo: 4} |
| DecodeExamples.TruncatedInputFails | decode_test.go:200-221 | "i3", "4:foo", "l" and "d" all fail with EOF |
| DecodeExamples.TorrentWithoutInfo | decode_test.go:319-326 | UnmarshalTorrent of "i5e" into an int stores 5 and returns the missing-info-key error |
| MapBinding.TaggedFieldFrom | mapBinding.go:17-27 | the search returns the first field at or after a position whose effective key is the dictionary key, or none |
| MapBinding.TaggedField | mapBinding.go:17-27 | a key resolves to the first field whose effective key equals it, and to nothing when no field has it |
| MapBinding.Owner | mapBinding.go:8-15 | the dictionary key bound to a field, when there is one, resolves to that field |
| MapBinding.Assign | mapBinding.go:35 | field.Set of an assignable value keeps the field's type |
| MapBinding.SetField | mapBinding.go:35 | setting one field keeps the struct's shape |
| MapBinding.SetFieldTyped | mapBinding.go:35 | setting a field to a value of its type keeps the struct well typed |
| MapBinding.KeySafeKept | mapBinding.go:8-15 | binding one key changes no other key's field, so every other key stays free of a Set through an unexported field |
| MapBinding.FindCorrectlyTaggedField | mapBinding.go:17-27 | the loop over the fields returns the field TaggedField specifies |
| MapBinding.Prepare | mapBinding.go:72-76 | a nil pointer gets a fresh zero referent; a non-nil pointer is unchanged |
| MapBinding.BindStep | mapBinding.go:8-15 | binding one more key keeps the invariant that the bound keys' fields hold their values and the others are untouched |
| MapBinding.BindStopped | mapBinding.go:8-15 | stopping at a failing key leaves a state bind may leave |
| MapBinding.BoundDone | mapBinding.go:8-15 | once every key is bound the struct is fully bound |
| MapBinding.Bind | mapBinding.go:8-15 | bind succeeds iff every key binds; on success each keyed field holds its value and the rest are unchanged; on failure the error is some failing key's; the struct may have unexported fields as long as no key leads to a Set through one |
| MapBinding.BindField | mapBinding.go:29-45 | a key with no field is ignored; otherwise the field takes an assignable value, binds a nested dictionary, goes through a pointer, or fails with the key's error |
| MapBinding.BindPtr | mapBinding.go:58-70 | through a pointer a value is stored when assignable or bound as a dictionary (its nested error dropped); otherwise the pointer is unchanged and the error is "unable to bind" |
| BindingExamples.TaggedKeys | decode_test.go:261-270 | the fields LongName, Ignore, AlsoIgnore, F and G are keyed "n", "", "", "F" and "a b" |
| BindingExamples.TaggedFieldsResolve | decode_test.go:261-277 | the keys n, F and "a b" resolve to LongName, F and G |
| BindingExamples.UntaggedKeysResolve | decode_test.go:261-277 | "foo" and the Go name LongName resolve to no field; the empty key resolves to Ignore |
| BindingExamples.TaggedDictBinds | decode_test.go:261-277 | the test's dictionary binds onto the tagged struct |
| BindingExamples.StringSliceFieldFails | decode_test.go:328-338 | a decoded list does not bind to a []string field: bind fails with the key's error |
| BindingExamples.HiddenFieldKeys | mapBinding.go:17-27 | in a struct with fields A and b, the keys "A" and "b" resolve to them |
| BindingExamples.ExportedKeyBinds | mapBinding.go:8-45 | a dictionary whose only key reaches the exported field binds without a panic, sets that field and leaves the unexported one unchanged |
| BindingExamples.UnexportedKeyUnsafe | mapBinding.go:35 | a key reaching the unexported field would make reflect panic on the Set |
| BindingExamples.HiddenDict | decode.go:160-203 | "d1:Ai1ee" decodes to the dictionary {"A": 1} |
| BindingExamples.HiddenFieldUnmarshals | decode.go:205-212 | Unmarshal of "d1:Ai1ee" into a struct with an unexported field b succeeds, sets A to 1 and leaves b at 0 |
| EncodeSpec.ThenStops | encode.go:73-96 | after an error nothing more is written |
| EncodeSpec.EffectiveKeys | encode.go:264-270 | every declared field has its effective key |
| EncodeSpec.PositionedUpToSound | encode.go:264-270 | each gathered field has a non-empty effective key and its own index |
| EncodeSpec.PositionedUpToComplete | encode.go:264-270 | every field with a non-empty effective key is gathered |
| EncodeSpec.FieldOrderSpec | encode.go:257-281 | the struct fields written are exactly those with non-empty keys, in ascending key order |
| EncodeSpec.FieldOrderSound | encode.go:257-281 | each written field is a declared field keyed by its effective key |
| EncodeSpec.ElemsStep | encode.go:160-166 | each element appends its own encoding after the earlier elements |
| EncodeSpec.EntriesStep | encode.go:222-232 | each entry appends its key and value after the earlier entries |
| EncodeSpec.FieldsStep | encode.go:272-279 | each field appends its key and value after the earlier fields |
| EncodeSpec.MapEntries | encode.go:205-234 | a map with string keys is written as its entries in ascending key order between 'd' and 'e' |
| EncodeSpec.StructFields | encode.go:257-281 | a struct is written as its fields in key order between 'd' and 'e' |
| EncodeSpec.ReadOnlyList | encode.go:156-168 | a non-empty list reached through an unexported field fails on its first element after its 'l' |
| EncodeSpec.ElemsStop | encode.go:163-165 | once an element fails no later element is written |
| EncodeSpec.EntriesStop | encode.go:225-231 | once an entry fails no later entry is written |
| EncodeSpec.FieldsStop | encode.go:273-278 | once a field fails no later field is written |
| Encoder.EncodeState.constructor | encode.go:39 | a new encoder state has an empty buffer |
| Encoder.EncodeState.Reset | encode.go:56 | Reset empties the buffer |
| Encoder.EncodeState.Marshal | encode.go:68-96 | marshal appends what Enc specifies and returns its error |
| Encoder.EncodeState.MarshalInt | encode.go:98-109 | marshalInt appends the integer's encoding |
| Encoder.EncodeState.MarshalUnsignedInt | encode.go:111-122 | marshalUnsignedInt appends the unsigned integer's encoding |
| Encoder.EncodeState.MarshalString | encode.go:124-135 | marshalString appends the length, ':' and the bytes |
| Encoder.EncodeState.MarshalByteArray | encode.go:170-187 | a byte array is written as a string, byte by byte |
| Encoder.EncodeState.MarshalCollectionAsList | encode.go:156-168 | a list appends 'l', its elements in order, and 'e' unless an element fails |
| Encoder.EncodeState.MarshalElements | encode.go:160-166 | the loop over the elements appends what ElemsUpTo specifies |
| Encoder.EncodeState.MarshalMap | encode.go:205-234 | marshalMap appends what MapEnc specifies |
| Encoder.EncodeState.MarshalEntries | encode.go:222-232 | the loop over the sorted keys appends what EntriesUpTo specifies |
| Encoder.EncodeState.MarshalEntry | encode.go:223-231 | one entry appends its key as a string and then its value |
| Encoder.EncodeState.MarshalStruct | encode.go:257-281 | marshalStruct appends what StructEnc specifies |
| Encoder.EncodeState.MarshalFields | encode.go:272-279 | the loop over the positioned fields appends what FieldsUpTo specifies |
| Encoder.EncodeState.MarshalField | encode.go:273-278 | one field appends its key as a string and then its value |
| Encoder.StringKeys | encode.go:211-218 | the raw key array is filled exactly when every key is a string (or there are none), and then holds the keys |
| Encoder.SortedStringKeys | encode.go:206-220 | the keys come out in ascending order exactly when they are strings (or there are none) |
| Encoder.FieldsByKey | encode.go:263-271 | the fields are gathered and sorted into FieldOrder |
| Encoder.GatherFields | encode.go:263-270 | the loop gathers the fields with non-empty keys in declaration order |
| Encoder.MapKeys | encode.go:206 | MapKeys enumerates each key of the map once |
| Encoder.Marshal | encode.go:38-44 | Marshal returns the bytes written, or the error and no bytes |
| Encoder.Encoder.constructor | encode.go:51-53 | a new Encoder has written nothing |
| Encoder.Encoder.Encode | encode.go:55-62 | Encode resets the buffer, marshals, and writes the bytes to the writer only on success |
| EncodeLemmas.EncodeDecoded | encode.go:73-96 | marshalling a decoded item writes its canonical encoding: list elements in order, dictionary entries in ascending key order |
| EncodeLemmas.MarshalDecoded | encode.go:38-44 | Marshal of a decoded item returns its canonical encoding |
| EncodeLemmas.EncodeThenDecode | decode.go:214-255 | decoding what Marshal writes for a decoded item gives the item back and reads all of it |
| EncodeLemmas.EncodableNeverPanics | encode.go:160-166 | the read-only failure arises only from a non-empty list reached through an unexported field |
| EncodeLemmas.ScalarExamples | encode_test.go:9-60 | -1 is written "i-1e", an unsigned 0 "i0e" and the empty string "0:" |
| EncodeLemmas.NestedEmptyLists | encode_test.go:184-206 | a list of two empty lists is written "llelee" |
| EncodeLemmas.MapInKeyOrder | encode_test.go:146-165 | a map is written in ascending key order whatever the order of its entries |
| EncodeLemmas.RefusedKinds | encode.go:93-95 | unsupported kinds and nil pointers are refused with nothing written; a non-empty map with non-string keys is refused after its 'd' |

## Left out

- The SHA-1 computation: the hash is modelled by the bytes written to it, so the model's info hash is the SHA-1 input, not the digest. InfoHash.String (URL escaping) is not part of this model.
- io.Reader, io.Writer and bufio buffering: the source is an in-memory byte sequence, a Peek or ReadBytes failure is EOF, and Encoder.Encode's writer is a byte sequence that never fails. Write errors from bytes.Buffer cannot happen and are not modelled.
- Reflection is modelled by the GoValue datatype, with kinds, widths, field names, tags and exportedness. Channels, functions, floats, complex numbers and the other kinds the encoder refuses are collapsed into one Unsupported value.
- Decoder.TorrentDecoder.UnmarshalToVal requires Decodable, which leaves some targets out of the model.
  - A []T slice other than []interface{} or []byte is excluded as a whole, and so is a map other than map[string]interface{}.
  - For those targets Go appends each decoded element (reflect.Append at decode.go:147) or stores each value (SetMapIndex at decode.go:188). It panics when one is not assignable to the element type, as for []int given "li1ee". A []string given "l3:fooe" succeeds in Go but is not modelled.
  - A struct is excluded when binding the decoded dictionary could set a value reached through an unexported field. Structs with unexported fields are decoded when no key of the dictionary leads to such a field.
- MapBinding.Bind, MapBinding.BindField and MapBinding.BindPtr require BindSafe, KeySafe and FieldSafe: no key may lead to a Set on a value reached through an unexported field, since reflect panics there (mapBinding.go:35, :62 and :74). This panic is not modelled as an error. bind stops at the first failing key in map order, so for some dictionaries the panic would depend on that order.
- A nil map target is outside the model: the map's entries are a Dafny map, never nil.
- Decoder.TorrentDecoder.Decode and Decoder.UnmarshalTorrent: the hash is never reset between calls on one decoder, as in the code, so a later Decode still reports an earlier info value.
- EncodeLemmas.EncodeThenDecode states the decoded item and the position, not the hash input: an "info" key inside the item changes what is hashed (see InfoHash.DictHashRoundTrip for the flat case).
- DecodeLemmas.ItemRoundTrip states the hash input only for items with no "info" key inside; InfoHash.DictHashRoundTrip and InfoHash.NestedInfoStopsHashing cover a top-level "info" and one nested inside it.
- Strconv.ParseInt is specified by its range and its error kinds plus the leniency examples, not by a complete characterisation of the accepted syntax.
- Two panics are modelled as errors. The encoder calls reflect.Value.Interface on each element of a list (encode.go:162); for a list reached through an unexported struct field that call panics, which is the ReadOnlyInterface error. A negative string length makes make panic (decode.go:319), which is the NegativeLength error.
- DecodeSpec.StringF and Decoder.TorrentDecoder.UnmarshalString: a non-negative length beyond what Go can allocate (such as "300000000000000:x") makes make panic at decode.go:319, while the model reports EOF when the input is shorter than the length.
- Sorting.SortInPlace follows sort.Sort for up to 12 elements, where it is an insertion sort and so stable. On longer inputs Go's sort.Sort is not stable.
- Encoder.FieldsByKey and EncodeSpec.FieldOrder therefore fix declaration order for fields that share an effective key; for a struct with more than 12 keyed fields Go may write such fields in another order. Map keys are distinct, so their order is unaffected.
- Values.IsExported tests for an ASCII upper-case first letter; Go's unicode.IsUpper also accepts non-ASCII upper-case letters.
- Where the tests and the code disagree the model follows the code: an element that fails to decode ends a list without an error (decode.go:144-145); a decoded list does not bind to a []string field (decode_test.go:328-338 expects success); the tag `bencoding:""` gives the key "", so a dictionary key "" resolves to that field.
- bindPtr drops the error of the nested bind (mapBinding.go:65), as modelled in MapBinding.BindPtr.
- MapBinding.BindPtr and MapBinding.Prepare hold a pointer's referent by value (GoValue.Ptr owns it). Writes through a non-nil pointee that other variables share (field.Elem().Set at mapBinding.go:62, bind on field.Elem() at :65) are seen only in the returned struct, not through the aliases. Cyclic structures, on which marshal recurses without end, cannot be expressed.
- The map iteration order of bind is unspecified in Go; MapBinding.Bind's contract holds for every order, and which failing key's error is returned is left open.
- The repository's sample programs and its Go test functions are not modelled; the examples they check are stated as lemmas.
