# wxapkg decoder model

A Dafny model of the wxapkg decoder in `src/lib.rs` of unwxapkg. A wxapkg is a
WeChat mini-program package. `decode_wxapkg` turns a package into its list of
files, each with a full path and a content.

The package layout:

- A 14-octet header: the start marker 0xBE, four zero octets of padding, two
  big-endian 32-bit length fields and the end marker 0xED.
- A big-endian 32-bit file count.
- A directory of records packed one after the other. Each record holds a
  filename length, the filename as UTF-8, a content offset and a content size.
- The contents, which the offsets point at.

The model has four modules:

- `Bytes` (`bytes.dfy`): octets, 32-bit words and `convert_to_u32`, as a loop
  that shifts each octet into a 32-bit accumulator.
- `Utf8` (`utf8.dfy`): the UTF-8 grammar of section 4 of RFC 3629. This is the
  check `std::str::from_utf8` applies to a filename. The module has a decoder,
  an encoder and both round trips.
- `Wxapkg` (`wxapkg.dfy`): the header check, the record decoder, the walk over
  the directory and `decode_wxapkg`. `convert_to_header` and `decode_wxapkg`
  are methods with loops, proved equal to the functions `ParseHeader` and
  `ParseWxapkg`. `convert_to_miniapp_file` is a function.
- `Pack` (`pack.dfy`): a writer for the same layout. The repository has none.
  It exists to state what the decoder recovers: a packed list of files
  decodes back to that list, in order. The module also has two worked
  one-file packages, one accepted and one refused.

The source panics wherever a slice runs past the end of the buffer. The model
returns the error `OutOfBounds` there instead, so every panic is a visible
result. The source's three error strings become the `DecodeError` values
`BadMagic`, `BadPadding` and `BadUtf8`. The panics become `OutOfBounds`, for
which the source has no string.

## Model

| member | source | states |
|---|---|---|
| Bytes.ConvertToU32 | src/lib.rs:94-103 | shifting the four octets into the accumulator gives their big-endian value b0·2^24 + b1·2^16 + b2·2^8 + b3, which is below 2^32 |
| Bytes.ShiftInByte | src/lib.rs:99 | one step of the accumulator update, a shift left by 8 followed by an OR with b, on a u32: the new low octet is b, and the upper 24 bits are the low 24 bits of the old accumulator, so its top octet is dropped |
| Bytes.BeU32OfU32Bytes | src/lib.rs:94-103 | every 32-bit value is the big-endian value of its four octets |
| Bytes.U32BytesOfBeU32 | src/lib.rs:94-103 | four octets are determined by their big-endian value |
| Utf8.Decode | src/lib.rs:75 | the `from_utf8` check: whenever it accepts octets, the text it returns has exactly those octets as its UTF-8 encoding; with DecodeOfEncode, it accepts the encoding of every text and returns that text, so it accepts exactly the encodings of texts |
| Utf8.DecodeCharOfEncodeChar | src/lib.rs:75-78 | the encoding of a character is read back as that character with its width, whatever follows it |
| Utf8.EncodeCharOfDecodeChar | src/lib.rs:75-78 | the octets one character is read from are exactly its encoding, so no overlong form is accepted |
| Utf8.DecodeOfEncode | src/lib.rs:75-78 | decoding the UTF-8 octets of any text gives the text back |
| Utf8.EncodeOfDecode | src/lib.rs:75-78 | octets that pass the UTF-8 check are the encoding of the text they decode to |
| Utf8.EncodeInjective | src/lib.rs:75-78 | two texts with the same UTF-8 octets are the same text |
| Utf8.DecodeFirst | src/lib.rs:75-78 | valid octets start with one whole character, and the rest is valid and decodes to the rest of the text |
| Wxapkg.ParseHeader | src/lib.rs:44-67 | a wrong start or end marker is refused as BadMagic, and this check comes before the padding check; with correct markers, a non-zero padding octet gives BadPadding; an accepted header has zero padding and the big-endian words at 5..9 and 9..13 as its two lengths |
| Wxapkg.ConvertToHeader | src/lib.rs:44-67 | the marker check followed by the padding loop with its early return gives exactly ParseHeader's result |
| Wxapkg.ConvertToMiniappFile | src/lib.rs:69-92 | a decoded record has its fields inside the buffer; its filename's UTF-8 octets are exactly the name octets; its content is the slice at offset..offset+size; the next cursor is start + 4 + name length + 8, past the start and whatever the offset is; every failure is BadUtf8 or OutOfBounds |
| Wxapkg.ConvertToMiniappFileOutcome | src/lib.rs:69-92 | a record decodes if and only if its fields are in the buffer, its name is valid UTF-8 and its content slice is in the buffer; it fails with BadUtf8 if and only if the name octets are in the buffer but are not UTF-8 |
| Wxapkg.EmptyFilename | src/lib.rs:73-80 | a zero filename length gives the empty filename and a next cursor of start + 12 |
| Wxapkg.Walk | src/lib.rs:26-32 | a successful walk over count records yields exactly count items |
| Wxapkg.WalkInOrder | src/lib.rs:28-31 | item i of a walk is what the step decodes at cursor i, and that step's next cursor is cursor i + 1 |
| Wxapkg.WalkAllOrNothing | src/lib.rs:28-31 | a walk fails if and only if one of its steps fails |
| Wxapkg.WalkFirstError | src/lib.rs:28-31 | a walk fails with the error of its first failing step |
| Wxapkg.WalkStep | src/lib.rs:28-31 | one iteration of the loop: a failing step ends the walk with its error, otherwise its item is put in front of the rest |
| Wxapkg.WalkOfSteps | src/lib.rs:26-32 | if step k at cursor k decodes item k and gives cursor k + 1, the walk decodes exactly those items |
| Wxapkg.ParseWxapkg | src/lib.rs:12-35 | a buffer shorter than the header is refused with OutOfBounds; an accepted package has a valid header and the file count in its buffer, and holds exactly the declared number of files |
| Wxapkg.DecodeHeaderErrors | src/lib.rs:19-23 | a short buffer gives OutOfBounds; a wrong marker gives BadMagic even when the padding is also wrong; correct markers with non-zero padding give BadPadding; a valid header without room for the file count gives OutOfBounds |
| Wxapkg.DecodeInDirectoryOrder | src/lib.rs:26-32 | a decoded package holds exactly NumFiles files, and file i is what record i, at cursor i from byte 18, decodes to, with record i + 1 starting where record i ends |
| Wxapkg.DecodeAllOrNothing | src/lib.rs:28-31 | once the header and count are read, the package is refused if and only if one of its declared records fails, so there is no partial result |
| Wxapkg.DecodeFirstError | src/lib.rs:28-31 | the package is refused with the error of its first failing record |
| Wxapkg.DecodeContentPastEnd | src/lib.rs:81-83 | a content slice running past the end fails the whole package with OutOfBounds, provided the earlier records decode and this record's name is valid UTF-8 |
| Wxapkg.DecodeBadFilename | src/lib.rs:74-78 | a filename that is not UTF-8 fails the whole package with BadUtf8, provided the earlier records decode |
| Wxapkg.DecodeWxapkg | src/lib.rs:12-35 | the method reads the header, reads the count, walks from byte 18 while threading the cursor, and returns on the first error; its result is exactly ParseWxapkg |
| Pack.ParseHeaderBytes | src/lib.rs:44-67 | the header check accepts every header a writer puts down and reads back its two lengths |
| Pack.HeaderBytesOfParse | src/lib.rs:44-67 | an accepted header is the writer's header for its two lengths, so there is one form per pair of lengths |
| Pack.BeU32OfWord | src/lib.rs:94-103 | a word below 2^32 written big-endian is read back as itself |
| Pack.RecordFields | src/lib.rs:73-82 | for a record laid out as length word, name, offset word and size word, the decoder reads the name from p+4 to p+4+length and the offset and size from the two words that follow |
| Pack.RecordRoundTrip | src/lib.rs:69-92 | the record decoder reads back a written record as the same file, with the next cursor just past the record |
| Pack.PackedRecord | src/lib.rs:69-92 | record k of a written package decodes to file k and ends where record k + 1 starts |
| Pack.PackageWalk | src/lib.rs:19-27 | the header and count of a written package are accepted, and the walk over its count records decides the result |
| Pack.DecodeOfLayout | src/lib.rs:12-35 | a buffer laid out as header, count, directory and contents decodes to its files, in order |
| Pack.DecodeOfPack | src/lib.rs:12-35 | decoding a packed list of files gives back the list, with every name and every content in order |
| Pack.OneFileDecodes | src/lib.rs:12-35 | a concrete one-file package decodes to the file "/a.txt" with content "ABC" |
| Pack.OneFileRecord | src/lib.rs:73-82 | in the concrete package, the record at byte 18 has name octets 22..28, which are valid UTF-8, and its offset and size fields |
| Pack.OneFileContentPastEnd | src/lib.rs:81-83 | the same package with the offset one octet further is refused with OutOfBounds |

## Left out

- Reading the package from a `Read` stream (`read_to_end`) is I/O. The model starts from the buffer already read, and it does not model the read error.
- The texts of the error messages, including the one from `from_utf8`, are left out. Each error is a `DecodeError` value.
- Panics on out-of-range slices (a buffer shorter than 14 or 18 octets, a record or content running past the end) are modelled as the result `Err(OutOfBounds)`, not as an abort.
- The arithmetic `start_index + 4 + len_filename` and `offset + content_size` uses Rust `usize`. It is modelled with unbounded integers. On 64-bit targets the sum of two 32-bit values cannot overflow, so nothing is lost there.
- The two header lengths are decoded and then ignored by the source. The model does not cross-check them against the directory or the data.
- `Vec::with_capacity(num_files)` reserves room for the declared count of files before any record is read, so the size of the allocation comes from the untrusted count. A large count, such as `FF FF FF FF`, can make the allocation fail and abort the process, where the model returns the first record's error instead. The model does not capture allocation or its failure. The copy of each content into a new `Vec` is likewise modelled as a sequence.
- The command-line program `src/main.rs` is not part of this model. It writes the extracted files to disk.
- Bytes.ConvertToU32: the accumulator `(ret << 8) | b` is modelled with the helper `ShiftInByte` as `ret·256 mod 2^32 + b` on integers, not on a 32-bit bit-vector. The OR equals this addition because the shift leaves the low eight bits zero.
- Filenames: a filename is a `string` of Unicode scalar values, as a Rust `String` decodes to. The UTF-8 octets are related to it through `Utf8.Encode` and `Utf8.Decode`.
- The `Pack` writer is not part of the repository. It only exists to state round trips about the decoder.
