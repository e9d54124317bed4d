# bin_io codecs in Dafny

A model of the codec core of `bin_io`, a Rust library that describes binary
formats as pairs of closures: a read closure that pulls a value off a byte
stream, and a write closure that pushes one onto a byte sink. The library
builds such pairs for integers, for strings framed by a terminator or by a
length, and for combinators (`bind`, `skip`, `count`, `cast`, `optional`,
`try_cast`). Its `seq!` macro composes pairs into a pair for a struct, a
tuple struct, a unit struct or `()`. `read` and `write` apply one half of a pair.

The model's terms:

- `BinIo`: the shared algebra.
  - `byte` is an int from 0 to 255.
  - A decode is a function from the unread bytes to an `Outcome` of `Parsed(value, rest)`.
  - An encode is a function from a value to `Written(bytes, status)`.
    `bytes` is what was appended to the sink, and `status` says whether the write returned normally.
  - An `Outcome` is `Ok`, `Err` of one of the library's `BinError` variants, or `Panic`.
    `BinError` has the variants in src/error.rs plus `UnexpectedEof`, which stands for the stream running out of bytes.
  - `Codec(dec, enc)` is the read/write tuple.
  - `RoundTrips(c, v)` says that encoding `v` succeeds, and that decoding those bytes followed by any further bytes gives `v` back and leaves exactly the further bytes unread.
- `Numbers`: the sixteen integer codecs, all as `IntCodec(type, order)`.
  - The encoding is the two's-complement bytes of the value in big- or little-endian order.
  - A decode fails with `UnexpectedEof` on a short stream.
- `Unicode`: the conversions the string codecs call, written out.
  - UTF-8 and UTF-16 encoding of Rust strings.
  - Validating decoders standing for `String::from_utf8` and `String::from_utf16`.
- `Strings`: `null_ascii`, `len_ascii`, `null_utf8`, `len_utf8`, `null_utf16` and `len_utf16`, with their read loops.
- `Utils`: the combinators.
- `Macros`: the `seq!` interpreters `__impl r` and `__impl w` over a list of steps, and the four aggregate shapes.
  - A step is named, named with a default, or anonymous.
  - The variables a step may use are a map from names to values of one value universe.
- `Examples`: the library's own documentation examples, stated as lemmas.
  - `Thing` in src/lib.rs.
  - `Foo`, the length-prefixed vector in src/macros.rs.
  - The void `bind` in src/macros.rs.
  - The string examples in src/strings.rs.

## Model

| member | source | states |
|---|---|---|
| BinIo.Then | src/macros.rs:202-224 | Writing one piece after another never takes back what the first piece wrote. The pair returns normally exactly when both pieces do, and then the sink holds both pieces' bytes in order. A failed first piece ends the pair: its failure is the result, and the second piece writes nothing. After a first piece that succeeds, the pair's status is the second piece's, whether Ok, an error or a panic, and the sink holds the first piece's bytes followed by the second's. |
| BinIo.ThenAssociative | src/macros.rs:202-224 | How a chain of written pieces is grouped makes no difference to the bytes or the status. |
| BinIo.Write | src/lib.rs:128-131 | `write` only appends: the sink's earlier contents are kept as a prefix. |
| BinIo.ReadUsesDecodeHalfOnly | src/lib.rs:105-109 | `read` depends only on the read closure of the pair, whatever the write closure is. |
| BinIo.WriteUsesEncodeHalfOnly | src/lib.rs:128-131 | `write` depends only on the write closure of the pair, whatever the read closure is. |
| Numbers.IntCodec | src/numbers.rs:32-43 | Every integer codec writes exactly its width in bytes and always succeeds. A read succeeds exactly when at least that many bytes remain. It then consumes exactly that many bytes and yields a value inside the type's range. Otherwise it fails with end of stream. |
| Numbers.IntRoundTrip | src/numbers.rs:45-63 | Each of the sixteen integer codecs reads back every in-range value it writes, leaving following bytes unread. |
| Numbers.IntBytesRoundTrip | src/numbers.rs:45-63 | Each integer codec reads any byte string of its width, and writing the value read reproduces exactly those bytes. So the codec is a bijection between the type's range and its byte strings. |
| Numbers.IntEncodeDigits | src/numbers.rs:50-63 | Byte `i` of a big-endian encoding is the base-256 digit of weight 256^(width-1-i) of the value's two's-complement form. In little-endian order it is the digit of weight 256^i. |
| Numbers.LittleIsReversedBig | src/numbers.rs:50-63 | The `le_` encoding of a value is the `be_` encoding in reverse byte order. |
| Numbers.SignedIsTwosComplement | src/numbers.rs:45-63 | A signed read reads the same bytes as the unsigned read of its width. It reinterprets the result as two's complement, and it fails exactly when the unsigned read fails. |
| Numbers.SingleByteOrderIrrelevant | src/numbers.rs:45-48 | `be_u8` and `le_u8` are the same codec, and so are `be_i8` and `le_i8`. |
| Numbers.BigOrderExample | src/numbers.rs:50 | `be_u16` writes 0x0102 as the bytes 01 02. |
| Numbers.LittleOrderExample | src/numbers.rs:52 | `le_u16` writes 0x0102 as the bytes 02 01. |
| Numbers.BeU8Decode | src/numbers.rs:45 | `be_u8` reads the first byte as its value and consumes that byte alone. |
| Numbers.BeU16Decode | src/numbers.rs:50 | `be_u16` reads the first two bytes as high byte then low byte. |
| Numbers.ToRaw | src/numbers.rs:46-63 | Each value maps to a bit pattern below 2^width. For an in-range value, reading that pattern back as the type gives the value again. |
| Unicode.Utf8RoundTrip | src/strings.rs:135-140 | The UTF-8 decoder that `String::from_utf8` stands for accepts the bytes of every string and returns that string. |
| Unicode.Utf8Unique | src/strings.rs:135 | Bytes the UTF-8 decoder accepts are exactly the encoding of the string it returns. A string has one encoding, and an encoding has one string. |
| Unicode.Utf8Append | src/strings.rs:140 | The UTF-8 bytes of a concatenation are the concatenation of the UTF-8 bytes. |
| Unicode.Utf8FirstOfChar | src/strings.rs:135 | The decoder's first step, applied to a character's encoding followed by anything, returns that character and that encoding's length. |
| Unicode.Utf8CharOfFirst | src/strings.rs:135 | Whatever the decoder's first step accepts is the encoding of the character it returns. |
| Unicode.AsciiBytes | src/strings.rs:41-47 | `is_ascii` holds of a string exactly when every one of its UTF-8 bytes is below 0x80. The UTF-8 bytes of an ASCII string are one per character. |
| Unicode.Utf8ZeroFree | src/strings.rs:125-140 | The UTF-8 bytes of a string contain a zero byte exactly when the string contains U+0000. |
| Unicode.Utf16Char | src/strings.rs:218 | A character is one or two 16-bit code units. |
| Unicode.Utf16RoundTrip | src/strings.rs:214-219 | The UTF-16 decoder that `String::from_utf16` stands for accepts the code units of every string and returns that string. |
| Unicode.Utf16Unique | src/strings.rs:214 | Code units the UTF-16 decoder accepts are exactly the encoding of the string it returns. |
| Unicode.Utf16ZeroFree | src/strings.rs:204-219 | The UTF-16 code units of a string include a zero unit exactly when the string contains U+0000, so a zero unit can terminate a string without U+0000. |
| Strings.ReadToZero | src/strings.rs:125-134 | The terminator loop of `null_utf8` succeeds exactly when a zero byte remains. The bytes it collects contain no zero, and collected bytes + zero + rest is the input. Otherwise it fails with end of stream. |
| Strings.ReadToZeroStep | src/strings.rs:125-134 | Each iteration of that loop is one `be_u8` read: a zero read stops the loop, and any other byte is kept before the rest of the loop's result. |
| Strings.ReadToZeroOf | src/strings.rs:125-134 | Given zero-free bytes, a zero and anything else, the loop returns exactly those bytes and leaves exactly the anything else. |
| Strings.ReadUnitsToZero | src/strings.rs:204-213 | The terminator loop of `null_utf16` collects 16-bit units that are never zero. The bytes of those units, then two zero bytes, then the rest, are the input. It fails only with end of stream. |
| Strings.ReadUnitsToZeroStep | src/strings.rs:204-213 | Each iteration of that loop is one `be_u16` read: a zero unit stops it, and any other unit is kept. |
| Strings.ReadUnitsToZeroOf | src/strings.rs:204-213 | Given the big-endian bytes of nonzero units, two zero bytes and anything else, the loop returns exactly those units. |
| Strings.ReadUnits | src/strings.rs:245-251 | Reading `k` units succeeds exactly when `2k` bytes remain. It returns `k` units whose big-endian bytes are the consumed prefix, and otherwise fails with end of stream. |
| Strings.ReadUnitsIsCount | src/strings.rs:245-251 | The `len_utf16` read loop is `count(be_u16(), k)` for the same `k`, on every input. |
| Strings.EncodeUnits | src/strings.rs:217-223 | Writing code units one by one with `be_u16` writes their big-endian bytes and succeeds. |
| Strings.UnitBytesInjective | src/strings.rs:245-253 | Equal numbers of code units written as bytes and followed by trailing bytes determine both the units and the trailing bytes. |
| Strings.NullUtf8Decode | src/strings.rs:122-137 | `null_utf8` read: with no zero byte it fails with end of stream. With one, it fails only with a UTF-8 conversion error. When it succeeds, the string's UTF-8 bytes, then a zero, then the unread rest, are the input. The string returned never contains U+0000, so the zero consumed is the first zero of the input. |
| Strings.NullUtf8Encode | src/strings.rs:138-141 | `null_utf8` write succeeds and writes bytes that decode as UTF-8 to the string. They contain a zero byte exactly when the string contains U+0000. |
| Strings.NullUtf8ReadsTerminated | src/strings.rs:122-137 | `null_utf8` reads a zero-free string's UTF-8 bytes followed by a zero as that string, consuming the zero and nothing after it. |
| Strings.NullUtf8MissingTerminator | src/strings.rs:138-141 | As written, `null_utf8` cannot read back what it wrote: reading exactly the bytes it writes for a zero-free string fails with end of stream. |
| Strings.NullUtf8TerminatedEncode | src/strings.rs:138-141 | The corrected write is the original write followed by one zero byte. |
| Strings.NullUtf8TerminatedRoundTrip | src/strings.rs:122-141 | With the terminator written, every string without U+0000 round-trips. |
| Strings.LenUtf8Decode | src/strings.rs:169-175 | `len_utf8(n)` read fails with end of stream when fewer than `n` bytes remain. Otherwise it succeeds exactly when those `n` bytes are valid UTF-8, and it returns the string they encode with the bytes after them unread. Invalid bytes give a UTF-8 conversion error. |
| Strings.LenUtf8Encode | src/strings.rs:176-182 | `len_utf8(n)` write panics, writing nothing, exactly when the string's UTF-8 length is not `n`. Otherwise it writes `n` bytes that decode to the string. |
| Strings.LenUtf8RoundTrip | src/strings.rs:166-183 | A string whose UTF-8 length is `n` round-trips through `len_utf8(n)`. |
| Strings.NullUtf16Decode | src/strings.rs:204-216 | `null_utf16` read fails with end of stream when the unit loop does, and otherwise only with a UTF-16 conversion error. A string it returns was encoded as its big-endian units and then a zero unit. The string returned never contains U+0000, so the zero unit consumed is the first zero unit. |
| Strings.NullUtf16Encode | src/strings.rs:217-223 | `null_utf16` write writes the string's UTF-16 units big-endian, then a zero unit, and succeeds. |
| Strings.NullUtf16RoundTrip | src/strings.rs:201-224 | Every string without U+0000 round-trips through `null_utf16`. |
| Strings.LenUtf16Decode | src/strings.rs:245-254 | `len_utf16(n)` read reads (n+1)/2 units, one per even index below `n`. It fails with end of stream when fewer than twice that many bytes remain, and otherwise only with a UTF-16 conversion error. A string it returns has exactly that many units. |
| Strings.LenUtf16Encode | src/strings.rs:255-267 | As written, `len_utf16(n)` write panics exactly when the string's UTF-8 length is not `n`. Otherwise it writes the string's UTF-16 units big-endian. |
| Strings.LenUtf16ReadsUnits | src/strings.rs:245-254 | The big-endian bytes of (n+1)/2 units of a string, followed by anything, read back as that string. |
| Strings.LenUtf16RoundTrip | src/strings.rs:242-268 | As written, `len_utf16(n)` round-trips only the strings whose UTF-8 length is `n` and whose UTF-16 unit count is (n+1)/2. |
| Strings.LenUtf16LosesCharacters | src/strings.rs:242-268 | As written, `len_utf16(2)` writes "ab" as four bytes but reads those four bytes as "a", leaving the last two bytes unread. |
| Strings.LenUtf16CheckedEncode | src/strings.rs:255-267 | The corrected write panics exactly when `n` is not the string's UTF-16 length in bytes. Otherwise it writes the units. |
| Strings.LenUtf16CheckedRoundTrip | src/strings.rs:242-268 | With the corrected check, every string whose UTF-16 byte length is `n` round-trips. |
| Strings.AsciiDecode | src/strings.rs:38-45 | The ASCII read succeeds exactly when the inner read succeeds with an ASCII string, and then agrees with it. A non-ASCII string read gives a check failure. An inner failure passes through unchanged. |
| Strings.AsciiEncode | src/strings.rs:46-51 | The ASCII write panics, writing nothing, on a non-ASCII string, and is the inner write otherwise. |
| Strings.AsciiRoundTrip | src/strings.rs:35-52 | An ASCII string that round-trips through the inner codec round-trips through its ASCII restriction. |
| Strings.LenAsciiRoundTrip | src/strings.rs:81-98 | An ASCII string of `n` characters round-trips through `len_ascii(n)`. |
| Strings.NullAsciiTerminatedRoundTrip | src/strings.rs:35-52 | An ASCII string without U+0000 round-trips through `null_ascii` once `null_utf8` writes its terminator. |
| Strings.NullAsciiReadsAsciiBytes | src/strings.rs:35-45 | Whatever `null_ascii` reads successfully, every byte it consumed before the terminator is below 0x80. |
| Strings.LenAsciiReadsAsciiBytes | src/strings.rs:81-91 | Whatever `len_ascii(n)` reads successfully has `n` characters, and all `n` bytes it consumed are below 0x80. |
| Strings.NullAsciiExample | src/strings.rs:27-33 | `null_ascii` reads 46 6f 6f 00 as "Foo". |
| Strings.LenAsciiExample | src/strings.rs:73-79 | `len_ascii(3)` reads 42 61 72 as "Bar". |
| Strings.Utf8Examples | src/strings.rs:114-120 | `null_utf8` reads f0 9f a6 80 00 as the crab emoji, and so does `len_utf8(4)` without the zero byte. |
| Strings.NullUtf16Example | src/strings.rs:193-199 | `null_utf16` reads d8 3d dc 96 00 00 as the sparkling-heart emoji. |
| Strings.LenUtf16Example | src/strings.rs:234-240 | `len_utf16(4)` reads d8 3d dc 96 as the sparkling-heart emoji. |
| Utils.Bind | src/utils.rs:31-49 | `bind(c, x)` reads with `c`. It succeeds with nothing, consuming what `c` consumed, exactly when the value read equals `x`. Any other value is a check failure, and a failure of `c` passes through. It writes `x` with `c` whatever unit value it is given. |
| Utils.BindRoundTrip | src/utils.rs:31-49 | If `x` round-trips through `c`, the unit value round-trips through `bind(c, x)`. |
| Utils.Skip | src/utils.rs:80-94 | `skip(c, x)` succeeds exactly when `c` does, whatever value was read, and consumes what `c` consumed. It writes `x`. |
| Utils.SkipRoundTrip | src/utils.rs:80-94 | If `x` round-trips through `c`, the unit value round-trips through `skip(c, x)`. |
| Utils.Count | src/utils.rs:120-149 | `count(c, k)` reads exactly `k` values, and `k` = 0 reads none and consumes nothing. The write panics, writing nothing, on a vector whose length is not `k`. Otherwise it writes each element in turn. |
| Utils.CountDecode | src/utils.rs:126-135 | Reading `k` elements, when it succeeds, gives exactly `k` values. What they are is fixed by CountDecodeOne and CountDecodeSplit. |
| Utils.EncodeAll | src/utils.rs:138-147 | Writing elements in turn returns normally exactly when every element's write does. What it writes is fixed by EncodeAllOne and EncodeAllAppend. |
| Utils.EncodeAllRoundTrip | src/utils.rs:120-149 | Elements that each round-trip, written in turn, read back with `k` reads as the same elements, leaving what follows unread. |
| Utils.CountRoundTrip | src/utils.rs:120-149 | A vector of `k` round-tripping elements round-trips through `count(c, k)`. |
| Utils.CountDecodeSplit | src/utils.rs:126-134 | Reading `a + b` elements is reading `a`, then `b` from where that stopped, concatenated. A failure of the first part is the result. |
| Utils.CountDecodeOne | src/utils.rs:126-135 | Reading one element is one read with `c`: its value as a one-element vector and the same remaining input, or the same failure. |
| Utils.EncodeAllOne | src/utils.rs:138-147 | Writing a one-element vector writes exactly what writing the element writes, with the same status. |
| Utils.EncodeAllAppend | src/utils.rs:138-147 | Writing the elements of `a + b` in turn is writing those of `a`, then those of `b`. So the bytes are the element encodings in order, and writing stops at the first element whose write fails. |
| Utils.CountExample | src/utils.rs:113-147 | `count(be_u8(), 3)` writes 10, 20, 30 as those three bytes, and panics on a vector of two. |
| Utils.Cast | src/utils.rs:160-174 | `cast` reads with the inner codec and converts the value into the outer type, with inner failures passing through. It converts back before writing. |
| Utils.CastRoundTrip | src/utils.rs:160-174 | When converting back then forward is the identity on `i`, and the inner codec round-trips the converted value, `i` round-trips through `cast`. |
| Utils.Optional | src/utils.rs:213-232 | `optional(c, false)` reads `None`, consuming nothing, and `optional(c, true)` reads `Some` of what `c` reads. Writing `None` when absent writes nothing. Writing `Some` when present writes the value. A value whose presence disagrees with the flag panics and writes nothing. |
| Utils.OptionalRoundTrip | src/utils.rs:213-232 | An option whose presence matches the flag, and whose value (if any) round-trips through `c`, round-trips through `optional`. |
| Utils.TryCast | src/utils.rs:274-292 | `try_cast` read gives a cast failure when the conversion of the value read fails, and otherwise the converted value. Inner failures pass through. Its write gives a cast failure, writing nothing, when the backward conversion fails. |
| Utils.TryCastRoundTrip | src/utils.rs:274-292 | When the backward then forward conversions return `i`, and the inner codec round-trips the converted value, `i` round-trips through `try_cast`. |
| Utils.TryCastExample | src/utils.rs:259-272 | A `usize` of 20 is written through `u8` as one byte 20. A `usize` of 256 is a cast failure that writes nothing. |
| Utils.BindSkipExample | src/utils.rs:21-49 | `bind(be_u8(), 0x50)` accepts 0x50 and refuses 0x51 with a check failure. It and `skip(be_u8(), 0x50)` both write 0x50. |
| Macros.ReadStep | src/macros.rs:181-200 | A read step adds its own name, if any, to the variables in scope, and changes no other variable. A named step, with or without a default, succeeds exactly when its codec's read in the current scope does. It binds its name to the value read and stops where that read stopped, and a failure is that read's failure. An anonymous step reads with its unit codec in the same way and binds nothing. |
| Macros.DecodeSteps | src/macros.rs:177-200 | Reading the steps in turn binds exactly the names the steps bind, in addition to those in scope, and leaves every other variable unchanged. Zero steps read nothing. |
| Macros.DecodeStepsOne | src/macros.rs:181-200 | A list of one step reads exactly as that step does. With DecodeStepsAppend this gives the read of any list, step by step. |
| Macros.DecodeStepsAppend | src/macros.rs:177-200 | Reading two lists of steps one after the other is reading the first, then the second in the scope and on the stream it left. |
| Macros.DecodeIgnoresDefaults | src/macros.rs:188-193 | A default never affects reading: the steps read exactly as they would with every default removed. |
| Macros.EnvAfter | src/macros.rs:211-217 | While writing, the only variables that change are the names of steps with defaults. A first step with a default whose name no later default rebinds leaves that name bound to its default. |
| Macros.EncodeSteps | src/macros.rs:202 | Writing zero steps writes nothing and succeeds. |
| Macros.WriteStep | src/macros.rs:204-224 | A named step writes the variable of its name with its codec in the current scope. A step with a default first binds its name to the default, then writes that value with the codec evaluated in the rebound scope. An anonymous step writes `()` with its unit codec. |
| Macros.EncodeScopedAppend | src/macros.rs:202-224 | Two lists of steps written one after the other compile exactly when the first compiles in the outer scope and the second compiles in that scope plus the first list's defaults. |
| Macros.EncodeStepsAppend | src/macros.rs:202-224 | Writing two lists of steps one after the other is writing the first, then the second in the scope the first left behind. |
| Macros.DefaultIsRebinding | src/macros.rs:211-217 | Writing a step with a default is writing the same step without it, in a scope where the name is rebound to the default. |
| Macros.StripDefaults | src/macros.rs:188-193 | Removing the defaults keeps every step's position and name and codec, and leaves no step with a default. |
| Macros.NamedWrites | src/macros.rs:204-209 | A named step writes, with the codec evaluated in the current scope, the variable of its own name, which for a field is the destructured field. |
| Macros.StepRoundTrip | src/macros.rs:181-224 | A step whose codec round-trips the value it writes reads its own bytes back, binding what it read, and leaves what follows unread. |
| Macros.StepsRoundTrip | src/macros.rs:177-224 | Steps that each mirror their reads read back, in turn, exactly what they wrote in turn. The scope while reading stays in agreement with the scope while writing. |
| Macros.Destructure | src/macros.rs:126-175 | Destructuring binds exactly the aggregate's fields, each to that field's value. |
| Macros.SeqDecode | src/macros.rs:126-175 | A `seq!` read succeeds exactly when its steps read successfully from an empty scope, and fails as they fail. On success it builds the aggregate from the fields as the steps bound them, and stops where the steps stopped. |
| Macros.SeqEncode | src/macros.rs:126-175 | A `seq!` with no steps writes nothing and succeeds. Everything else about its write is stated by SeqRoundTrip and SeqReadsBack. |
| Macros.SeqRoundTrip | src/macros.rs:126-175 | An aggregate that is rebuilt from its own fields, whose steps compile and bind every field, none of them rebound to a default, and whose steps mirror their reads, round-trips through `seq!`. |
| Macros.SeqReadsBack | src/macros.rs:126-175 | Under the same conditions, reading the bytes `seq!` writes for the aggregate, followed by anything, returns the aggregate. |
| Examples.ReadExample | src/lib.rs:97-109 | `read` of 0x80 with `be_u8` gives 0x80. |
| Examples.WriteExample | src/lib.rs:119-131 | `write` of 0x80 with `be_u8` to an empty sink leaves the sink holding 0x80. |
| Examples.ThingRoundTrip | src/lib.rs:14-45 | Every `Thing` whose `a` fits a `u8` and whose `b` fits a `u16` round-trips through its `seq!` codec. |
| Examples.ThingBytes | src/lib.rs:14-45 | `Thing { a: 0x10, b: 0x20 }` is written as 10 00 20. |
| Examples.FooRoundTrip | src/macros.rs:94-123 | Every `Foo` with under 256 `i16` elements round-trips through its length-prefixed codec, even though the length is only ever a default and is never a field. |
| Examples.FooExample | src/macros.rs:94-123 | The `Foo` codec reads 02 00 50 00 60 as `Foo { a: vec![0x50, 0x60] }`. |
| Examples.FooWritten | src/macros.rs:94-123 | `Foo { a: vec![0x50, 0x60] }` is written as 02 00 50 00 60 and reads back. |
| Examples.VoidExample | src/macros.rs:67-70 | The unit codec built from `bind(be_i8(), -20)` round-trips `()`, and refuses the bytes 00 00 with a check failure. |

## Left out

- Floating-point codecs (src/numbers.rs:65-69): no floating point in the model.
- The `boilerplate!` macro (src/macros.rs:253-261) only wraps a function body in the generic signature that returns a read closure and a write closure. It is unrelated to `seq!` and has no behaviour of its own.
- The `ReadDummy`/`WriteDummy` types and the `ReadFn`/`WriteFn` blanket impls (src/lib.rs:78-87) only satisfy Rust's type checker. A plain pair of functions replaces them.
- The user's `From`/`TryFrom` impls that `cast` and `try_cast` call are parameters: a total function for `cast`, and functions returning an `Option` for `try_cast`.
- Streams are byte sequences.
  - The sink never fails.
  - A reader that returns fewer bytes than asked for is not modelled.
  - The stream position after a failed read is not modelled.
- `BinError` is converted to `std::io::Error` (src/error.rs:34-41). The model keeps the variant and drops the conversion.
- `seq!` runs its steps over named variables of one value universe `V` rather than over Rust locals of many types.
  - The requirement that the macro compiles is stated as `EncodeScoped`: every named step without a default writes a variable in scope, either a field of the aggregate or a name an earlier default bound.
  - Each aggregate shape is given by how it is rebuilt from its fields and how its fields are read off.
- Utils.Count: `k` is unbounded. The source's read first reserves room for `k` elements (src/utils.rs:128), which panics or aborts when `k` elements cannot be allocated, before anything is read. The model skips the reservation, so for such a `k` it reads and fails with end of stream instead. Whether an allocation succeeds depends on the machine's memory, which the model does not have.
- Strings.LenUtf8Decode: `n` is unbounded. The source's read first allocates an `n`-byte buffer (src/strings.rs:170), which panics or aborts when `n` bytes cannot be allocated. The model returns end of stream for such an `n`, for the same reason as for Utils.Count.
- Lengths and counts are `nat`, not `usize`, so no bound on a Rust `usize` is modelled.
- Numbers.IntCodec: an encode of a value outside the type's range reduces it modulo 2^width. In Rust such a value cannot be passed at all.
- Strings.NullUtf8Encode and Strings.LenUtf8Encode: the UTF-8 bytes are given by the model's own encoder. Rust's `as_bytes` is that encoder, but it is not part of this model.
- Macros.EncodeScoped: a step's codec and default are functions of the whole scope, so a codec or default expression that reads a variable not yet bound is not excluded. In Rust that is a compile error; in the model it reads whatever the map holds, and a write through a missing key is excluded by WriteStep's requirement.
- Macros.SeqEncode: its contract states only the empty list directly. Its bytes for other lists are stated through EncodeStepsAppend, DefaultIsRebinding, SeqReadsBack and SeqRoundTrip.
- Macros.SeqRoundTrip: it requires that no field of the aggregate also carries a default. The source accepts such a field, but it writes the default instead of the field's value, so the aggregate round-trips only when the two agree, and that case is not stated.
- Macros.EncodeSteps: beyond the empty list, its properties are stated through EncodeStepsAppend and DefaultIsRebinding rather than on the function itself.

## Findings

| source | as written | input that shows it | evidently intended | confidence | as-written member | corrected member |
|---|---|---|---|---|---|---|
| src/strings.rs:138-141 | `null_utf8` writes the string's bytes without the zero terminator its read loop (lines 125-134) waits for. So nothing it writes can be read back on its own. | "Foo" is written as 46 6f 6f. Reading those three bytes fails with end of stream. | Write a zero byte after the string, as `null_utf16` does at line 222. | not executed | Strings.NullUtf8MissingTerminator | Strings.NullUtf8TerminatedRoundTrip |
| src/strings.rs:256 | `len_utf16` write compares `len` with the UTF-8 length `s.len()`. It then writes two bytes per UTF-16 unit, while the read (lines 245-254) reads (len+1)/2 units. | With `len` = 2, "ab" is written as 00 61 00 62. It reads back as "a", with 00 62 left unread. | `len` is the UTF-16 length in bytes, and the write checks that twice the unit count is `len`. | not executed | Strings.LenUtf16LosesCharacters | Strings.LenUtf16CheckedRoundTrip |
