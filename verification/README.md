# stl2img packer — Dafny model

This project models the core of `stl2img`, a small program that packs an image file and
an STL (3D model) file into one output file. The output holds the image bytes, the model
bytes, and then a trailer: the base names of both input files, one length byte for each
name, and the image size as a 32-bit big-endian integer. A reader uses the trailer to
split the output back into its two files.

The model is functional. Files and names are byte sequences (`seq<byte>`, where `byte` is
a newtype of the integers 0..255). An input stream is its content plus a read position.
The program's fatal exits become `Failure` values.

Modules:

- `Bytes` (`bytes.dfy`): the byte and `uint32` types and the conversions between them.
- `BigEndian` (`big_endian.dfy`): `writeBigEndian`, the decoder that reads it, and both
  round trips.
- `PathName` (`filename.dfy`): `filename`. It finds the last `/`, keeps the text after
  it, and keeps only the last 255 bytes of a longer name.
- `Streams` (`stream.dfy`): `stream_size` as position arithmetic, which leaves the stream
  where it was.
- `OutStreams` (`ostream.dfy`): the output file stream, with the failbit that stops all
  further writes once it is set.
- `Layout` (`layout.dfy`): the output layout written by `main` (`Pack`), the reader's
  inverse (`Unpack`), both round trips, and `Stl2Png`, the write sequence of `main` once
  the files are open, as written and as evidently intended (`Stl2PngIntended`).
- `Seqs` (`seqs.dfy`): facts about cutting a sequence into consecutive parts and joining
  them again, used to locate the fields of the output.
- `Wrappers` (`wrappers.dfy`): `Option` and `Result`.

In the code, `>> 8*k` and `& 0xFF` on the unsigned `n` are written as division by 256^k
and remainder modulo 256. The two are the same for non-negative values.

The error message at main.cpp:49 says that a negative stream size stops the program, but
the guard in front of it (main.cpp:47), `size < static_cast<std::streamsize>(size)`,
compares the size with its own cast to `std::streamsize`. On LP64 platforms that is the
same type as the size, so the guard never fires. The model follows the code and has no
negative-size error. Positions are naturals, and the read position is required to lie
within the content, so the size cannot be negative.

Copying an input with `<< rdbuf()` (main.cpp:131) sets failbit on the output stream when
the input has no bytes left (section [ostream.inserters] of the ISO C++ standard), and a failed
stream ignores every later insertion. So an empty image leaves the output file empty, and
an empty model leaves only the image bytes, without names or trailer, while the program
still exits normally. `Stl2Png` models this as written; see "## Findings".

## Model

| member | source | states |
|---|---|---|
| `PathName.FindLastOf` | main.cpp:15 | The result is the index of the last occurrence of the byte, with no occurrence after it; `None` exactly when the byte does not occur. |
| `PathName.BaseName` | main.cpp:15-19 | The result is a separator-free suffix of the path that is either the whole path or starts right after a `/`. |
| `PathName.Filename` | main.cpp:9-31 | The result has at most 255 bytes, is a suffix of the path and has no `/`. It either has exactly 255 bytes or starts right after the last `/` (or at the start of a path with no `/`). |
| `PathName.BaseNameIsLongest` | main.cpp:15-19 | No separator-free suffix of the path is longer than its base name. |
| `PathName.FilenameUnique` | main.cpp:15-28 | Any separator-free suffix of at most 255 bytes that has exactly 255 bytes or starts right after a `/` (or at the path start) equals `Filename(path)`, so the contract fixes the result. |
| `PathName.FilenameOfBareName` | main.cpp:19-28 | A path without `/` is returned unchanged when it has at most 255 bytes; otherwise its last 255 bytes are returned. |
| `PathName.FilenameOfJoin` | main.cpp:15-28 | For `prefix + "/" + name` with a separator-free `name`, the result is `name` when it has at most 255 bytes, and otherwise its last 255 bytes (the leading bytes are dropped). |
| `PathName.FilenameIdempotent` | main.cpp:9-31 | Taking the file name of a file name changes nothing. |
| `Streams.Tell` | main.cpp:39-41 | `tellg()` reports a position that lies within the content. |
| `Streams.SeekEnd` | main.cpp:40 | `seekg(0, end)` leaves the content unchanged and puts the position at the end. |
| `Streams.SeekTo` | main.cpp:43 | `seekg(from, beg)` leaves the content unchanged and puts the position at `from`. |
| `Streams.StreamSize` | main.cpp:37-58 | It succeeds exactly when the bytes from the read position to the end number at most 0xFFFFFFFF. It then returns that count and the stream with its read position and content unchanged; otherwise it fails with a size overflow. |
| `Streams.Remaining` | main.cpp:131 | What `rdbuf()` copies is the content after the read position: it has `end - position` bytes, and the content is what was already read followed by it. |
| `BigEndian.ByteOf` | main.cpp:67 | The byte the loop stores at index `i`, `(n >> 8*(3-i)) & 0xFF`, is byte `i` of the most-significant-first encoding. |
| `BigEndian.BE32` | main.cpp:63-70 | The encoding has exactly four bytes; `DecodeEncode` and `EncodeDecode` show it is the most-significant-first encoding. |
| `BigEndian.WriteBigEndian` | main.cpp:63-70 | Exactly the four encoding bytes are written, and reading them most-significant first gives back `n`. |
| `BigEndian.DecodeEncode` | main.cpp:63-70 | Decoding the four bytes written for `n` gives `n`. |
| `BigEndian.EncodeDecode` | main.cpp:63-70 | Every four-byte sequence is the encoding of the value it decodes to. |
| `BigEndian.EncodingInjective` | main.cpp:63-70 | Different values are written as different byte sequences. |
| `BigEndian.BE32Examples` | main.cpp:63-70 | 0x01020304 is written as `01 02 03 04`, 0 as `00 00 00 00` and 0xFFFFFFFF as `FF FF FF FF`. |
| `Bytes.ToByte` | main.cpp:132 | Casting a length of at most 255 to `uint8_t` gives a byte with that value. |
| `Layout.SizeField` | main.cpp:133 | The size field is four bytes, and reading them most-significant first gives back the size. |
| `Layout.FixedFields` | main.cpp:132-133 | The fixed fields are six bytes: byte 0 holds the first name's length, byte 1 the second name's length, and bytes 2-5 decode to the size. |
| `Layout.EncodeTrailer` | main.cpp:131-133 | The trailer is the first name, then the second name, then the six fixed bytes for the two lengths and the size, each at the offset the lengths before it give. |
| `Layout.Pack` | main.cpp:131-133 | The output has length `|a| + |b| + |na| + |nb| + 6`. The first payload, the second payload, the first name and the second name sit one after another at the offsets their lengths give. The last six bytes are the fixed fields, and the size field holds `|a|`. |
| `Layout.PackIsPayloadsThenTrailer` | main.cpp:131-133 | The output is the two payloads followed by the trailer. |
| `Layout.HoldsPartsUnique` | main.cpp:131-133 | At most one byte sequence holds a package's parts at those offsets, so the layout determines the output. |
| `Layout.PackFields` | main.cpp:128-133 | In the output, byte `len-6` is the first name's length, byte `len-5` is the second name's length, and the last four bytes decode to the first payload's length. |
| `Layout.Unpack` | main.cpp:131-133 | An accepted output yields a package whose names fit one byte and whose first payload fits 32 bits. The four parts and the six fixed bytes add up to the output's length. |
| `Layout.UnpackOfParts` | main.cpp:131-133 | The reader recovers a package from any byte sequence that holds the package's parts at the offsets of the layout. |
| `Layout.UnpackPack` | main.cpp:124-133 | For names of at most 255 bytes and a first payload of at most 0xFFFFFFFF bytes, a reader of the output recovers both payloads and both names exactly. The second payload is taken as everything between the first payload and the names. |
| `Layout.FixedFieldsOf` | main.cpp:132-133 | Any six bytes are the fixed fields for the two lengths and the size they hold. |
| `Layout.PackUnpack` | main.cpp:131-133 | Any output the reader accepts is exactly `Pack` of the package it returns, so no two packages share an output. |
| `Layout.WritesArePack` | main.cpp:131-133 | The bytes in the order `main` writes them (payloads, names, two length bytes, big-endian size) are `Pack` of the package. |
| `OutStreams.Insert` | main.cpp:131-133 | Inserting into a good stream appends the bytes and keeps it good; a failed stream is left exactly as it was. |
| `OutStreams.InsertBuffer` | main.cpp:131 | Copying an input through `rdbuf()` fails the stream exactly when it was already failed or the input is empty; a good copy appends the input's bytes, a failed one writes nothing. |
| `OutStreams.FailedIgnoresAll` | main.cpp:131-133 | Once the stream has failed, no sequence of insertions changes it. |
| `OutStreams.GoodAppendsAll` | main.cpp:131-133 | On a good stream, each further insertion appends its bytes after everything inserted before. |
| `Layout.MainInsertions` | main.cpp:131-133 | The insertion sequence of `main` fails exactly when the image or the model is empty. An empty image writes nothing, an empty model writes only the image, and otherwise the payloads, names, length bytes and size are written in order. |
| `Layout.Stl2Png` | main.cpp:121-133 | The program writes output exactly when the image's remaining size fits 32 bits; otherwise it stops with a size overflow. An empty image gives an empty file, and an empty model gives only the image bytes. When both are non-empty the output is `Pack` of the remaining image bytes, the remaining model bytes and both `filename` results, and unpacking it gives that package back. |
| `Layout.EmptyModelLosesTrailer` | main.cpp:131 | The image bytes alone, which is what the program leaves for an empty model, are not the layout's output for that package, and the reader does not recover the package from them. |
| `Layout.EmptyImageLosesEverything` | main.cpp:131 | The empty file left for an empty image is not the layout's output for any package, and the reader rejects it. |
| `Layout.Stl2PngIntended` | main.cpp:121-133 | With copying that writes nothing for an empty input and keeps the stream good, the output exists exactly when the image's size fits 32 bits, is always `Pack` of the remaining image bytes, the remaining model bytes and both `filename` results, and always unpacks to that package. |
| `Layout.PackExample` | main.cpp:131-133 | The image `41 42 43` named `img.png` and the model `53 54` named `model.stl` give the 27 bytes `41 42 43`, `53 54`, the two names, `07 09`, then `00 00 00 03`. |

## Left out

- Argument-count checks, `usage()`, opening the three files, and error messages with exit codes (main.cpp:77-118). These are process and I/O plumbing.
- Copying the streams through `rdbuf()`. It is modelled as the bytes from the read position to the end (`Streams.Remaining`). The failbit set by copying an empty input is modelled (`OutStreams.InsertBuffer`); other write failures, such as a full disk, are not.
- The negative-size guard (main.cpp:47-51). As written it compares a value with its own cast to `std::streamsize`, the same type on LP64 platforms, and never fires. Positions are naturals with `position <= end`, so a failed `tellg` returning -1 is outside the model.
- Escaped `/` in paths (a TODO at main.cpp:7 and main.cpp:13-14). Every `/` byte separates, as in the code.
- The warning printed when a name is truncated (main.cpp:25-27). It does not affect the returned name.
- Paths are byte sequences: `std::string` holds bytes, and no character encoding is applied.

## Findings

| source | as written | input that shows it | evidently intended | confidence | as-written member | corrected member |
|---|---|---|---|---|---|---|
| main.cpp:131 | `stl2png << png.rdbuf() << stl.rdbuf() << …`: copying a model with no bytes sets failbit, so the names, length bytes and size are never written (`Layout.Stl2Png`) | a non-empty image and an empty model file | the trailer is written whatever the inputs' sizes, so the output can be split again | high that failbit is set (section [ostream.inserters] of the ISO C++ standard); not executed | `Layout.EmptyModelLosesTrailer` | `Layout.Stl2PngIntended` |
| main.cpp:131 | copying an image with no bytes sets failbit before anything is written, so the output file stays empty and the program still exits with 0 (`Layout.Stl2Png`) | an empty image file | the output holds the (empty) image, the model and the trailer | high that failbit is set (section [ostream.inserters] of the ISO C++ standard); not executed | `Layout.EmptyImageLosesEverything` | `Layout.Stl2PngIntended` |
