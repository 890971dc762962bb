# raw2png: HSI Raw ("mhwanh") decoder, modelled in Dafny

raw2png converts HSI Raw images, the uncompressed raster format of Moto Racer and
several other 1990s games, to PNG. This project models the converter's decode:

- the 6-byte signature check;
- the three big-endian 16-bit header fields at offsets 8, 10 and 12 (width, height,
  palette colour count);
- the jump to the fixed payload offset 0x20;
- the two-way branch. With a palette, 768 palette bytes are dumped to a `.pal` file,
  then `width*height` index bytes follow. Without one, every remaining byte is RGB data
  that must reshape to `height x width x 3`.

It also models the output-name helper `filename_gen`.

Files:

- `byte_reader.dfy` (module `ByteReader`): bytes, big-endian integers, and `Reader`, a
  class with a `pos` field. `Reader` follows the `io.BytesIO` cursor. `Seek` may go past
  the end. `Read(n)` returns at most `n` bytes, silently short near or past the end, and
  moves `pos` by what it returned. `ReadAll` returns the rest.
- `posix_path.dfy` (module `PosixPath`): `basename`, `splitext` and `filename_gen`, with
  POSIX semantics.
- `raw2png.dfy` (module `Raw2Png`): `DecodeSpec` states the decode by fixed offsets.
  `Decode` is the imperative decode. It moves a `Reader` step by step, as `main` moves
  its cursor, and is proved equal to `DecodeSpec`. The lemmas state the format's
  properties. `Outputs` lists the files `main` writes.

The decode fails in exactly three ways, the same three as the code:

- `BadSignature`: the signature is wrong, or the file is shorter than 6 bytes.
- `NotEnoughImageData`: `Image.frombytes` received fewer than `width*height` index bytes.
- `CannotReshape`: numpy's `reshape` cannot form the RGB array.

Every other short read is silent. An empty header read counts as 0. A one-byte header
read counts as that byte. A short palette is dumped as it is.

There is no error for a short header or a short palette. Bytes after the RGB data are
not tolerated: they make the reshape fail.

The `.pal` file is written before the index data is checked. So `Decoded.paletteDump`
is present whenever the palette branch is taken, even when the picture then fails.

## Model

| member | source | states |
|---|---|---|
| `ByteReader.Reader.constructor` | raw2png.py:46 | a fresh cursor over the file's bytes starts at position 0 |
| `ByteReader.Reader.Seek` | raw2png.py:52 | seeking sets the position, even beyond the end of the data |
| `ByteReader.Reader.Read` | raw2png.py:55-59 | `read(n)` returns the window of at most n bytes at the cursor and advances the cursor by exactly the number of bytes returned |
| `ByteReader.Reader.ReadAll` | raw2png.py:87 | `read()` returns every byte from the cursor to the end (none when past the end) |
| `ByteReader.Window` | raw2png.py:55-59 | a read returns at most n bytes; it is full exactly when n is 0 or the data reaches from+n; it is short only when the data is exhausted |
| `ByteReader.WindowAt` | raw2png.py:55-59 | byte i of a read window is byte from+i of the data |
| `ByteReader.Tail` | raw2png.py:87 | the rest of the data has length \|data\|-from, or 0 when the cursor is past the end |
| `ByteReader.TailAt` | raw2png.py:87 | byte i of what `read()` returns is byte from+i of the data |
| `ByteReader.WindowsAdjoin` | raw2png.py:55-59 | consecutive reads read the same bytes as reads at the fixed offsets 8, 10, 12 (and 0x320 after the palette), also on short input |
| `ByteReader.WindowOfPrefix` | raw2png.py:69-77 | bytes after a read window do not affect what the window reads |
| `ByteReader.WindowsAgree` | raw2png.py:55-59 | a read depends only on the bytes inside its window |
| `ByteReader.FromBytesBE` | raw2png.py:55 | `int.from_bytes(..., "big")` of n bytes is below 256^n |
| `ByteReader.FromBytesBEShort` | raw2png.py:55-59 | an empty read gives 0, a 1-byte read gives that byte, a 2-byte read gives 256*b0+b1; each is below 65536 |
| `ByteReader.U16RoundTrip` | raw2png.py:55-59 | encoding a 16-bit value as two big-endian bytes and decoding them returns the value |
| `ByteReader.U16RoundTripBytes` | raw2png.py:55-59 | decoding two bytes and encoding the value again returns the same two bytes |
| `PosixPath.LastIndexOf` | raw2png.py:31 | the index of the last occurrence of a character, or -1, with no occurrence after it |
| `PosixPath.Basename` | raw2png.py:31 | `basename` is a suffix of the path with no `/`, and it is either the whole path or preceded by a `/` |
| `PosixPath.ExtStart` | raw2png.py:31 | `splitext` cuts at a dot after which there is no further dot and no `/` |
| `PosixPath.SplitExt` | raw2png.py:31 | root and extension concatenate back to the path; the extension is empty or a dot followed by no dot and no `/` |
| `PosixPath.SplitExtKeepsWhole` | raw2png.py:31 | the root is the whole name exactly when every dot of the last component has only dots before it in that component |
| `PosixPath.FilenameGen` | raw2png.py:28-33 | `filename_gen(p, ext)` ends with `.` + ext; what precedes it is the basename of p with the extension `splitext` finds removed |
| `PosixPath.FilenameGenNoDirectory` | raw2png.py:28-33 | `filename_gen(p, ext)` contains no `/` when ext contains none |
| `Raw2Png.ReadHeader` | raw2png.py:52-59 | width, height and palette count each lie in 0..65535 |
| `Raw2Png.DecodeSpec` | raw2png.py:46-90 | a picture only with the signature present; dimensions below 65536; an indexed plane has width*height indices and its palette is the one dumped; an RGB plane has height*width*3 bytes and comes with no palette; the dump is at most 768 bytes |
| `Raw2Png.Decode` | raw2png.py:46-90 | the step-by-step decode through the cursor gives exactly the fixed-offset result `DecodeSpec` |
| `Raw2Png.SignatureGate` | raw2png.py:47-49 | the result is the signature failure, with no palette and nothing else read, if and only if bytes 0..5 are not "mhwanh" (including input shorter than 6 bytes) |
| `Raw2Png.HeaderFieldBytes` | raw2png.py:55-59 | a header field is 256*b[k]+b[k+1], the single byte b[k] when only it exists, or 0; it never fails |
| `Raw2Png.HeaderFields` | raw2png.py:55-59 | with a complete header: width = 256*b8+b9, height = 256*b10+b11, colours = 256*b12+b13 |
| `Raw2Png.HeaderIgnoresReserved` | raw2png.py:52-59 | the signature verdict and header fields do not depend on bytes 6-7 or 14..31 |
| `Raw2Png.ReservedBytesIgnored` | raw2png.py:52-62 | changing bytes 6-7 or the reserved bytes 14..31 never changes the decode result, because the payload is read from 0x20 |
| `Raw2Png.IndexedBranch` | raw2png.py:64-78 | with a non-zero colour count, the dumped palette is data[32..min(800,\|data\|)]; decoding succeeds iff width*height is 0 or that many bytes follow offset 800; the indices are exactly those bytes; the only failure is not enough image data |
| `Raw2Png.DirectBranch` | raw2png.py:82-90 | with colour count 0, no palette is produced; decoding succeeds iff the bytes from 0x20 to the end number exactly height*width*3; the plane is all of them; the only failure is the reshape |
| `Raw2Png.IndexedIgnoresTrailing` | raw2png.py:69-77 | appending bytes after a complete palette image leaves the decode result unchanged |
| `Raw2Png.DirectRejectsTrailing` | raw2png.py:86-89 | appending any byte to a decoded RGB file of at least 0x20 bytes makes the reshape fail |
| `Raw2Png.DirectExample` | raw2png.py:82-90 | a 2x2 RGB file decodes to width 2, height 2, no palette, and its 12 pixel bytes verbatim |
| `Raw2Png.IndexedExample` | raw2png.py:64-79 | a 2x2 palette file with four zero indices decodes to its 768-byte palette and indices [0,0,0,0] |
| `Raw2Png.PaletteDumpedIff` | raw2png.py:64-71 | a palette is dumped if and only if the signature is correct and the colour count is non-zero |
| `Raw2Png.Outputs` | raw2png.py:64-90 | `main` writes at most two files, and none exactly when no palette was dumped and no picture was decoded |
| `Raw2Png.OutputsWritten` | raw2png.py:64-90 | `main` writes a `.pal` file iff a palette was dumped, and always first; it writes a `.png` iff a picture was decoded, and always last; they are named `filename_gen(path, "pal")` and `filename_gen(path, "png")` |
| `Raw2Png.OutputsContents` | raw2png.py:64-90 | the `.pal` file holds the dumped palette bytes, also when the picture then fails; the `.png` holds the decoded picture |
| `Raw2Png.OutputsShareThePalette` | raw2png.py:64-79 | for any input file, the `.pal` file written and the indexed `.png` written carry the same palette |

## Left out

- Reading the input file and `sys.argv` handling: file I/O and process arguments. The
  model takes the file's bytes and its path as parameters.
- `logging` calls: diagnostics only.
- PNG encoding by Pillow (`Image.frombytes`, `putpalette`, `fromarray`, `save`) and
  numpy's `frombuffer`/`reshape`: these are foreign library calls. Only their length
  checks are modelled, as `NotEnoughImageData` and `CannotReshape`. Any failure inside
  `save` is not modelled, for example for a zero-sized image.
- Writing the `.pal` and `.png` files: the model gives the bytes and the picture that
  would be written, and the file names.
- Non-ASCII signature bytes: `str(..., "ascii")` raises `UnicodeDecodeError` where the
  code would otherwise log "Incorrect signature". Both stop the conversion without output,
  and both are modelled as `BadSignature`.
- Exit status: a run that ends in an exception is modelled by `Outputs` as the same run
  without the PNG file; the exit status itself is not modelled.
- Windows path semantics: only POSIX `posixpath` behaviour is modelled; Windows drive
  letters and `\` separators are not. Following `posixpath.splitext`, the last dot is
  kept as part of the name when only dots precede it in the last component (`..x` as well
  as `.profile`).
