# Verified model of the icytower_forged byte-level tools

icytower_forged recovers a Windows game. Its Python tools read the game's data
files, check its replays, compare compiled functions with the original, and
generate the asset table the port is built from. This project models the
algorithms in those tools on byte strings and character strings, and proves what
they guarantee for every input.

| files | what they model |
|---|---|
| `Bits.dfy`, `Words.dfy`, `Layout.dfy`, `Text.dfy`, `Wrappers.dfy` | Python's `& \| ^ << >>` on non-negative integers, four-byte integers, byte layouts, `%d`, optional values |
| `Lzss.dfy`, `LzssFormat.dfy`, `LzssBytes.dfy` | the ring-buffer LZSS decompressor; an unbounded-history decoder it refines and a token encoder it undoes |
| `Packfile.dfy`, `PackfileFormat.dfy`, `PackfileBytes.dfy` | masked header magic, password stream, `open_packfile`; a writer of such files |
| `Datafile.dfy`, `DatafileFormat.dfy`, `DatafileSafety.dfy`, `DatafileBytes.dfy`, `Extraction.dfy` | the cursor class, the recursive object reader and `flatten`; a printer of object trees; offsets and payloads; the whole loading path |
| `Hash.dfy`, `TwoAdic.dfy`, `ReplayFile.dfy`, `ReplayBytes.dfy`, `ReplayChecksum.dfy`, `ChecksumForm.dfy` | `hash32` with its inverse, the replay format and its writer, the checksum |
| `Doubles.dfy`, `FloatSteps.dfy` | the value of a stored float, rounding to doubles, and one step of the checksum's float loops |
| `ReplayTamper.dfy`, `HeaderTamper.dfy`, `TextTamper.dfy` | which changes to the records, the integer fields and the texts of a replay the checksum notices |
| `SeqRatio.dfy`, `Masking.dfy` | longest common subsequence by an in-place table; relocation masking |
| `Bitmap.dfy`, `BitmapCode.dfy`, `BitmapBytes.dfy` | bitmap conversion and canonical bitmap bytes |
| `AssetNames.dfy`, `AssetIds.dfy`, `AssetForms.dfy`, `AssetTable.dfy`, `RowPattern.dfy`, `TableRoundTrip.dfy`, `TableForms.dfy` | asset identifiers, the table printer, the checker's row pattern and its parser |
| `PendingQueue.dfy`, `PendingForms.dfy` | the boundary scanner's queue of function-pointer immediates |

Code that changes things step by step is a method proved against a function; the
theorems are about the functions. Bytes are integers 0..255. The bit operators are
defined by binary digits in `Bits`, `&` also for negative left operands, so `x ^ y`,
`x >> k` and `x & m` in the methods are the Python operators, and lemmas such as
`Bits.AndLow`, `Words.WordForm` and `Lzss.RefForms` give the arithmetic they come
down to. The float loops of the checksum add as Python does, rounding to the nearest
double with ties to even; `Doubles.Round` computes that, and `Doubles.RoundNearest`
says that it is a nearest double.

The modules named `...Bytes` and `...Form(s)` state in numbers and characters what the
functions of the other modules compute: every offset, weight, constant and spelling of
the formats occurs there once more, independently of the definitions.

The repository has no writer for the formats it reads. The encoder
(`LzssFormat.Encode`), the packfile writer (`PackfileFormat.Pack`), the tree printer
(`DatafileFormat.PrintDatafile`) and the replay writer (`ReplayFile.Write`) are
specifications of those formats.

Findings about the code:

- A table row whose strings hold a carriage return is not read back: the checker
  opens the table in text mode (`carrier/gen/check_assets.py:69`), which turns `\r`
  into `\n`. `TableRoundTrip.TableReadsBack` gives the exact condition and
  `TableRoundTrip.ReturnIsLost` a manifest record that fails.
- The checksum does not always notice a changed score, combo, floor or other integer
  field of odd weight. The sum of these fields passes through 300 steps
  `s = int(s + c[i] * w) & M`, and some of the products `c[i] * w` make two sums
  equal. `FloatSteps.Keeps` is the exact test: a whole product must stay within
  -2^53 and 2^53 - 2^32 + 1; a positive fraction must not carry 2^32 - 1 up to the
  next integer; a negative fraction must lie below -(2^32 - 1) or be so small that
  rounding swallows it. `HeaderTamper.OddFieldExact` proves that all changes of such
  a field are noticed if and only if every product passes. Non-negative products
  below 2^32 that are multiples of 2^-20 pass (`FloatSteps.CoarseKeeps`).
  `HeaderTamper.NegativeTelemetryHides` and `HeaderTamper.RoundingHides` are replays
  that fail, one for a negative fraction and one for rounding.
- Exchanging name and date is never noticed, and the comment byte at position 1 does
  not enter the checksum at all (`TextTamper.SwapTexts`, `TextTamper.CommentChange`).
- In `lib_boundary_scan.py` the comment says that a call drains the pending
  immediates; direct jumps match the same pattern and drain them too. The model
  follows the code.

## Model

| member | source | states |
|---|---|---|
| Lzss.LzssDecompress | tools_recon/assets_datafile.py:65-99 | on every input, truncated or not, the ring-buffer decoder with its shifting flag register terminates and returns what a decoder with unbounded history returns |
| Lzss.CopyMatch | tools_recon/assets_datafile.py:87-97 | a match, overlapping or wrapping, copies byte by byte from one fixed distance 1..4096 back in the history that starts with 4096 zeros |
| Lzss.Emit | tools_recon/assets_datafile.py:84-86 | outputting a byte keeps the ring equal to the last 4096 history bytes and the write position in step with the output length |
| Lzss.WriteMirrors | tools_recon/assets_datafile.py:85-86 | overwriting slot r with the new byte keeps every slot holding the most recent byte of its residue |
| Lzss.ReadMirrors | tools_recon/assets_datafile.py:94 | reading slot (i + k) mod 4096 after k copied bytes reads the byte at the distance the copy began with |
| Lzss.RegisterTest | tools_recon/assets_datafile.py:75-80 | bit 8 of the flag register is clear exactly when all eight kinds of a group are used, and the low bit is the next kind |
| Lzss.RefForms | tools_recon/assets_datafile.py:90-92 | the masks and shifts of a reference yield a 12-bit position and a length 3..18 |
| LzssFormat.RoundTrip | tools_recon/assets_datafile.py:65-99 | decompressing any encoded token list, last group partial or full, returns the tokens' expansion |
| LzssFormat.LiteralEncodingDecodes | tools_recon/assets_datafile.py:80-86 | every byte string is the decompression of its literal-only encoding |
| LzssFormat.Canonical | tools_recon/assets_datafile.py:74-99 | every stream, damaged or cut short, decompresses to the expansion of some tokens, so re-encoding keeps its content |
| LzssFormat.OutputBound | tools_recon/assets_datafile.py:74-99 | 17 times the output length is at most 144 times the input length |
| LzssFormat.OutputBoundTight | tools_recon/assets_datafile.py:74-99 | that bound is reached for every number of whole groups |
| LzssFormat.PrefixMonotone | tools_recon/assets_datafile.py:74-99 | the output for a prefix of the input is a prefix of the output |
| LzssBytes.LiteralReads | tools_recon/assets_datafile.py:80-86 | a literal adds its byte to the output |
| LzssBytes.ReferenceReads | tools_recon/assets_datafile.py:67-97 | a reference to ring position (4078 + n - d) mod 4096 after n output bytes adds the bytes d back in the output, or zeros before its beginning |
| LzssBytes.TokenBytes | tools_recon/assets_datafile.py:80-92 | the bytes of a literal and of a reference |
| LzssBytes.FlagBits | tools_recon/assets_datafile.py:75-80 | bit i of a flag byte is 1 exactly if token i of the group is a literal |
| LzssBytes.GroupGrows | tools_recon/assets_datafile.py:75-92 | the tokens of a group follow one another behind their flag byte |
| LzssBytes.GroupsFollow | tools_recon/assets_datafile.py:75-80 | a group is full with eight tokens |
| LzssBytes.CutShort | tools_recon/assets_datafile.py:76-89 | a flag byte with nothing behind it and half a reference add nothing |
| Packfile.EncryptMask | tools_recon/assets_datafile.py:41-50 | the loop computes the mask, zero without a password |
| Packfile.LanesMeaning | tools_recon/assets_datafile.py:45-47 | byte k of the mask is the exclusive or of the password bytes at positions k mod 4 |
| Packfile.DecryptStream | tools_recon/assets_datafile.py:53-62 | in-place decryption equals the stream cipher at the given phase; without a password the data is returned |
| Packfile.DecipherTwice | tools_recon/assets_datafile.py:60-61 | the cipher is its own inverse |
| Packfile.DecipherSplit | tools_recon/assets_datafile.py:119-121 | deciphering a whole is deciphering its parts with the phase advanced, which is why the body starts at phase 4 |
| Packfile.OpenPackfile | tools_recon/assets_datafile.py:102-125 | the nested trial loops open with the first matching trial, fail on a short header, and fail when no trial matches |
| PackfileFormat.HeaderDetermines | tools_recon/assets_datafile.py:109-112 | with a non-empty password at most one of the four magic and format combinations matches a header |
| PackfileFormat.HeaderWithoutPassword | tools_recon/assets_datafile.py:109-112 | without one the format leaves no trace but the packed flag is determined |
| PackfileFormat.OpenPack | tools_recon/assets_datafile.py:102-125 | for every password, format flag and stored or compressed body, opening a packed file with its password returns the body and the flags |
| PackfileFormat.OpenPackUnnamed | tools_recon/assets_datafile.py:107-115 | with no password given, a file packed with none or either game password opens to its body and reports that password |
| PackfileBytes.KeyRepeats | tools_recon/assets_datafile.py:58-61 | deciphering zeros at any multiple of the password's length shows the password from its first byte |
| PackfileBytes.PackedBytes | tools_recon/assets_datafile.py:117-121 | byte i >= 4 of a packed file is byte i - 4 of its content under password byte i modulo the password's length |
| PackfileBytes.UnlockedBytes | tools_recon/assets_datafile.py:107-122 | without a password a file is slh. or slh! and its content |
| PackfileBytes.LockedHeader | tools_recon/assets_datafile.py:48-50 | with one, the header word is the magic under the mask, which the new format changes by 42 |
| PackfileBytes.MaskOfBlock | tools_recon/assets_datafile.py:45-47 | every four password bytes, or the last one to three, enter the mask as a little-endian number |
| PackfileBytes.GamePasswords | tools_recon/assets_datafile.py:26-27 | the two passwords spelt out |
| Datafile.R.constructor | tools_recon/assets_datafile.py:129-131 | a cursor starts at 0 |
| Datafile.R.MGetL | tools_recon/assets_datafile.py:133-136 | reads the signed big-endian word at the cursor and advances by 4, or fails without moving |
| Datafile.R.Read | tools_recon/assets_datafile.py:138-141 | returns the slice at the cursor, cut at the end of the data, and advances by the full length |
| Datafile.ReadProps | tools_recon/assets_datafile.py:156-164 | the property loop collects all properties and stops behind the type word |
| Datafile.ReadObject | tools_recon/assets_datafile.py:165-183 | one object with its header fields, its data or its children, and the cursor fix-up of directories |
| Datafile.ReadObjects | tools_recon/assets_datafile.py:152-184 | the recursive reader over the moving cursor computes the positional meaning of the bytes, result, cursor and errors |
| Datafile.ParseDatafile | tools_recon/assets_datafile.py:144-149 | the magic check and the reader together |
| Datafile.Flatten | tools_recon/assets_datafile.py:187-194 | appends the objects in preorder to the accumulator |
| DatafileFormat.ParsePrint | tools_recon/assets_datafile.py:144-184 | parsing a printed tree of any depth rebuilds its objects, names, paths, indices, properties and offsets and consumes exactly its bytes |
| DatafileFormat.ReadPrinted | tools_recon/assets_datafile.py:152-184 | the same wherever the printed list stands in a file, under any path prefix, with unread bytes at the end of directories skipped |
| DatafileFormat.DictionaryHolds | tools_recon/assets_datafile.py:161-164 | a property whose type does not come again is found under its own name with its own text |
| DatafileFormat.FourccInjective | tools_recon/assets_datafile.py:36-38 | different type words have different four-character names |
| DatafileBytes.FourccCharacters | tools_recon/assets_datafile.py:36-38 | a type word is its four bytes as characters, highest first |
| DatafileBytes.PropertyRead | tools_recon/assets_datafile.py:156-164 | behind the characters prop come four characters of type, a big-endian length and that many characters; anything else ends the properties |
| DatafileBytes.ParseInNumbers | tools_recon/assets_datafile.py:144-184 | every parsed file begins with ALL. and a count; every object at any depth has its type, sizes and index from the bytes before its offset, its path from its name or number behind that of its directory, and children exactly if its type is FILE |
| DatafileBytes.OtherMagic | tools_recon/assets_datafile.py:146-148 | files that begin otherwise, and only those, are refused for their magic |
| DatafileBytes.HeadersInPlace | tools_recon/assets_datafile.py:165-174 | in the flattened list the type is the four characters twelve bytes before the offset, followed by the two sizes |
| DatafileBytes.NamedObject | tools_recon/assets_datafile.py:170-171 | a property spelt NAME names its object and ends its path |
| DatafileBytes.SoundInCharacters | tools_recon/assets_datafile.py:156-184 | which trees the print theorems are about |
| DatafileSafety.ParseIsLaid | tools_recon/assets_datafile.py:152-194 | after every successful parse the flattened offsets strictly increase, payloads are disjoint and each leaf holds the bytes at its offset |
| DatafileSafety.ObjectLaid | tools_recon/assets_datafile.py:155-183 | reading one object moves the cursor forward past all its payloads, also through the directory fix-up |
| DatafileSafety.PreorderComplete | tools_recon/assets_datafile.py:187-194 | flatten lists exactly the objects at the top and inside directories |
| Extraction.Load | tools_recon/assets_datafile.py:249-251 | open, parse and flatten with the errors of each |
| Extraction.LoadPacked | tools_recon/assets_datafile.py:249-251 | a printed tree packed in any way loads back object by object |
| Hash.Hash32 | scripts/itr_real_files_check.py:20-27 | the masked steps compute the hash of the argument modulo 2^32 |
| Hash.UndoXorShift | scripts/itr_real_files_check.py:22-26 | every shift-and-xor step has an explicit inverse |
| Hash.ScaleBack | scripts/itr_real_files_check.py:23-25 | multiplication modulo 2^32 by a factor with an inverse is undone by it |
| Hash.UnhashHash | scripts/itr_real_files_check.py:20-27 | the inverse function recovers the word from its hash |
| Hash.HashBijective | scripts/itr_real_files_check.py:20-27 | hash32 is a bijection on 32-bit words |
| Hash.S32 | scripts/itr_real_files_check.py:30-31 | the xor and subtraction give the two's complement value |
| ReplayFile.Parse | scripts/itr_real_files_check.py:38-70 | the sequential parser returns the fields at their absolute offsets, column k of row i at 212 + 4(5i + k), and fails exactly when the file is too short |
| ReplayFile.ParseColumns | scripts/itr_real_files_check.py:58-62 | the interleaved float columns |
| ReplayFile.ParseRecords | scripts/itr_real_files_check.py:63-68 | the five-byte records, none for a negative size |
| ReplayFile.ParseIffWritten | scripts/itr_real_files_check.py:38-70 | a file of the right length parses to a replay exactly when it starts with that replay written in the documented order |
| ReplayFile.ParseWrite | scripts/itr_real_files_check.py:38-70 | parsing a written replay, whatever follows it, returns it and counts the trailing bytes |
| ReplayFile.WriteParsed | scripts/itr_real_files_check.py:38-70 | every parsable file of non-negative size is 2212 + 5 size + trailing bytes long and is the written form of what was parsed |
| ReplayBytes.ParsesIff | scripts/itr_real_files_check.py:38-70 | which files parse |
| ReplayBytes.HeaderInNumbers | scripts/itr_real_files_check.py:43-56 | the offset of every field, lowest byte first and in two's complement |
| ReplayBytes.RowsInNumbers | scripts/itr_real_files_check.py:49-69 | the offsets of the array entries, the floats and the records, and the counts |
| Doubles.RoundNearest | scripts/itr_real_files_check.py:93-96 | the rounding of float sums yields a nearest double: no double is nearer |
| Doubles.RoundIsDouble | scripts/itr_real_files_check.py:93-96 | and what it yields is a double |
| Doubles.RoundExact | scripts/itr_real_files_check.py:93-96 | a sum that is a double is not rounded |
| Doubles.JustBelow | scripts/itr_real_files_check.py:94 | int() of a sum just below an integer gives that integer exactly when the sum is within half a unit in its last place of it |
| Doubles.BesideBig | scripts/itr_real_files_check.py:94 | next to a large double, integers of more than 53 bits round to it |
| FloatSteps.KeepsExact | scripts/itr_real_files_check.py:94 | for every product the loops can form, a step keeps all words apart exactly when the product passes the test, and then it adds a constant modulo 2^32 |
| FloatSteps.StepCollides | scripts/itr_real_files_check.py:94 | every product that fails the test makes two words equal |
| FloatSteps.CoarseKeeps | scripts/itr_real_files_check.py:94 | non-negative products below 2^32 with at most 20 binary places pass |
| ReplayChecksum.ChecksumOf | scripts/itr_real_files_check.py:73-108 | the loops, masking and rounding at every step, compute the hashed accumulator, and raise exactly when a float of the three columns is infinite or not a number |
| ReplayChecksum.AddFloats | scripts/itr_real_files_check.py:92-96 | the float loop is the 300 steps in order, or the error |
| ReplayChecksum.AccumulatorForm | scripts/itr_real_files_check.py:90-107 | masking after every integer addition is masking the sum once |
| ChecksumForm.SByteInNumbers | scripts/itr_real_files_check.py:34-35 | a text byte counts in two's complement |
| ChecksumForm.EnteringInNumbers | scripts/itr_real_files_check.py:76-91 | the constant and every weight of the integer fields |
| ChecksumForm.RowInNumbers | scripts/itr_real_files_check.py:92-96 | the three weights of row i of the float columns |
| ChecksumForm.ProductInNumbers | scripts/itr_real_files_check.py:94-96 | the products are not rounded |
| ChecksumForm.AccumulatorInNumbers | scripts/itr_real_files_check.py:90-107 | the weights of the texts, the comment and the records, and that all sums are reduced modulo 2^32 |
| ChecksumForm.ZeroAccumulator | scripts/itr_real_files_check.py:73-107 | the replay of zeros is hashed from 6515783 |
| ChecksumForm.TruncInNumbers | scripts/itr_real_files_check.py:94 | int() goes toward zero |
| ChecksumForm.RoundingInNumbers | scripts/itr_real_files_check.py:94 | sums have 53 bits, ties go to even |
| ChecksumForm.SingleInNumbers | scripts/itr_real_files_check.py:61 | sign, exponent and fraction of a stored float, and which are finite |
| ChecksumForm.HashInNumbers | scripts/itr_real_files_check.py:20-27 | hash32 written with division and multiplication |
| ReplayTamper.SameChecksum | scripts/itr_real_files_check.py:108 | two replays share a checksum exactly when their accumulators agree |
| ReplayTamper.CycleChange | scripts/itr_real_files_check.py:106-108 | a changed cycle count goes unnoticed exactly when the change is a multiple of 2^32 over the twos in 7((i mod 167) + 1) |
| ReplayTamper.SmallCycleChange | scripts/itr_real_files_check.py:106-108 | no change of one cycle count by less than 2^25 goes unnoticed |
| ReplayTamper.HiddenCycleChange | scripts/itr_real_files_check.py:106-108 | at every record with i mod 167 = 127 a change of 2^25 does |
| ReplayTamper.KeyChange | scripts/itr_real_files_check.py:106-108 | every change of one key byte is noticed |
| ReplayTamper.SwapKeys | scripts/itr_real_files_check.py:106-108 | swapping two key bytes changes the checksum exactly when the bytes differ and the indices differ modulo 193 |
| ReplayTamper.SwapRecords | scripts/itr_real_files_check.py:106-108 | swapping two records goes unnoticed exactly when the differences of their fields times the differences of their weights cancel modulo 2^32 |
| ReplayTamper.SwapAligned | scripts/itr_real_files_check.py:106-108 | swapping records whose indices agree modulo 193 and 167 never changes the checksum |
| HeaderTamper.AccumulatorClosed | scripts/itr_real_files_check.py:76-107 | when all products pass the test the whole accumulator is one unbounded sum reduced once |
| HeaderTamper.FieldChange | scripts/itr_real_files_check.py:76-96 | when all products pass, exactly which changes of each of the thirteen header integers and ten array entries go unnoticed |
| HeaderTamper.OddFieldChange | scripts/itr_real_files_check.py:76-96 | when all products pass, none of the nine fields of odd weight can change unnoticed |
| HeaderTamper.OddFieldExact | scripts/itr_real_files_check.py:76-108 | all changes of a field of odd weight are noticed if and only if all 300 products pass the test |
| HeaderTamper.HiddenChange | scripts/itr_real_files_check.py:76-108 | where a product fails, two values of the field that share a checksum |
| HeaderTamper.NegativeTelemetryHides | scripts/itr_real_files_check.py:93-96 | a replay whose checksum stays when its score changes, for a negative fraction in its floats |
| HeaderTamper.RoundingHides | scripts/itr_real_files_check.py:93-96 | another one, whose floats are not negative, because of rounding |
| TextTamper.CommentChange | scripts/itr_real_files_check.py:101-105 | exactly which changes of a comment byte go unnoticed: all at position 1, elsewhere only to the byte whose value plus i is the opposite |
| TextTamper.NameChange | scripts/itr_real_files_check.py:97-100 | a changed name byte goes unnoticed exactly when the date byte beside it is -i in two's complement |
| TextTamper.DateChange | scripts/itr_real_files_check.py:97-100 | the same for a date byte |
| TextTamper.SwapTexts | scripts/itr_real_files_check.py:97-100 | exchanging name and date never changes the checksum |
| SeqRatio.SeqRatioOf | tools_recon/fingerprint_compare.py:352-367 | the in-place table yields the ratio of the recurrence, with the empty cases |
| SeqRatio.FillRow | tools_recon/fingerprint_compare.py:361-365 | the inner loop completes one more row of the table |
| SeqRatio.LcsIsLongest | tools_recon/fingerprint_compare.py:359-366 | the last entry is the length of a common subsequence and none is longer |
| SeqRatio.RatioSymmetric | tools_recon/fingerprint_compare.py:352-367 | the ratio does not depend on the order of its arguments |
| SeqRatio.RatioRange | tools_recon/fingerprint_compare.py:352-367 | the ratio lies in [0, 1] and is 1 exactly for equal sequences |
| SeqRatio.RatioMeaning | tools_recon/fingerprint_compare.py:367 | the ratio times both lengths is twice the length of a longest common subsequence |
| Masking.ZeroRelocated | tools_recon/fingerprint_compare.py:323-331 | zeroing in place clears exactly the bytes some relocation covers, inside the buffer |
| Masking.MaskedEqual | tools_recon/fingerprint_compare.py:393 | masked bytes are equal exactly when the bytes agree outside the covered ones |
| Masking.MaskedInNumbers | tools_recon/fingerprint_compare.py:317-331 | a masked byte is zero inside a field of four bytes from a relocation's offset and kept elsewhere |
| Masking.ByteExact | tools_recon/fingerprint_compare.py:370-393 | byte_exact holds exactly when both functions have the recorded size and every byte agrees or lies in the four bytes of a relocation inside the function |
| Bitmap.RequantiseExpand | tools_recon/assets_convert.py:69-82 | widening 565 fields to eight bits and requantising restores every pixel word |
| BitmapCode.BmpToPng | tools_recon/assets_convert.py:46-88 | the decoding and re-encoding loops at every depth, with palette or greys at 8 bpp and the header, depth, size and palette errors |
| BitmapCode.DecodeRows | tools_recon/assets_convert.py:56-75 | the RGB rows, or the error of the first pixel without a colour |
| BitmapCode.EncodeRows | tools_recon/assets_convert.py:77-86 | the re-encoded pixels |
| Bitmap.ConversionLossless | tools_recon/assets_convert.py:77-88 | for every size and payload at 15, 16, 24 and 32 bpp the self-check of the conversion succeeds |
| BitmapCode.MemBytesFromRows | scripts/asset_oracle_digest.py:89-106 | the canonical bytes computed from RGB rows, or from rows of indices at 8 bpp |
| BitmapCode.BodyMemBytes | scripts/asset_oracle_digest.py:109-129 | the canonical bytes computed from the stored body, and the position behind it |
| Bitmap.RoutesMeet | scripts/asset_oracle_digest.py:61-129 | both routes give the same bytes behind the same header for every bitmap that converts at 15, 16, 24 or 32 bpp |
| Bitmap.IndexRoutesMeet | scripts/asset_oracle_digest.py:61-129 | and for rows of indices at 8 bpp |
| Bitmap.GreyLossless | tools_recon/assets_convert.py:59-66 | without a palette the grey rows of an 8 bpp bitmap still hold every index |
| BitmapBytes.ConvertsIff | tools_recon/assets_convert.py:53-66 | exactly which files convert: size, depth, payload and, at 8 bpp, palette |
| BitmapBytes.PixelInNumbers | tools_recon/assets_convert.py:56-74 | the three bytes of pixel x of row y from its stored bytes, at every depth |
| BitmapBytes.RowsInNumbers | scripts/asset_oracle_digest.py:89-106 | the canonical bytes of pixel x of row y from its three colours |
| BitmapBytes.BodyInNumbers | scripts/asset_oracle_digest.py:109-129 | the canonical bytes of a body at any position do not depend on what stands around it |
| BitmapBytes.CutBody | scripts/asset_oracle_digest.py:118-129 | a body cut short |
| AssetNames.SanitizeGivesToken | carrier/gen/gen_assets.py:142-148 | a token has only A-Z, 0-9 and single inner underscores, and no number directly behind a letter |
| AssetNames.SanitizeIdempotent | carrier/gen/gen_assets.py:142-148 | sanitizing a token changes nothing |
| AssetNames.SanitizeKeepsInk | carrier/gen/gen_assets.py:142-148 | a token spells the letters and digits of the name in upper case, none lost, added or moved |
| AssetForms.SanitizeForm | carrier/gen/gen_assets.py:142-148 | a token is the name's letters and digits in upper case, with one underscore for whatever stands between two of them, and its final number split off |
| AssetForms.NumberSplit | carrier/gen/gen_assets.py:145-147 | where the final number is split off |
| AssetIds.BuildAssets | carrier/gen/gen_assets.py:200-225 | one asset per datafile object in manifest order with family, index, name and type, or the first error |
| AssetIds.Disambiguate | carrier/gen/gen_assets.py:213-220 | the wanted identifier if free, else its lowest free number, found within one more try than there are taken identifiers |
| AssetIds.TriesBounded | carrier/gen/gen_assets.py:217-219 | the pigeonhole step behind that bound |
| AssetIds.BuiltIdsDistinct | carrier/gen/gen_assets.py:211-221 | all identifiers are pairwise distinct for every manifest |
| AssetIds.GivenUnique | carrier/gen/gen_assets.py:217-220 | the identifier given is determined by the ones before it |
| AssetIds.WantedIsAssetId | carrier/gen/gen_assets.py:207-212 | the identifiers asked for match the pattern the checker expects |
| AssetForms.MainAsset | carrier/gen/gen_assets.py:112-140 | family, name and identifier of the objects of the three main datafiles; only sfx15 loses a leading S_ |
| AssetForms.CharacterAsset | carrier/gen/gen_assets.py:118-137 | those of character datafiles, where the slot name comes before the object's own |
| AssetForms.SlotsListed | tools_recon/assets_manifest.py:50-55 | the 24 slot names |
| AssetForms.AssetOfRecord | carrier/gen/gen_assets.py:223-224 | index and type are the record's |
| AssetForms.OtherStem | carrier/gen/gen_assets.py:206-209 | other stems and unknown files are refused |
| AssetForms.SelectedParts | carrier/gen/gen_assets.py:203-205 | exactly the datafile objects are taken, in order |
| AssetForms.FirstNumbers | carrier/gen/gen_assets.py:217-220 | the numbers begin with 2 |
| AssetTable.WriteRows | carrier/gen/gen_assets.py:335-342 | the row loop prints the row lines in order |
| AssetTable.ParseTableInc | carrier/gen/check_assets.py:68-79 | the scanning loop returns all leftmost matches of the text as text mode reads it |
| RowPattern.MatchIffCut | carrier/gen/check_assets.py:53-58 | the row matcher, which never reconsiders a choice, matches exactly the texts that can be cut along the pattern in any way at all |
| RowPattern.MatchComplete | carrier/gen/check_assets.py:53-58 | a text that can be cut is matched with the fields and the rest of the cut |
| RowPattern.MatchSound | carrier/gen/check_assets.py:53-58 | a matched text can be cut into the matched fields and the rest |
| RowPattern.CutUnique | carrier/gen/check_assets.py:53-58 | all cuts of a text have the same fields and the same rest, so the order in which a regular expression tries them does not matter |
| TableRoundTrip.UnescapeCStr | carrier/gen/check_assets.py:61-65 | the two sequential replacements of the reader undo the two of the printer for every name, and for the null pointer |
| TableRoundTrip.RowPrinted | carrier/gen/check_assets.py:53-58 | the row pattern matches a printed row to its end, whatever the object name contains |
| TableRoundTrip.LinesSeen | carrier/gen/check_assets.py:71-78 | all printed rows are found in order, nothing else between them |
| TableRoundTrip.TableReadsBack | carrier/gen/check_assets.py:68-79 | the printed rows are read back exactly when no string holds a carriage return and no family or type a quote or backslash |
| TableRoundTrip.ReturnIsLost | carrier/gen/check_assets.py:69 | a manifest record for which it fails |
| TableRoundTrip.GeneratedTableReadsBack | carrier/gen/check_assets.py:82-103 | the same from the manifest to the table and back |
| TableForms.SampleRow | carrier/gen/gen_assets.py:268-271 | two printed rows spelt out |
| TableForms.SpaceCodes | carrier/gen/check_assets.py:54-58 | the codes that count as space |
| TableForms.WordCodes | carrier/gen/check_assets.py:54 | the codes an identifier is made of |
| TableForms.EscapedPair | carrier/gen/check_assets.py:57 | what a backslash escapes inside a name |
| TableForms.DigitsByPlace | carrier/gen/check_assets.py:75 | digits have their values by place |
| TableForms.ReplaceLeftmost | carrier/gen/check_assets.py:65 | replacements go from left to right without overlap |
| TableForms.LineEnds | carrier/gen/check_assets.py:69 | what text mode does to line ends |
| TableForms.PlainFrame | carrier/gen/gen_assets.py:322-345 | text without braces may stand around the rows |
| Text.DecimalPlaces | carrier/gen/gen_assets.py:341 | numbers print by decimal place |
| PendingQueue.Scan | tools_recon/lib_boundary_scan.py:402-514 | the scan outputs every immediate with the fate it has in the rest of the stream |
| PendingQueue.NothingLost | tools_recon/lib_boundary_scan.py:462-480 | every recorded immediate comes out exactly once, in stream order |
| PendingQueue.FateExact | tools_recon/lib_boundary_scan.py:438-480 | the receiver is the first call that comes while the immediate waits, and there is none exactly on overflow or at the end of the stream |
| PendingQueue.ScanReceivers | tools_recon/lib_boundary_scan.py:402-514 | in the output of a whole scan the immediates of each instruction stand between all earlier and all later ones and carry the receiver of the first call reached with at most eight pending, or none exactly on overflow or at the end |
| PendingForms.NextCallTakesAll | tools_recon/lib_boundary_scan.py:438-480 | up to eight immediates are handed to the next call, with its target and family or its slot; nine or more are given up at once |
| PendingForms.EntriesParts | tools_recon/lib_boundary_scan.py:462-477 | only immediates that are entries of game functions are recorded, in order |
| PendingForms.EndOfStream | tools_recon/lib_boundary_scan.py:513-514 | what waits at the end is given up |
| PendingQueue.LevelAfter | tools_recon/lib_boundary_scan.py:478-480 | at most eight are pending between instructions |

## Left out

- ReadProps, ReadObject, ReadObjects, ParseDatafile: a negative property size or leaf size stops with `NegativeSize`; Python's slice would run with a negative bound and the cursor would move back. Negative counts and negative directory sizes are followed.
- ChecksumOf: a step adds a product that is formed without rounding error and a word, so the exponent range of doubles is never left; it is not modelled. The theorems about replays with infinite or undefined floats, for which the code raises, speak of a number the code does not return.
- SeqRatioOf: the ratio is a real number; the rounding to four decimals in the report is not modelled.
- EncryptMask, DecryptStream, OpenPackfile: passwords are byte strings, so the encoding error for characters outside Latin-1 does not arise; the descriptive strings of the info record are left out.
- ParseTableInc: `\d` accepts ASCII digits only.
- TableReadsBack, GeneratedTableReadsBack: the fixed text before and after the rows is a parameter in which no brace is followed by an identifier; file encodings are not modelled.
- WantedIsAssetId, BuildAssets: `upper` is modelled on ASCII letters; the file-to-stem table is a parameter, and object indices are natural numbers.
- ByteExact: symbol and file offsets are natural numbers; disassembly, symbol and relocation dumps are inputs.
- Scan: instructions come classified; the counters of calls and data references beside the queue are left out, and the site record is an opaque value.
- File reading and writing, JSON, argument parsing, sha256, zlib and PNG chunk framing, and all use of external libraries and programs.
- Object extraction by extension sniffing, WAV headers, font and palette conversion: straight formatting with no law behind it.
- Text parsing of disassembly and DWARF dumps, symbol classification tables, the register tracker, generated headers and build orchestration.
