# sniff2img in Dafny

`sniff2img` (in `parsing_scripts/sniff2img_hast_i.py`) turns the text hex dump
of a packet sniffer (`tcpdump -X`) into a training set for an image
classifier. It runs in two stages:

1. **Tokenizer.** It splits the repr text of the dump on the four characters
   `\r\n`. A line that contains `IP` opens a record. The body lines that
   follow are cleaned: the offset label is stripped, the line is cut at the
   first double space (which drops the ASCII column), and every non-word
   character is deleted. The cleaned pieces are concatenated into one hex
   payload per packet.
2. **Rasterizer.** It draws the payloads of packets 0 to 99 side by side into
   a 48 x 3200 grid that starts filled with 255. Cell `(r, p*32 + c)` of the
   grid holds `int(payload[o:o+2], 16)` with `o = r*32 + 2*c`, for every
   offset `o` inside the payload.

The model has one module per stage, plus supporting modules:

- `Strings` (`strings.dfy`): literal substring search, which is what
  `re.search` does with these patterns, and `str.split`.
- `LineClean` (`clean.dfy`): the three regular-expression substitutions of
  one body line, as string functions.
- `Tokenizer` (`tokenizer.dfy`): the two nested `while` loops as methods,
  proved against a recursive function `Scan`. Lemmas describe what `Scan`
  yields.
- `Hex` (`hex.dfy`): `int(_, 16)` on the one- or two-character slices the
  rasterizer reads, and the inverse rendering of a byte.
- `Raster` (`raster.dfy`): the three nested `for` loops as methods writing an
  `array2<int>`. They are proved against the function `Cell`, which gives the
  value of one cell.
- `Sniff` (`pipeline.dfy`): the whole function, from dump text to grid.

Python exceptions and the non-terminating loop are explicit outcomes:

- **Tokenizer outcomes.** `Stalls(i)` means the outer loop spins forever on
  line `i`. `MissingDoubleSpace(i)` is the AttributeError of line 38.
- **Rasterizer outcomes.** `BadHex(p, r, c)` is the ValueError of line 72.
  `TooFewPackets(n)` is the IndexError of line 63; `n`, the number of payloads found, is recorded by the model (the Python error carries no count).

## Model

| member | source | states |
|---|---|---|
| Strings.Split | parsing_scripts/sniff2img_hast_i.py:27 | splitting on a separator gives at least one piece and no piece contains the separator; repr text stays repr text |
| Strings.JoinSplit | parsing_scripts/sniff2img_hast_i.py:27 | the split loses nothing: joining the pieces with the separator gives the dump back |
| Sniff.DumpLines | parsing_scripts/sniff2img_hast_i.py:27 | the line list of a dump is non-empty, is repr text, and joins back to the dump |
| Strings.IndexOf | parsing_scripts/sniff2img_hast_i.py:32 | the leftmost occurrence of a literal pattern: it occurs there and nowhere before; None only when it occurs nowhere |
| Strings.Contains | parsing_scripts/sniff2img_hast_i.py:32 | the `re.search('IP', line)` test succeeds exactly when the pattern occurs at some index of the line |
| Strings.ContainsIff | parsing_scripts/sniff2img_hast_i.py:32 | the marker test succeeds exactly when the search finds an occurrence |
| Strings.LastIndexOf | parsing_scripts/sniff2img_hast_i.py:37 | the rightmost occurrence: it occurs there and nowhere after; None only when it occurs nowhere |
| LineClean.LabelEnd | parsing_scripts/sniff2img_hast_i.py:37 | the greedy `^.*0x.*:  ` match is the LONGEST prefix that ends in colon-space-space with `0x` before it, and 0 when no prefix matches |
| LineClean.StripOffset | parsing_scripts/sniff2img_hast_i.py:37 | the anchored substitution deletes only a prefix (the result is a suffix of the line) and leaves a line without a label match unchanged; `LabelEnd` says which prefix |
| LineClean.CutAtDoubleSpace | parsing_scripts/sniff2img_hast_i.py:38 | the text before the FIRST double space; None (the AttributeError) exactly when there is no double space |
| LineClean.DropNonWord | parsing_scripts/sniff2img_hast_i.py:39 | the result has only word characters, keeps every word character as often as the input has it, and is the identity on words |
| LineClean.DropNonWordConcat | parsing_scripts/sniff2img_hast_i.py:39 | deleting characters distributes over concatenation, so the survivors keep their order |
| LineClean.CleanLine | parsing_scripts/sniff2img_hast_i.py:37-39 | a cleaned line is made of word characters only and is no longer than the line |
| LineClean.CleanLineFails | parsing_scripts/sniff2img_hast_i.py:37-38 | cleaning raises exactly when no double space is left once the offset label is stripped |
| LineClean.LabelOfRow | parsing_scripts/sniff2img_hast_i.py:37 | in a row `label:  hex  ascii` whose ASCII column has no colon-space-space, the label match ends right after the colon and the two spaces that follow the offset |
| LineClean.CutOfRow | parsing_scripts/sniff2img_hast_i.py:38 | after the label, the first double space is the gap before the ASCII column, so the cut keeps exactly the hex column |
| LineClean.CleanRow | parsing_scripts/sniff2img_hast_i.py:37-39 | a row as the sniffer prints it cleans to the word characters of its hex column: label and ASCII column are gone |
| LineClean.AsciiColonHidesHex | parsing_scripts/sniff2img_hast_i.py:37 | a colon-space-space inside the ASCII column pulls the greedy label match past the hex column, so only a tail of the ASCII column is left |
| Tokenizer.RunEnd | parsing_scripts/sniff2img_hast_i.py:36 | the first line at or after `j` that holds `IP` or has length at most one; no line before it ends the run |
| Tokenizer.EndsRecord | parsing_scripts/sniff2img_hast_i.py:36 | a line ends the current record exactly when it is at most one character long or the search for `IP` finds an occurrence in it |
| Tokenizer.Cleaned | parsing_scripts/sniff2img_hast_i.py:37-39 | one cleaning outcome per line, each a word when it exists |
| Tokenizer.CleanedAt | parsing_scripts/sniff2img_hast_i.py:37-39 | the outcome at line `k` is the cleaning chain applied to line `k` |
| Tokenizer.Concat | parsing_scripts/sniff2img_hast_i.py:40 | a failure names a piece whose cleaning raised |
| Tokenizer.ConcatOk | parsing_scripts/sniff2img_hast_i.py:40 | the concatenation succeeds exactly when every piece cleaned, and then it is a word |
| Tokenizer.ConcatExtend | parsing_scripts/sniff2img_hast_i.py:40 | proof step for `ReadRecord`: unfolds `Concat` on a run one line longer, which appends that line's piece or fails at it |
| Tokenizer.ConcatFailsAt | parsing_scripts/sniff2img_hast_i.py:38-40 | the first piece that raises decides the outcome of every longer run |
| Tokenizer.ConcatStep | parsing_scripts/sniff2img_hast_i.py:40 | proof step for `ReadRecord`: the success case of `ConcatExtend`, the loop's `data = data + tmp` |
| Tokenizer.Record | parsing_scripts/sniff2img_hast_i.py:35-44 | the payload of a marker is a word; a failure is at a body line strictly inside the marker's run |
| Tokenizer.RecordDone | parsing_scripts/sniff2img_hast_i.py:35-40 | proof step for `ReadRecord`: unfolds `Record`, so a concatenation over the whole run is the marker's payload |
| Tokenizer.RecordFails | parsing_scripts/sniff2img_hast_i.py:37-40 | proof step for `ReadRecord`: the first body line of the run that fails to clean is the failure of the whole record |
| Tokenizer.ResumeAt | parsing_scripts/sniff2img_hast_i.py:41-44 | the outer loop resumes strictly after the marker and inside the line list |
| Tokenizer.CleanBodyLine | parsing_scripts/sniff2img_hast_i.py:37-39 | the cleaning of a body line inside the loop is its entry in the per-line outcomes |
| Tokenizer.ReadRecord | parsing_scripts/sniff2img_hast_i.py:33-44 | the inner loop returns the marker's payload and the index where the outer loop resumes, or the line whose cleaning raised |
| Tokenizer.ScanFrom | parsing_scripts/sniff2img_hast_i.py:31-45 | the loops from line `i` on only append to the payloads already collected, and a failure names a line at or after `i`; its meaning is given by `ScanFromParsed`, `ScanFromStalls` and `ScanFromMissingAt` |
| Tokenizer.Scan | parsing_scripts/sniff2img_hast_i.py:28-45 | the result of the loops over the whole dump; a failure names one of its lines; `ScanParsed`, `ScanStalls` and `ScanMissing` say what it yields |
| Tokenizer.Tokenize | parsing_scripts/sniff2img_hast_i.py:28-45 | the nested loops compute `Scan` of the lines: the payload list, or the first failure |
| Tokenizer.MarkersFrom | parsing_scripts/sniff2img_hast_i.py:31-32 | exactly the lines below the last line that hold `IP`, in increasing order |
| Tokenizer.MarkersSkip | parsing_scripts/sniff2img_hast_i.py:32 | lines without a marker do not change the markers still ahead |
| Tokenizer.ScanParsed | parsing_scripts/sniff2img_hast_i.py:31-45 | a finished scan emits one payload per marker line below the last line, in file order; payload `k` is the record of marker `k` and is a word |
| Tokenizer.ScanStalls | parsing_scripts/sniff2img_hast_i.py:31-33 | the outer loop hangs only on a line without `IP` below the last line that is the first line or has length at most one |
| Tokenizer.WellFormedDumpTerminates | parsing_scripts/sniff2img_hast_i.py:31-33 | a dump that starts with a marker and has no short line before its last line never hangs |
| Tokenizer.ScanFromMissingAt | parsing_scripts/sniff2img_hast_i.py:31-44 | the AttributeError met from line `i` on is the failure of the record of the first marker from `i` on whose record fails; all earlier markers' records clean |
| Tokenizer.ScanMissing | parsing_scripts/sniff2img_hast_i.py:31-44 | the AttributeError is raised on a line that does not end a record and whose cleaning fails, and that line is the failure of the first marker whose record fails, every earlier marker's record having cleaned |
| Tokenizer.EmptyRecord | parsing_scripts/sniff2img_hast_i.py:35-36 | a marker directly followed by an `IP` line or a short line yields the empty payload |
| Hex.ParseDigits | parsing_scripts/sniff2img_hast_i.py:72 | the value of `n` hex digits is below `16^n` |
| Hex.ParseDigitsIff | parsing_scripts/sniff2img_hast_i.py:72 | the digits parse exactly when each is a hex digit |
| Hex.ParseHex | parsing_scripts/sniff2img_hast_i.py:72 | `int(_, 16)` on at most two word characters gives a value in 0..255 when it succeeds |
| Hex.ParseHexIff | parsing_scripts/sniff2img_hast_i.py:72 | `int(_, 16)` succeeds exactly on one or two hex digits, and its value is the base-16 number they spell, most significant digit first |
| Hex.NonDigitWordsRaise | parsing_scripts/sniff2img_hast_i.py:72 | word characters that are not hex digits make `int(_, 16)` raise: `0x` alone, and `_` before, after or instead of a digit |
| Hex.ParseEncodeByte | parsing_scripts/sniff2img_hast_i.py:72 | reading the two printed digits of a byte gives the byte back |
| Hex.EncodeAt | parsing_scripts/sniff2img_hast_i.py:72 | in a rendered payload, byte `k` is printed at digits `2k` and `2k+1` |
| Hex.EncodedDigits | parsing_scripts/sniff2img_hast_i.py:72 | the two digits printed for byte `k` are hex digits whose base-16 value is that byte |
| Raster.RowsIsCeiling | parsing_scripts/sniff2img_hast_i.py:11-13 | `rows` is the ceiling of 1514/32, which is 48; the grid is 3200 wide; at most 1568 digits are read |
| Raster.Offset | parsing_scripts/sniff2img_hast_i.py:69 | the offset of cell (r, c) is twice the byte index `16r + c`: a row starts 16 bytes after the previous one, though it reads 32 |
| Raster.Column | parsing_scripts/sniff2img_hast_i.py:72 | column `c` of packet `p` lies inside that packet's block of 32 grid columns |
| Raster.Cell | parsing_scripts/sniff2img_hast_i.py:65-72 | a cell is a byte value (0..255), or None where `int(_, 16)` raises |
| Raster.FirstBadFrom | parsing_scripts/sniff2img_hast_i.py:64-72 | the search in loop order for the cell where `int(_, 16)` raises names a cell inside the grid; `FirstBadMeaning` proves it finds the first such cell and finds none exactly when every cell parses |
| Raster.TwoDigitCell | parsing_scripts/sniff2img_hast_i.py:69-72 | a cell whose offset is followed by two hex digits holds their base-16 value |
| Raster.EncodedCell | parsing_scripts/sniff2img_hast_i.py:69-72 | in a payload that prints bytes as hex, the cell at offset `2k` holds byte `k` |
| Raster.FirstBadMeaning | parsing_scripts/sniff2img_hast_i.py:64-72 | the search for an unparsable cell finds none exactly when every cell from (r, c) on parses, and otherwise finds the first one in loop order |
| Raster.FirstError | parsing_scripts/sniff2img_hast_i.py:62-72 | when the packet loop does not fail there are at least 100 payloads |
| Raster.FirstErrorNone | parsing_scripts/sniff2img_hast_i.py:62-72 | no failure means at least 100 payloads and every cell of packets 0..99 parses |
| Raster.FirstErrorTooFew | parsing_scripts/sniff2img_hast_i.py:62-63 | the IndexError of `tmp[p]` happens only when the payloads run out before packet 100; the model's `TooFewPackets` carries the number of payloads found, which is below 100, and every payload before it is drawable |
| Raster.FirstErrorBadHex | parsing_scripts/sniff2img_hast_i.py:62-72 | the ValueError is at the first unparsable cell of the first packet that has one, and all earlier packets parse |
| Raster.PastEndIsPad | parsing_scripts/sniff2img_hast_i.py:65-66 | the row `break` is harmless: a row starting past the end, and every later row, is all padding and cannot fail |
| Raster.RowTailIsPad | parsing_scripts/sniff2img_hast_i.py:69-70 | the column `break` ends only the current row: the rest of that row is padding |
| Raster.DrawRow | parsing_scripts/sniff2img_hast_i.py:68-72 | the column loop writes `Cell` into its row up to the break, changes nothing else, or stops at the first unparsable column |
| Raster.DrawPacket | parsing_scripts/sniff2img_hast_i.py:63-72 | the row loop fails exactly at the packet's first unparsable cell; otherwise its block holds `Cell` everywhere and nothing outside the block changes |
| Raster.BlockBefore | parsing_scripts/sniff2img_hast_i.py:72 | blocks of earlier packets lie to the left of later ones, so later writes never touch them |
| Raster.DrawBlock | parsing_scripts/sniff2img_hast_i.py:62-72 | one turn of the packet loop keeps the blocks already drawn, draws block `p` as `Cell` of payload `p` unless it fails at its first unparsable cell, and leaves the later blocks padding |
| Raster.Rasterize | parsing_scripts/sniff2img_hast_i.py:58-72 | a failure is the first one in loop order; on success the grid is new, 48 x 3200, and cell (r, 32p + c) is `Cell` of payload `p` |
| Raster.RowOverlap | parsing_scripts/sniff2img_hast_i.py:69-72 | rows overlap: cell (r, c + 16) equals cell (r + 1, c) |
| Raster.OnlyPrefixRead | parsing_scripts/sniff2img_hast_i.py:64-72 | truncation: only the first 1568 digits of a payload decide its block |
| Raster.OddTail | parsing_scripts/sniff2img_hast_i.py:72 | the lone last digit of an odd-length payload gives a value below 16 |
| Raster.EmptyPayloadPads | parsing_scripts/sniff2img_hast_i.py:63-66 | an empty payload leaves its whole block at 255 |
| Raster.PixelIsByte | parsing_scripts/sniff2img_hast_i.py:69-72 | for a payload that prints bytes as hex, cell (r, c) is byte `16r + c` while there is one, and 255 after the last byte |
| Raster.IgnoresExtraPayloads | parsing_scripts/sniff2img_hast_i.py:54-63 | payloads after the first 100 never change the outcome |
| Raster.HelloBytes | parsing_scripts/sniff2img_hast_i.py:62-72 | the payload `48656c6c6f` puts 72, 101, 108, 108, 111 in the first five cells of row 0 |
| Raster.HelloPadding | parsing_scripts/sniff2img_hast_i.py:62-72 | and every other cell of that block is 255 |
| Raster.BadDigitRaises | parsing_scripts/sniff2img_hast_i.py:72 | a first packet starting with `4g` raises at its cell (0, 0) |
| Sniff.Sniff2Img | parsing_scripts/sniff2img_hast_i.py:27-72 | a tokenizer failure is the failure of `Scan`; a rasterizer failure is the first failure on the scanned payloads; on success the grid is 48 x 3200 and cell (r, 32p + c) is `Cell` of the payload of the `p`-th marker line |

## Left out

- Reading the dump file and its `str(bytes)` conversion (lines 19-20) are not
  modelled. The model starts from the repr text, which is printable ASCII.
  Saving with `np.save` (line 81) and the status `print` (line 56) are I/O
  and are left out too.
- The `IO` class (lines 87-99) is left out. It is directory configuration
  read interactively with `input()`, and the instance made at line 9 is
  never used.
- `Ver1.py` is not part of this model. It is a neural network built from
  library layers.
- The packet counter `p` of the tokenizer (lines 30, 34) is left out,
  because it is never read.
- General regular-expression and Unicode semantics are left out. Only the
  three patterns of lines 37-39 and the literal `IP` search are modelled, on
  printable ASCII. On that text `.` matches every character and `\w` is
  `[A-Za-z0-9_]`.
- Tokenizer.Tokenize: a scan that Python would run forever is returned as
  `Stalls(i)`, because a model has to terminate.
- Hex.ParseHex: only the domain the rasterizer can reach is modelled, which
  is at most two word characters. Sign and blanks are not word characters
  and cannot occur. A `0x` prefix or an underscore separator needs at least
  three characters, so on one or two word characters `int(_, 16)` succeeds
  exactly on hex digits; `0x`, `_a` or `a_` make it raise, as in the model.
- Raster.Rasterize requires the payloads to be words. `Tokenizer.ScanParsed`
  proves that every payload the tokenizer emits is one.
- The rows constant `int(np.ceil(1514 / 32))` (line 13) is the integer
  48. No floating point is modelled.
- Grid values are mathematical integers, not numpy `int64`. Every written
  value lies in 0..255, so they agree.
- Raster.Rasterize does not model partial output. On an exception the code
  discards the partly drawn grid, so the model returns only the error.
- Malformed hex is not replaced by padding. The code raises ValueError, and
  the model does the same (`BadHex`).
