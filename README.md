# Variable-width text and font converters, modelled in Dafny

This project models the two build-time converters of a Game Boy program that
draws text in a variable-width font:

- `tools/generate_text.py` turns plain-text paragraphs into ROM banks:
  - each input line is sanitized into the printable range 0x20..0x7F;
  - it is wrapped greedily at 160 pixels using a per-character width table, hyphenating words wider than a line;
  - it is terminated with NUL;
  - the stream ends with 20 empty lines;
  - the terminated lines are packed into numbered banks of at most 0x3FFF text bytes. Every bank but the last is closed with a 0xFF sentinel.
- `tools/generate_var_masks.py` turns a font image into the data the renderer uses:
  - each 8-pixel-high band of the image becomes a glyph with a width in 2..7 and eight row bytes;
  - each glyph is rendered at the eight bit offsets as a pair of 8-byte tiles;
  - all of it is laid out as a 256-entry size table followed by 128 bytes per glyph.

The Dafny modules follow the program's structure:

| file | module | models |
|---|---|---|
| `seqs.dfy` | `ByteSeqs` | Python 2 byte strings: `"".join`, `s.split(sep)`, `sep.join` |
| `sanitizer.dfy` | `Sanitizer` | the replacement chain at the top of `process_lines` |
| `wrapper.dfy` | `LineWrapper` | `split_word` and `process_lines` |
| `banks.dfy` | `BankPacker` | `process_text` |
| `glyphs.dfy` | `GlyphMasks` | `extract_char`, `image_to_chars`, `render_rendition` and the table layout in `main` |

Bytes are values `0..255`. An `assert` or `raise` that stops the program becomes a `Fail` result. Where the program gives a message, the result carries it. Three asserts give none (`tools/generate_var_masks.py:65`, `:67` and `tools/generate_text.py:103`), so their messages are the model's own wording: "table too large", "byte out of range" and "assertion 0 < split_at < len(word) failed". The generators are modelled as methods that return the whole list of yielded items.

Several pieces are imperative, like the source:
- `process_lines` (`WrapLine` and `ProcessLines`) and `process_text` (`PackBanks`) are methods with loops. They are proved against specification functions:
  - `Split`, `Greedy` and `Visible` for the rows;
  - `AddLine`, `PackLines` and `Banks` for the bank packer.
- `extract_char`, `image_to_chars`, `render_rendition` and the layout in `main` are also loop methods. They are proved equal to `GlyphWidth`/`Tile`, `Chars`, `Rendition` and `Layout`, and those functions' properties are proved as lemmas.

Three behaviours of the code are worth stating on their own:
- `line.split(" ")` keeps the empty words that repeated spaces produce. They are emitted as empty items. Inside a row, two spaces in the input therefore still give two separators or a line break. At the start of a row the position is 0, so no separator is emitted: `"  a"` becomes `"a"` followed by NUL (`tools/generate_text.py:69` and `:80`).
- A line unit longer than 0x3FFF bytes does not stop the packer. If the open bank is empty, it is closed holding only the 0xFF sentinel, and the oversize unit goes into the next bank (`BankPacker.OversizeFirstUnit`). The size bound is therefore stated under the premise that every unit is at most 0x3FFF bytes (`BankPacker.PackBound`).
- The hyphenation split point is not the longest prefix that fits with a dash; see "## Findings".

## Model

| member | source | states |
|---|---|---|
| ByteSeqs.FlattenAppend | tools/generate_text.py:33-34 | appending chunks to the buffer appends their bytes: the join of two lists is the join of each, concatenated |
| ByteSeqs.SplitPieces | tools/generate_text.py:62 | no piece of `s.split(sep)` holds the separator, and every byte of a piece comes from `s` |
| ByteSeqs.JoinSplit | tools/generate_text.py:62 | joining the words of a line with the separator gives back the line |
| ByteSeqs.SplitJoin | tools/generate_text.py:62 | splitting a join of separator-free words gives back the words, so split and join are inverse |
| Sanitizer.Strip | tools/generate_text.py:51 | no newline remains at either end; a line without newlines is unchanged; no byte is introduced; the result is a slice of the line and every byte before or after that slice is a newline |
| Sanitizer.StripLeading | tools/generate_text.py:51 | the result is a suffix of the input that does not start with the stripped byte |
| Sanitizer.StripLeadingDrops | tools/generate_text.py:51 | every byte that the leading strip removes is the stripped byte |
| Sanitizer.StripTrailing | tools/generate_text.py:51 | the result is a prefix of the input that does not end with the stripped byte, and every byte it removes is the stripped byte |
| Sanitizer.Sanitize | tools/generate_text.py:51-61 | every byte of a sanitized line lies in 0x20..0x7F, the range the width table covers |
| Sanitizer.ReplaceAbsent | tools/generate_text.py:53-59 | a `replace` whose pattern's first byte does not occur changes nothing |
| Sanitizer.ReplaceByteExpands | tools/generate_text.py:53 | replacing a one-byte pattern expands each occurrence in place and keeps every other byte, so each tab becomes four spaces |
| Sanitizer.ReplaceInOrderAbsent | tools/generate_text.py:53-59 | the chain of replacements leaves text without their leading bytes unchanged |
| Sanitizer.SanitizeFixes | tools/generate_text.py:51-61 | printable text passes through the whole chain unchanged |
| Sanitizer.SanitizeIdempotent | tools/generate_text.py:51-61 | sanitizing a sanitized line changes nothing |
| Sanitizer.StripExample | tools/generate_text.py:51 | the trailing newline of a line is dropped |
| Sanitizer.EnDashAbsentExample | tools/generate_text.py:54 | an em dash is not mistaken for an en dash |
| Sanitizer.EmDashExample | tools/generate_text.py:55 | an em dash's three UTF-8 bytes become one '-' |
| Sanitizer.MaskExample | tools/generate_text.py:61 | each byte of a two-byte UTF-8 letter becomes the invalid glyph 0x7F |
| Sanitizer.EmDashAndAccentExample | tools/generate_text.py:51-61 | "a—bé\n" sanitizes to "a-b" followed by two 0x7F bytes |
| Sanitizer.TabExample | tools/generate_text.py:53 | a leading tab becomes four spaces |
| LineWrapper.WidthAppend | tools/generate_text.py:66 | the pixel width of a concatenation is the sum of the widths |
| LineWrapper.WidthRepeat | tools/generate_text.py:66 | n copies of a character are n times its width |
| LineWrapper.FirstWithoutDashRoom | tools/generate_text.py:94-100 | the index where the as-written scan stops: every earlier character leaves room for a dash, this one does not |
| LineWrapper.SplitWord | tools/generate_text.py:91-104 | as written: succeeds iff that index is strictly inside the word; the halves are the prefix plus '-' and the rest, and they rebuild the word |
| LineWrapper.WidthPrefix | tools/generate_text.py:93-98 | a prefix is never wider than the whole word |
| LineWrapper.SplitWordIntended | tools/generate_text.py:91-104 | corrected split: succeeds iff the first character fits with a dash and the whole word with a dash does not; the kept prefix is the longest one that fits with a dash; the halves rebuild the word |
| LineWrapper.IntendedSplitExists | tools/generate_text.py:77-78 | a word wider than a line whose characters each fit beside a dash always has a split point |
| LineWrapper.NarrowFontFits | tools/generate_text.py:92-98 | in a font whose glyphs are at most 80 pixels wide every character fits beside a dash |
| LineWrapper.LongWordHasNoSplitPoint | tools/generate_text.py:94-102 | with all widths 8, a 21-letter word is wider than a line yet the as-written scan finds no split point |
| LineWrapper.IntendedSplitExample | tools/generate_text.py:91-104 | with all widths 10, a 20-letter word splits into 15 letters plus '-' and 5 letters |
| LineWrapper.WrapLine | tools/generate_text.py:62-86 | the output ends in NUL, is clean and no row opens with a separator; without over-wide words the output is exactly the reference wrapping `WrapWords` of the line's words, which is greedy at 160 px and keeps the line's text; the line is wrapped whenever no word is wider than a line or every character fits beside a dash |
| LineWrapper.WrapStart | tools/generate_text.py:62-63 | the loop starts with the line's words queued and an empty row |
| LineWrapper.SplitAttempt | tools/generate_text.py:77-78 | a word that reaches the split is wider than a line |
| LineWrapper.WrapStep | tools/generate_text.py:64-85 | one pass of the word loop (break, separator or hyphenation, then the word) keeps the loop invariant |
| LineWrapper.WordsOfLine | tools/generate_text.py:62 | the words of a sanitized line are sanitized and hold no space |
| LineWrapper.EmitShape | tools/generate_text.py:69-85 | emitting a word keeps the output clean with no row opening with a separator |
| LineWrapper.EmitProgress | tools/generate_text.py:69-85 | emitting the next word keeps the output a greedy wrapping of the words taken so far |
| LineWrapper.EmitGreedy | tools/generate_text.py:69-85 | rows stay greedy, and `line_pos` stays the pixel width of the row being filled |
| LineWrapper.GreedyText | tools/generate_text.py:80-85 | text that still fits extends the current row and keeps it greedy |
| LineWrapper.GreedyBreak | tools/generate_text.py:70-73 | a break before a word that would not fit is a forced break |
| LineWrapper.SplitKeepsWords | tools/generate_text.py:78-79 | both halves of a split are space-free sanitized words and the remainder is shorter than the word |
| LineWrapper.EmitBreak | tools/generate_text.py:72 | a NUL closes the current row and opens an empty one |
| LineWrapper.EmitText | tools/generate_text.py:84 | text without NUL extends the current row |
| LineWrapper.VisibleWord | tools/generate_text.py:82-84 | each emitted word adds exactly its own bytes to the visible text |
| LineWrapper.VisibleOfSplit | tools/generate_text.py:62 | the visible text of a line is the concatenation of its words |
| LineWrapper.FinishLine | tools/generate_text.py:86 | the final NUL completes the line's output, which is the reference wrapping when no word is over-wide |
| LineWrapper.WrapWordsGreedy | tools/generate_text.py:64-85 | the reference wrapping is greedy and keeps the words' text, and its position is the width of the last row. In that wrapping, a word goes straight onto an empty row; otherwise it follows a separator if it still fits in 160 px after the row and the separator, and a NUL if not |
| LineWrapper.WrapWordsStep | tools/generate_text.py:69-84 | one more word keeps the reference wrapping greedy and text-preserving |
| LineWrapper.WrapWordsNext | tools/generate_text.py:69-84 | the loop's break, separator or plain step is the reference wrapping's next step |
| LineWrapper.TwoWordLine | tools/generate_text.py:69-85 | a line of two words, the first of non-zero width and both at most a line wide, comes out as: the first word; a separator if both fit together, else a NUL; the second word; a NUL |
| LineWrapper.SeparatorExample | tools/generate_text.py:80-84 | with all widths 8, "ab cd" is wrapped as "ab cd" followed by NUL |
| LineWrapper.BreakExample | tools/generate_text.py:70-73 | with all widths 8, twenty letters fill the row, so " b" becomes a NUL then "b" |
| LineWrapper.WidthPair | tools/generate_text.py:66 | the width of a two-character word is the sum of the two characters' widths |
| LineWrapper.ProcessLines | tools/generate_text.py:47-88 | the stream is each sanitized line's output in order, then 20 NULs; each line's output is as `WrapLine` states it, the reference wrapping when no word is over-wide; it is clean; it succeeds whenever every line is free of over-wide words or fits beside a dash |
| BankPacker.IndexOf | tools/generate_text.py:35-36 | the position of the first NUL in the buffer |
| BankPacker.PackBanks | tools/generate_text.py:29-44 | succeeds iff the stream is empty or ends with NUL; then the banks are those of packing the stream's line units from `start` |
| BankPacker.TakeUnit | tools/generate_text.py:35-42 | one pass of the inner loop moves one line unit from the buffer to the packed units |
| BankPacker.UnitsOfStream | tools/generate_text.py:33-43 | the units taken plus a NUL-free buffer are the stream's units; the stream is terminated iff the buffer is empty |
| BankPacker.TerminatedFlatten | tools/generate_text.py:37 | a run of line units ends with NUL |
| BankPacker.SplitUnits | tools/generate_text.py:36 | splitting units plus a tail at NUL gives each unit without its NUL, then the tail |
| BankPacker.PackNumbers | tools/generate_text.py:39-44 | banks are numbered `start`, `start + 1`, … without gaps |
| BankPacker.PackSentinels | tools/generate_text.py:39 | every closed bank ends with exactly one 0xFF after its text |
| BankPacker.PackText | tools/generate_text.py:33-44 | the banks' text is the lines' text: nothing is lost, added or reordered |
| BankPacker.PackBound | tools/generate_text.py:38-42 | if every line unit is at most 0x3FFF bytes, every bank's text is too and every bank is at most 0x4000 bytes |
| BankPacker.PackGreedy | tools/generate_text.py:38-42 | banks hold whole line units, and a bank is closed only when the next unit would not fit after its text |
| BankPacker.GreedyClose | tools/generate_text.py:38-41 | closing a bank for a unit that does not fit keeps the packing greedy |
| BankPacker.GreedyAppend | tools/generate_text.py:42 | appending a unit that fits keeps the packing greedy |
| BankPacker.TerminatedAppend | tools/generate_text.py:34 | two terminated pieces of stream make a terminated stream |
| BankPacker.FirstUnitOfUnit | tools/generate_text.py:36-37 | a bank text starting with a unit starts with that unit |
| BankPacker.FirstUnitOfPrefix | tools/generate_text.py:42 | appending after a terminated text leaves its first unit unchanged |
| BankPacker.OversizeFirstUnit | tools/generate_text.py:38-42 | an oversize first unit gives a bank holding only 0xFF, then a bank holding the unit |
| BankPacker.ProcessText | tools/generate_text.py:29-44 | wrapping then packing: the banks carry the wrapped stream, which is the outputs of the sanitized input lines in order followed by 20 NULs, each as `WrapLine` states it; the stream is clean, free of 0xFF and ends with 20 NULs; the banks are numbered, sealed and greedy; success under the same condition as the wrapper |
| BankPacker.StreamText | tools/generate_text.py:29-44 | the packed banks of a terminated stream carry exactly the stream |
| BankPacker.UnitsAreUnits | tools/generate_text.py:36-37 | every unit cut from a stream has one NUL, at its end |
| BankPacker.FlattenUnits | tools/generate_text.py:36-37 | a terminated stream is the concatenation of its units |
| BankPacker.FlattenPieces | tools/generate_text.py:36-37 | the units and the last piece join back to the stream |
| GlyphMasks.RowValue | tools/generate_var_masks.py:88-94 | a row of n pixels packs into a value below 2^n |
| GlyphMasks.RowMax | tools/generate_var_masks.py:89-93 | scanning a row never lowers `max_x`, and only raises it to an earlier column |
| GlyphMasks.MaxInk | tools/generate_var_masks.py:86-95 | `max_x` is below 8 |
| GlyphMasks.ExtractChar | tools/generate_var_masks.py:84-98 | returns the glyph's width and its eight row bytes; the width is in 2..7 and every row is a byte |
| GlyphMasks.RowBit | tools/generate_var_masks.py:89-94 | bit n-1-x of the packed row is pixel x: 1 for ink, 0 for white |
| GlyphMasks.TileBits | tools/generate_var_masks.py:87-95 | in each row byte, column 0 is the most significant bit |
| GlyphMasks.RowMaxIsRightmost | tools/generate_var_masks.py:89-93 | the row scan ends on the rightmost inked column, or keeps its start |
| GlyphMasks.MaxInkIsRightmost | tools/generate_var_masks.py:86-95 | `max_x` is the rightmost inked column of the band, or 0 |
| GlyphMasks.GlyphWidthSpec | tools/generate_var_masks.py:96-98 | the width is in 2..7, at least min(x + 2, 7) for ink in column x, and 2 for a glyph inked only in column 0 |
| GlyphMasks.FourImage | tools/generate_var_masks.py:15-22 | the documented "4" glyph is a valid image |
| GlyphMasks.RowWeights | tools/generate_var_masks.py:94 | a row packs as 128, 64, 32, 16, … per inked column |
| GlyphMasks.FourTile | tools/generate_var_masks.py:15-32 | the "4" glyph's rows are the rendition-0 first tile shown in the documentation |
| GlyphMasks.FourWidth | tools/generate_var_masks.py:15-22 | the "4" glyph is 5 pixels wide: ink reaches column 3 |
| GlyphMasks.ImageToChars | tools/generate_var_masks.py:75-81 | fails with "Image must be at least 8px wide" iff the image is narrower than 8 px; otherwise one glyph per 8-pixel band |
| GlyphMasks.RenderRendition | tools/generate_var_masks.py:101-108 | returns the first tiles of all rows, then the second tiles |
| GlyphMasks.TileSplit | tools/generate_var_masks.py:105-107 | the first tile is the row shifted right by the rendition, the second the bits shifted out; together they make the shifted row; a byte row gives byte tiles |
| GlyphMasks.RenditionZero | tools/generate_var_masks.py:23-32 | at rendition 0 the first tile is the glyph and the second is blank |
| GlyphMasks.FourRenditionSix | tools/generate_var_masks.py:33-41 | the "4" glyph at rendition 6 is the two tiles shown in the documentation |
| GlyphMasks.BuildTable | tools/generate_var_masks.py:57-67 | succeeds iff the layout is under 2^14 bytes and every entry is a byte; then returns the layout |
| GlyphMasks.RenditionsLength | tools/generate_var_masks.py:61-62 | n renditions of a glyph take 16n bytes |
| GlyphMasks.RenditionsIndex | tools/generate_var_masks.py:61-62 | rendition r of a glyph sits at offset 16r |
| GlyphMasks.TablesLength | tools/generate_var_masks.py:59-62 | each glyph adds 128 bytes of tables |
| GlyphMasks.TablesIndex | tools/generate_var_masks.py:59-62 | byte j of rendition r of glyph k sits at 128k + 16r + j |
| GlyphMasks.LayoutShape | tools/generate_var_masks.py:64-67 | entries are bytes; the layout is 256 + 128n bytes for n ≤ 256 glyphs; it is under 2^14 iff n ≤ 125; entry k is 32 × width; the table is zero-padded to 256; tables start at 256 |
| GlyphMasks.EncodeFont | tools/generate_var_masks.py:56-67 | succeeds iff the image is at least 8 px wide and holds at most 125 glyphs; then returns the layout of the image's glyphs, all bytes |
| GlyphMasks.CharsWellFormed | tools/generate_var_masks.py:84-98 | every extracted glyph has width at most 7 and eight byte rows |

## Left out

- Command-line handling, file and standard-stream I/O, JSON loading and the `print` of `db` lines in both `main` functions are left out; `process_text` and the table layout return their data instead.
- The `--plaintext` rendering (NUL shown as newline) and the widths JSON file written by the font converter are left out; both are output formatting.
- PIL is left out: the image is a grid of pixel values, already converted to 1-bit mode, with 255 for white.
- The generators' laziness is left out: a run that stops on a failed assert is a `Fail` result, so output yielded before the failure is not modelled.
- Python 2 `str` details beyond bytes are left out: a line is a byte sequence, and `re.sub` is modelled as a byte-wise mask.
- LineWrapper.ProcessLines and the other wrapper members require a width table of at least 96 entries, covering 0x20..0x7F; Python would raise IndexError on a shorter table.
- GlyphMasks.ImageToChars requires the image height to be a multiple of 8; a partial band makes the pixel reads fall outside the image.
- LineWrapper.WrapLine: no pixel bound is stated for lines that hold a hyphenated word; greediness and text preservation are proved only for lines with no over-wide word.
- GlyphMasks.RenderRendition requires a rendition of at most 8; the source only calls it with 0..7.
- LineWrapper.SplitWord: the corrected SplitWordIntended is the one WrapLine uses, so the as-written split is modelled and characterised but not wrapped into a line.

## Findings

| source | as written | input that shows it | evidently intended | confidence | as-written member | corrected member |
|---|---|---|---|---|---|---|
| tools/generate_text.py:93-102 | `length` is never increased inside the loop, so each character's own width plus the dash width is compared with 160, not the running width of the prefix | a width table of all 8s and a 21-letter word: the word is 168 px wide, every letter plus dash is 16 px, so the loop finds no split point and the assert at line 102 stops the run | the running width of the prefix is compared, so the word is split after the longest prefix that fits with a dash | not executed | LineWrapper.SplitWord, LineWrapper.LongWordHasNoSplitPoint | LineWrapper.SplitWordIntended, LineWrapper.IntendedSplitExists, used by LineWrapper.WrapLine |
