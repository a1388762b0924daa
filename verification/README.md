# zsv in Dafny

A model of the zsv CSV library and of the parts of its command line tools that carry an algorithm
worth proving, with the proofs. `dafny verify dfyconfig.toml` checks all of it.

## What is modelled

**A reference reading** (`Csv`, `CsvFacts`, `Reading`). `Csv.Run` reads a stream byte by byte into
rows of raw slices; `Csv.Norm` is the text of a raw cell. `Reading` says the same without a machine:
the rows are the longest tiling of the stream by cells and separators, and there is no other.

**Two engines** over one class, `Scanner.Scanner`, whose fields are those of `struct zsv_scanner`: a
buffer, an array of cells that point into it, flags, the closing quote position and saved registers.
`Memory` has the C library's operations on the buffer; `CellFlags` says what the flags handed over mean.

* The compat engine (`CellUnquote`, `CompatScan`, `CompatLoop`) is driven by bit masks, looks one
  byte ahead, and unquotes cells in place in the buffer it is still scanning. As a pull parser it
  returns in the middle of the loop and resumes from saved registers.
* The fast engine (`FastFacts`, `FastScan`) takes 64 bytes at a time, decides quoting by quote
  parity, stores raw slices, and stops at quoting the parity cannot decide.

Their invariant, `Scanner.Scanner.At`, ties buffer, cells and delivered rows to `Csv.Run`. `Buffer`
and `Parser` shift the unfinished row and feed chunks; `Pull` is the row-by-row interface. `Fits` says
at which byte a row first fills the buffer. `Engines` has whole parses: how the input alone decides
whether a parse reaches the end, stops at a full buffer or stops at a literal quote, and how the
engines compare on the same bytes in different chunks. `RoundTrip` prints tables and reads them
back by the reference, `Tables` by either engine. Machine words are sequences of bits, lowest first
(`Words`); a mask of the compat engine has as many bits as the vector has bytes, which may be any
positive number.

A quote is called literal when the reference reads it as an ordinary byte (`FastFacts.Literal`), and
a stream clean when it has none. That is exactly what decides whether the fast engine goes through.

**On the scanner**: `Headers` (several header rows spliced into one array from the right),
`Overwrites` (the forward-only cursor over cell overwrites).

**In the tools**: `Chunks`, `Count`, `Dealing`, `Jobs` and `Missed` (cutting a file, counting its rows
in parallel, and when that counts all of them), `Keys`, `Merge` and `Compare` (k-way merge of sorted
inputs), `Redline` (rows and counters of the merge), `Utf8` (validity check), `XlAddress` (spreadsheet
addresses).

## What turned out not to hold

* Parallel count can be short. Chunk ends are inclusive, and a worker whose start has reached its
  end takes its chunk for empty (app/count.c:164-168), so a last byte that is a row of its own is not
  counted. `Jobs.CountRows` has the exact condition for a file that can be cut at line breaks, in terms
  of its rows and chunks: the rows are dealt out to the chunks in order, and no chunk may be left with
  only its last byte. Unless a chunk starts after a CR LF that is to say: no chunk ends with a row end
  that is a row of its own and follows the first row to end at or past the byte before the chunk.
  Wherever the chunks are cut, the count is right if no row starts at the last byte of one.
  `Count.TiledCount` says by how much it is short.
  `Missed.JobsMissARow` has files of which jobs of any number, two or more, miss the last row: a
  header, short rows, a row of one quoted cell of two lines, which is as long as a chunk, and an empty
  row. With 32 jobs or more that holds of files that are large enough to be cut (2 MiB) and whose rows
  are shorter than 64 KiB, which is less than the parser's buffer if none is asked for.
* A table printed with CR row ends does not read back if an empty row ended by LF follows a row
  ended by CR: the two bytes are one row end. `RoundTrip.ReadsBackIff` has the exact condition.
* The repository's README.md:155 lists LF CR as one row end. In the code it ends one row if and only
  if it is outside quotes and follows a CR, whose row end the LF then belongs to
  (`Reading.LfCrIsOneRowEndIff`); else it ends two, or inside quotes none (`Reading.LfCrRowEnds`).
* The largest row number a `size_t` holds does not survive printing: `XlAddress.PrintThenParse`.
* An overwrite is missed if a cell further on has been read before it: `Overwrites.Reader.GetCell`
  says when.

## Model

| member | source | states |
|---|---|---|
| CsvFacts.RunWf | src/zsv_scan_delim.c:134-275 | after any bytes: the finished cells of the row are back to back, quoting is a function of the current cell's bytes alone, and right after a CR row end nothing has been read of the next row |
| CsvFacts.ScanMeaning | src/zsv_scan_delim.c:238-273 | what the flags say about a cell: open means the closing quote is still to come, closed that it was the first quote that is not one of a pair |
| CsvFacts.NoEmbedded | src/zsv_scan_delim.c:256-273 | a cell not flagged as having embedded quotes has no quotes but the surrounding ones |
| CsvFacts.NormUnembedded | src/zsv_internal.c:292-298 | without embedded quotes, dropping the two surrounding ones gives the cell's text |
| CsvFacts.NormToTheEnd | src/zsv_internal.c:299-311 | undoing doubled quotes with the closing one still there, and dropping the last byte after, gives the text |
| Reading.RowsTileTheStream | src/zsv_scan_delim.c:134-237 | cells and separators tile the stream up to the unfinished row; no cell holds a separator outside quotes; CR LF is one row end |
| Reading.TilingsAgree | src/zsv_scan_delim.c:134-237 | any such tiling consists of the first rows the scanner finds, so those rows are the only reading |
| Reading.OneRowEnd | src/zsv_scan_delim.c:136-206 | outside quotes byte 13, byte 10 or both in this order end one row, and the delimiter a cell; inside quotes none does |
| Reading.RowAtEnd | src/zsv_scan_delim.c:161-206 | every row of a tiling ends at byte 13 or 10 |
| Reading.LfCrRowEnds | src/zsv_scan_delim.c:184-206 | LF CR at any place of any stream: inside quotes no row ends; after a CR one empty row does; else the row in progress and an empty one |
| Reading.LfCrIsOneRowEndIff | src/zsv_scan_delim.c:184-206 | it ends exactly one row if and only if it is outside quotes and follows a CR |
| Fits.FitsIffRowsFit | src/zsv.c:61-80 | no row fills the buffer before the input ends if and only if every row is shorter than the buffer |
| Fits.FitsMore | src/zsv.c:601-604 | taking no more bytes than fit behind the unfinished row, a full buffer is noticed at the first byte at which a row fills it |
| CellUnquote.CollapseInPlace | src/zsv_internal.c:303-309 | the in-place loop leaves the text with each pair of quotes made one, and touches no byte outside its range |
| CellUnquote.Unquote | src/zsv_internal.c:290-332 | from flags and closing quote position alone, the text left in the buffer is that of the raw cell, for every quoting, and only the cell's own bytes change |
| CellUnquote.DescribesMeaning | src/zsv_internal.c:290-332 | the tests of `cell_dl` on flags and lengths tell apart exactly the ways a raw cell can be quoted |
| CellUnquote.ClosingQuoteOverwritten | src/zsv_internal.c:313-320 | moving the head of the cell up by one byte removes the closing quote and keeps the bytes around it |
| Words.ClearLowestBits | src/vector_delim.c:15-29 | n and n - 1 clears the lowest set bit and no other |
| Words.Minus1Value | src/zsv_scan_simd_avx2.h:81-87 | the borrow chain over bits subtracts one from the number they stand for |
| CompatLoop.VecDelims | src/vector_delim.c:32-60 | the offset skipped holds no delimiter, CR, LF or quote, and the mask is that of the first vector that does |
| CompatLoop.MaskedSkip | src/zsv_scan_delim.c:124-127 | between the current byte and the next set bit nothing needs attention, and clearing the bit keeps that promise |
| CompatLoop.MaskedFresh | src/zsv_scan_delim.c:109-117 | taking the mask's start before the offset is added loses no byte that needs attention |
| CompatLoop.PassOver | src/zsv_scan_delim.c:111-118 | passing over bytes that match nothing equals reading them one by one |
| CompatLoop.NextStop | src/zsv_scan_delim.c:108-132 | the top of the loop stops at the next byte that may matter, or skips the second quote of a pair, once and in order |
| CompatScan.Dispatch | src/zsv_scan_delim.c:134-274 | one loop body does one step of the reference; it reports a row end exactly when the reference has one |
| CompatScan.QuoteInside | src/zsv_scan_delim.c:243-266 | with the byte after it in hand a quote is decided at once; at the end of a chunk it stays pending |
| CompatScan.CutCell | src/zsv_scan_delim.c:136-142 | a delimiter outside quotes stores the finished cell with its text and starts the next |
| CompatScan.EndRow | src/zsv_scan_delim.c:161-165 | a row end hands over the row, with texts, flags and byte offsets as the reference has them |
| CompatScan.SwallowLf | src/zsv_scan_delim.c:186-205 | the LF of a CR LF ends nothing, also when the CR came with the chunk before |
| CompatScan.AfterRow | src/zsv_scan_delim.c:173-180 | scanning on and resuming continue from the same state |
| CompatLoop.Prologue | src/zsv_scan_delim.c:84-101 | a quote left pending is decided by the first byte of the next chunk |
| CompatLoop.LookAt | src/zsv_scan_delim.c:134-235 | after a row end the loop goes on, or a pull parser suspends with the row still readable |
| CompatLoop.Suspend | src/zsv_scan_delim.c:3-19 | the saved registers hold what is needed to go on |
| CompatLoop.ScanFrom | src/zsv_scan_delim.c:108-284 | from any registers the loop ends, with the whole chunk read, or suspended one row later |
| CompatLoop.ScanDelim | src/zsv_scan_delim.c:43-285 | one scan call, push or pull, started or resumed, for any vector size: all rows of the bytes received are delivered |
| Scanner.Scanner.CellDl | src/zsv_internal.c:287-357 | the cell is unquoted inside its own bytes and stored; earlier cells and all bytes still to be read keep their values |
| Scanner.Scanner.CellFlags | src/zsv_internal.c:333-335 | the flags stored with a cell are a function of its raw bytes, comma rule for other delimiters and no-quotes mode included |
| CellFlags.FlagsSay | src/zsv_scan_delim.c:237-273 | the flags of a finished cell exactly, by the places of its quotes, separators and commas: closed, embedded, and needed with the comma rule |
| CellFlags.BareIsSafe | src/zsv_internal.c:333-335 | the text of a cell without flags holds no quote, line break, delimiter or comma, so it can be written bare |
| CellFlags.FlagsWithoutQuoting | src/zsv_internal.c:350 | with quoting disabled all cells have the same flags, and those of the fast engine have none otherwise |
| Scanner.Scanner.RowDl | src/zsv_internal.c:359-409 | the handler sees the stored cells, and cumulative scanned length and raw row length give the row's true offsets |
| Scanner.Scanner.StoreCell | src/zsv_internal.c:348-353 | a cell past the column limit is dropped, others go to the end of the row |
| Scanner.Scanner.CellAndRowDl | src/zsv_internal.c:411-415 | storing the last cell and handing over the row together log the row's event |
| Scanner.CellDlEffect | src/zsv_internal.c:287-357 | storing a cell made in place extends the row by that cell and disturbs neither earlier cells nor unread bytes |
| Scanner.EventHeld | src/zsv_internal.c:348-366 | at a row callback each stored cell holds the text and flags its raw slice stands for |
| FastFacts.CascadeIsPrefixXor | src/zsv_scan_simd_avx2.h:70-76 | the shift cascade gives, at every bit, the XOR of all bits up to it |
| FastFacts.ClmulIsCascade | src/zsv_scan_simd_avx2.h:65-68 | the carry-less product with all ones is the same function as the cascade |
| FastFacts.StateMaskIsParity | src/zsv_scan_delim_fast.c:543-545 | in any block at any offset, bit k of the state mask is the parity of all quotes of the stream up to that byte |
| FastFacts.OpenIsOdd | src/zsv_scan_delim_fast.c:538-547 | in clean input a byte is inside quotes exactly when an odd number of quotes precede it |
| FastFacts.SuspectIsLiteral | src/zsv_scan_delim_fast.c:566-589 | a lane the block check objects to means that the block has a literal quote |
| FastFacts.NoSuspects | src/zsv_scan_delim_fast.c:566-589 | a block the check passes has none |
| FastScan.Nonstandard | src/zsv_scan_delim_fast.c:566-589 | the check stops at a block if and only if the input up to its end has a literal quote |
| FastScan.OpensStandard | src/zsv_scan_delim_fast.c:674-690 | the check of the tail objects to a quote if and only if it is literal |
| FastScan.FastRowEnd | src/zsv_scan_delim_fast.c:215-233 | a CR or LF outside quotes is handled as the reference does, LF after CR included |
| FastScan.ValidFromState | src/zsv_scan_delim_fast.c:547-547 | in a clean block, the delimiter bits left are the separators outside quotes |
| FastScan.EmitBlock | src/zsv_scan_delim_fast.c:600-660 | every separator outside quotes of the block is dispatched, once and in order |
| FastScan.FastBlock | src/zsv_scan_delim_fast.c:454-661 | a block either advances the reference by 64 bytes or hands on nothing of it |
| FastScan.FastTail | src/zsv_scan_delim_fast.c:663-707 | the tail goes on with the same parity and the same cells, paired quotes included |
| FastScan.CarryGate | src/zsv_scan_delim_fast.c:709-726 | on clean input the gate never changes what is carried to the next chunk |
| FastScan.ScanFast | src/zsv_scan_delim_fast.c:452-731 | one scan call returns the non-standard status if and only if the input so far has a literal quote, for any block and chunk alignment; the rows delivered by then are those of a prefix of the input |
| Buffer.RowHeldMoved | src/zsv.c:45-59 | after the shift the cells' rebased pointers still hold the unfinished row's texts |
| Buffer.LoadedMoved | src/zsv.c:45-48 | the bytes not yet scanned move with the row |
| Buffer.RebaseCells | src/zsv.c:55-56 | every stored pointer is lowered by the row's start, others stay |
| Buffer.EventsGrow | src/zsv.c:593-614 | rows already delivered do not depend on the bytes that come later |
| Parser.ShiftRow | src/zsv.c:42-61 | shift, rebase and counters together keep the unfinished row, the byte before it and all offsets |
| Parser.PreParse | src/zsv.c:41-84 | afterwards the row is at the front and the rest of the buffer is free |
| Parser.Receive | src/zsv.c:598-600 | copying new bytes in makes the stream longer by just those and disturbs nothing held |
| Parser.ScanChunk | src/zsv.c:139-141 | either engine keeps the state between calls |
| Parser.ParseBytes | src/zsv.c:593-614 | any input, cut to the buffer's capacity, is received whole, unless a row fills the buffer before the end of the input: then the rows before the first such byte have been delivered; or the fast engine has met a literal quote and no row has filled the buffer before |
| Parser.DeliveredAll | src/zsv.c:593-614 | between calls exactly the rows whose end has arrived have been delivered |
| Pull.ParseMore | src/zsv.c:108-145 | a read of any size, then a scan: a row, the end of the input, or more to do |
| Pull.NextRow | src/zsv.c:195-231 | each call returns the next row, readable in the scanner's cells, resuming a suspended scan or reading on |
| Pull.PullAll | src/zsv.c:195-231 | repeated calls yield exactly the rows push parsing hands to its row handler, whatever the sizes of the reads; they end early if and only if a row fills the buffer, after the rows before it |
| Pull.PullStops | src/zsv.c:61-80 | that is at the first byte of the input at which a row fills the buffer |
| Engines.PushAll | src/zsv.c:593-614 | for any chunks, with quotes, doubled quotes and CR LF split anywhere, the status and the rows delivered are as `Outcome` says of the concatenation: all rows; those before the first byte at which a row fills the buffer; or those of a place less than 64 bytes before the first literal quote |
| Engines.OutcomeIff | src/zsv.c:593-614 | which of the three it is, for either engine, as conditions on the input alone, each in both directions |
| Engines.OutcomeIsDetermined | src/zsv.c:593-614 | two parses of the same bytes end with the same status, and deliver the same rows unless the fast engine met a literal quote |
| Engines.FastIsPrefixOfCompat | src/zsv_scan_delim_fast.c:578-588 | on one stream, up to any two bytes, the rows both engines have delivered have the same offsets, and each compat text is the unquoted fast one |
| Engines.CompareEngines | src/zsv_scan_delim_fast.c:452-731 | two parsers fed the same bytes in different chunks: the log of each is what `Outcome` says of the bytes, and they agree on every row both deliver; if the compat engine reaches the end the fast one delivers no other rows, and all if it does too |
| RoundTrip.ReadBack | src/zsv_scan_delim.c:136-274 | any table, with any quoting of fields that need none and any row ends, reads back as the records that are not swallowed, and is clean |
| RoundTrip.ReadsBackIff | src/zsv_scan_delim.c:186-205 | it reads back as itself if and only if no empty record ended by LF follows one ended by CR |
| RoundTrip.Rfc4180RoundTrip | src/zsv_scan_delim.c:136-274 | a table of non-empty rows of arbitrary cells, written as section 2 of RFC 4180 asks, reads back as the same table; it is clean and ends with a row end |
| Tables.ParseWritten | src/zsv.c:593-614 | such a table, written and then parsed in any chunks: if all rows are shorter than the buffer, and only then, the parse reaches the end, and either engine delivers the table's texts |
| RoundTrip.RewriteIsStable | src/zsv_internal.c:290-332 | reading any input whatever, writing it and reading that again gives the same table |
| RoundTrip.FieldRead | src/zsv_internal.c:290-311 | a printed field's text is recovered by unquoting, quotes in it included |
| RoundTrip.QuotedText | src/zsv_internal.c:290-332 | a quoted text with doubled quotes closes at the next quote; what follows that is kept, with pairs of quotes made one; without a closing quote all is kept |
| RoundTrip.DoubleBytes | src/zsv_internal.c:303-309 | doubling, byte by byte: a quote is byte 34 |
| RoundTrip.CollapseBytes | src/zsv_internal.c:303-309 | undoing it, byte by byte and from left to right |
| Headers.CollateHeader.Append | src/zsv_internal.c:213-280 | splicing a row in from the right, in one array, gives each column its old text followed by the new one and a space |
| Headers.Splice | src/zsv_internal.c:257-275 | no old byte is overwritten before it has been moved: the array ends up as the columns' new texts back to back |
| Headers.SpliceCell | src/zsv_internal.c:257-274 | one cell is placed and its old text moved up, over itself if need be, with the columns before it intact |
| Headers.SpliceStep | src/zsv_internal.c:260-271 | placing the new text and then moving the old part up leaves every part before them where it was and puts both in their final place |
| Headers.HeaderReader.CollateHeaderRow | src/zsv_internal.c:564-604 | later rows are padded or cut to the first; after the last one the header is complete |
| Headers.HeaderCells | src/zsv_internal.c:588-598 | cells point at the texts without their trailing spaces |
| Headers.ReadHeader | src/zsv_internal.c:564-604 | header cell i is the non-empty i-th cells of the header rows joined by one space, over the width of the first row |
| Headers.JoinedParts | src/zsv_internal.c:257-263 | texts are joined by one space, byte 32, where both sides have one |
| Headers.ColumnAt | src/zsv_internal.c:571-576 | a row too short for a column has an empty text there |
| Overwrites.Reader.HaveOverwrite | src/zsv_internal.c:646-655 | the cursor finds an overwrite if and only if the table has one for the place and no earlier read went beyond it |
| Overwrites.Reader.GetCell | src/zsv_internal.c:657-669 | for reads in any order: the overwrite in that case, else the parsed cell, also after the getter has been swapped |
| Overwrites.CursorFinds | src/zsv_internal.c:648-651 | moving forward leaves the cursor at the first entry no read has passed |
| Overwrites.PlaceOrder | src/zsv_internal.c:648-651 | places are in row-major order |
| Overwrites.ReadCells | src/zsv_internal.c:646-669 | reads in row-major order return what a look-up in the table would |
| Count.RunResumes | app/count.c:182-187 | a parse started at the start of a row finds the rows of the whole file from there on |
| Count.RunStarts | src/zsv.c:577-585 | every row start reported is a place where a parse can be started afresh |
| Count.CountSplits | app/count.c:136-142 | the count splits at the start of any row |
| Count.ProcessChunk | app/count.c:136-217 | a worker counts the rows up to the first that ends at or past its limit and reports where the next one starts, or the end of the file |
| Count.WorkerStops | app/count.c:136-217 | in bytes of the file: all rows counted but the last end before the chunk's last byte, and unless the file ends that one does not; the next row starts where the worker reports |
| Count.WorkerConserves | app/count.c:136-217 | a worker's count and the rows from where it stopped make up the rows from where it started; it stops past its chunk |
| Count.FirstChunk | app/count.c:107-127 | the main parser does the same from the row after the header; at the end of the file it reports where an unfinished row starts |
| Count.JoinChunk | app/count.c:417-423 | a chunk whose predecessor went past its start is done again from there; a swallowed one passes its start on |
| Count.ParallelCount | app/count.c:407-429 | workers, main parser and join: the total is that of the chunks as the join leaves them |
| Count.StitchConserves | app/count.c:410-427 | if no guess lies past where its predecessor stopped, no row is lost or counted twice, wrong guesses included |
| Count.ParallelIsSerial | app/count.c:164-168 | then the total is the serial count if and only if the last chunk is not left with the last byte alone |
| Count.TiledCount | app/count.c:136-217 | for guesses that leave out no byte and lie after line breaks, quoted or not, the total is short by exactly the number of chunks whose last byte is lost |
| Dealing.ChunksAreDealt | app/count.c:407-425 | whatever the guesses made the workers do, after the join each chunk starts with the row at which dealing out the rows of the file in order has arrived |
| Dealing.SerialIffNoneLeftOver | app/count.c:407-429 | so the total is the serial count if and only if the deal leaves no chunk with only its last byte, a condition on the file and the guesses |
| Dealing.SerialUnlessLoneRow | app/count.c:164-168 | it is if no row after the header is a lone row end at the last byte of a guessed chunk |
| Dealing.LeftOverIff | app/count.c:407-429 | for guesses as they are made, none after a CR LF: a chunk is left with its last byte if and only if that is a lone row end and the row before it is the first to end at or past the byte before the chunk |
| Dealing.DealtDirectly | app/count.c:407-425 | for such guesses, a chunk starts with the row after the first one that ends at or past the byte before its guess, whatever the chunks before it |
| Dealing.SerialUnlessRowAtEnd | app/count.c:164-168 | wherever the chunks are cut, the total is the serial count if no row after the header starts at the last byte of a chunk |
| Chunks.FindChunkStart | app/utils/chunk.c:28-75 | the first byte after the boundary that follows a line break and is none, if there is one |
| Chunks.SplitIs | app/utils/chunk.c:48-68 | such a byte follows byte 13 or 10 and is neither |
| Chunks.GuessFileChunks | app/utils/chunk.c:132-210 | no guesses for no jobs or small files; else each chunk starts at such a byte, or at the nominal boundary if there is none, and ends before the next, or with its own first byte |
| Jobs.GuessesTile | app/utils/chunk.c:180-205 | if there is such a byte after every boundary, the guesses leave out no byte, lie after line breaks, and end with the file |
| Jobs.GuessesInLine | app/utils/chunk.c:180-205 | and they follow one another and the main parser's chunk |
| Jobs.GuessesCover | app/utils/chunk.c:180-205 | wherever they are cut, guesses lie in the file, leave out no byte and end with it |
| Jobs.ParserFindsRows | src/zsv.c:593-614 | if every row of the file is shorter than the parser's buffer, a parse from the start of any row, by either engine, never ends with a full buffer, and delivers at its end the rows a worker is taken to find |
| Jobs.CountRows | app/count.c:220-278 | guesses, workers, main parser and join, for rows shorter than the parsers' buffers: the number printed is that of the rows without jobs or for small files, and if no row starts at the last byte of a chunk; for a file that can be cut, it is if and only if the deal leaves no byte over, and so if no row is empty; without cuts after CR LF the condition can be read off rows and chunks one by one |
| Missed.LastRowMissed | app/count.c:164-168 | a header, any number of short rows, a row of one quoted cell of any text and an empty row: if two jobs are cut inside the cell, the last row is not counted |
| Missed.GuessIs | app/utils/chunk.c:170-205 | if that text is two lines of equal length, and there are as many short rows as make all chunks equal, any number of jobs are cut after short rows and, the last one, between the two lines |
| Missed.JobsMissARow | app/count.c:164-168 | so of such a file, whatever the workers do, exactly the last row is missed; no row is longer than the quoted one |
| Missed.LongEnough | app/count.c:22 | for any 32 jobs or more there is one that is large enough to be cut, with rows shorter than 64 KiB |
| Missed.NotReadOffAfterCrLf | app/count.c:417-423 | after a CR LF the condition of `LeftOverIff` does not decide it: a file, tiled guesses, and a chunk that meets it and is not left with its last byte |
| Keys.CompareKeys | app/compare.c:772-782 | the result is that of the first cell that differs; if none does, the key with fewer cells comes first |
| Keys.CmpDecides | app/compare.c:772-782 | one of the two is the case |
| Keys.KeyOrder | app/compare.c:764-783 | keys are totally preordered, given that cell values are |
| Compare.InputOrder | app/compare.c:764-797 | so are inputs, with those that have no row last and ties broken by input number |
| Compare.InputCmpSays | app/compare.c:764-797 | a waiting row comes before none, a smaller key before a larger one, and else the smaller input number |
| Compare.SortInputs | app/compare.c:805-808 | sorting permutes the inputs into that order |
| Compare.Comparison.Advance | app/compare.c:740-762 | every input then has a row waiting or is at its end; no row is lost |
| Compare.FindLast | app/compare.c:810-824 | the inputs up to the position found are exactly those with the smallest key |
| Compare.GroupIsSmallest | app/compare.c:810-824 | they make up the group of all inputs whose next row has the smallest key, in input order |
| Compare.Comparison.ResetLoaded | app/compare.c:832-834 | exactly the rows of the group are used up |
| Compare.Comparison.Next | app/compare.c:799-837 | one group more, which is that of the first inputs in sort order up to the last one found, and fewer rows left; at the end the groups are the join |
| Compare.Comparison.Run | app/compare.c:1348-1349 | the run ends with the join of the inputs |
| Compare.CompareInputs | app/compare.c:799-837 | for sorted inputs: what is printed is their join, or with required inputs the full groups of it; the key of a group is that of its first row, the one of the first input in it |
| Compare.PrintedOne | app/compare.c:826-830 | with required inputs a group is printed just if every input has a row in it |
| Compare.PrintedSplits | app/compare.c:826-830 | groups are printed in their order |
| Merge.MergingStep | app/compare.c:799-837 | taking the smallest next rows keeps keys in order and the j-th group with a key in step with the j-th rows |
| Merge.MergingEnds | app/compare.c:799-837 | when all rows are used up the groups are the join: keys in order, and a row is in a group if and only if it has the group's key and is as many-th with it; each input is in as many groups as it has rows |
| Merge.JoinCovers | app/compare.c:799-837 | the j-th group with a key has a row of exactly the inputs with more than j such rows |
| Merge.SameCounts | app/compare.c:810-824 | how many-th a row is with its key is the number of rows before it with an equal one |
| Merge.GroupsWithCounts | app/compare.c:810-824 | the number of groups with a row of an input, as a set of groups |
| Merge.RowsOnce | app/compare.c:799-837 | no row is in two groups |
| Merge.FullGroup | app/compare.c:826-830 | a group has as many members as there are inputs just when every input is in it |
| Redline.CompareColumn | app/compare_redline.c:206-239 | key columns match; others match if all inputs agree with the first, are tolerated if all are within tolerance, and else differ |
| Redline.MakeCell | app/compare_redline.c:178-271 | the output cell is the one text or, for a shown difference, the inputs' texts in input order |
| Redline.ColumnInAll | app/compare_redline.c:32-37 | a column is compared only if every input has it |
| Redline.ScalarFromFirst | app/compare_redline.c:41-49 | else the text is that of the first input in the group's order that has the column, or empty if none has |
| Redline.VerdictReads | app/compare_redline.c:185-244 | which cells of the rows are compared, and when they match, are tolerated, differ or are not compared |
| Redline.CellReads | app/compare_redline.c:163-271 | which cells of the rows the output cell shows, for each verdict |
| Redline.Collector.CollectColumns | app/compare_redline.c:178-274 | each verdict is counted in its column and in the totals, and the row has a difference if and only if a shown one occurs |
| Redline.Collector.CollectRow | app/compare_redline.c:129-291 | after each group every counter is the number of groups it names, and the rows kept are those with a difference, or all |
| Redline.CountersCount | app/compare_redline.c:138-253 | each counter is the number of the groups it names: with a row of the input or without, with all, with a difference, and for a column those that match, are within tolerance, or differ |
| Redline.TotalsCount | app/compare_redline.c:192-253 | the totals are the numbers of cells, by group and column, with the verdict they name |
| Redline.RowOfGroup | app/compare_redline.c:274-286 | the rows are those of the groups with a difference, or of all, in their order |
| Redline.RowShows | app/compare_redline.c:156-175 | a row is an object just if some input has no row in its group, and has a cell for each output column |
| Redline.SumUpdate | app/compare_redline.c:191-192 | counting in a column and in the totals keeps the totals the sums of the columns |
| Redline.SeenOrMissing | app/compare_redline.c:139-146 | rows seen and rows missing of an input add up to the number of groups |
| Redline.ColumnBalances | app/compare_redline.c:190-255 | compared is matched and tolerated and differing; it is the number of full groups for a column of all inputs and 0 for others |
| Redline.Conservation | app/compare_redline.c:129-291 | all this of a collector's counters, after any number of groups |
| Redline.RowCountsAreInputSizes | app/compare_redline.c:138-146 | once all groups of a join have been collected, each input's counter is the number of its rows, and the groups it is missing in are the others |
| Redline.HandsOverGroup | app/compare.c:826-834 | the collector is handed exactly the inputs of the merge's group, each with the row that is in it |
| Redline.CompareRedline | app/compare.c:1348-1349 | merge and collector together: the groups are the join of the inputs, the collector has seen those that are printed with their own rows, and if all are printed its counters are the inputs' sizes |
| Utf8.AcceptedStarts | app/check/utf8.c:16-110 | bytes the tests accept are the encoding of a scalar value |
| Utf8.StartsAccepted | app/check/utf8.c:16-110 | every encoding is accepted, with its length |
| Utf8.TextUnfolds | app/check/utf8.c:16-22 | bytes are a text if and only if a character comes first and a text follows |
| Utf8.EncodingIs | app/check/utf8.c:16-110 | the encoding of section 3 of RFC 3629 in numbers: lengths, ranges of the bytes, and their low bits making up the code point; surrogates have none |
| Utf8.Utf8IsValid | app/check/utf8.c:13-116 | accepted if and only if the bytes are the encodings of some sequence of scalar values, as in section 3 of RFC 3629 |
| XlAddress.ColumnOfLetters | app/overwrite.c:82-94 | the letters written for a column stand for it |
| XlAddress.LettersOfColumn | app/overwrite.c:151-158 | letters read as a column are written again as the same letters in upper case |
| XlAddress.LettersAndDigits | app/overwrite.c:142-158 | bytes 65 to 90 and 97 to 122 are the letters 1 to 26, 48 to 57 the digits; no others are |
| XlAddress.RowColToA1 | app/overwrite.c:82-101 | letters and row number, or nothing if the letters do not fit the buffer |
| XlAddress.BufferSuffices | app/overwrite.c:87-90 | they fit for every column a `size_t` can count |
| XlAddress.AddressParses | app/overwrite.c:137-165 | letters, then digits not starting with 0, up to the first other byte, are the address they name |
| XlAddress.AcceptsIffAddress | app/overwrite.c:137-165 | unless a number wraps around, nothing else is accepted: letters, digits not starting with 0, then the end or a byte that is neither letter nor digit |
| XlAddress.AcceptsIffInPlace | app/overwrite.c:137-165 | exactly what is accepted and as what, for any input: by the letters and by the digits before each byte, whose values wrap around |
| XlAddress.PrintThenParse | app/overwrite.c:82-165 | a printed address parses back if and only if its row is not the last a `size_t` can count |
| XlAddress.LastRows | app/overwrite.c:82-165 | the row numbers at the edge, of 64 bits |
| XlAddress.ParseThenPrint | app/overwrite.c:137-165 | a parsed address is printed again in upper case |

## Left out

Of the library:

* The repair of unclosed quotes at the end of the input, `zsv_finish` (src/zsv.c:400-494). Rows are
  those delivered by scan calls; an unfinished last row is not among them, and `Count` assumes a file
  that ends with a row end outside quotes.
* What follows a row that fills the buffer: a parse ends with the status `Truncated` there
  (src/zsv.c:64-80). `buffer_exceeded` is therefore always 0.
* The mode in which only CR LF ends a row, fixed-width scanning, and the fast engine's loop for
  skipped cells and its slow path (column filter, UTF-8 replacement, cell handlers).
* Byte order marks, inserted header strings, filters, progress callbacks, row limits, aborts by
  handlers, the count of cells past the column limit and its warning, `data_row_count`, running out of
  memory.
* Delimiters of 128 and more, which never match in the original.
* Integer widths of offsets and counters, except in `XlAddress`. Vectors are compared lane by lane.
* The copies of scanner fields the fast engine keeps in locals (src/zsv_scan_delim_fast.c:475-508),
  and its branch for blocks without separators, which the general case covers.
* Rows that fill a parser's buffer, for `Count`, `Dealing`, `Jobs` and `Missed`: all rows of the file
  are supposed to be shorter than the buffer. Then no worker that starts at a row meets a full buffer
  (`Jobs.ParserFindsRows`), and after the join only results of such workers are left. With longer rows
  the code goes on counting differently (src/zsv.c:64-80).
* For a file with no place to cut after some nominal boundary, and a row that starts at the last byte
  of a chunk, `Jobs.CountRows` does not say what is printed. The last row `zsv_finish` may add in a
  worker that started inside quotes is left out, and so are chunks cut at CR LF only.
* Threads run one after the other, and files are byte sequences. With a byte order mark offsets are
  shifted; this is not part of the model.
* Skipping empty rows before the header: `Count` is given the header row's number.
* The flags of cells in a header made from several rows.

Of the tools:

* `qsort` is modelled by an insertion into order; the inputs are all told apart by their number, so
  the result is the same. Pointers to inputs are their numbers.
* Comparing cell values and tolerance of numbers: an arbitrary total preorder and arbitrary relations.
* Output of comparisons other than the redline's rows and counters, the list of inputs a redline row
  is missing in, and column matching by name.
* SQLite as a source of sorted rows and of overwrites: sequences in order.
* Everything else: selection, SQL, JSON, the sheet viewer, properties, option parsing.

Contracts weaker than they could be:

- Engines.PushAll: of the rows delivered when the fast engine meets a literal quote it says that they are those of a place less than 64 bytes before the quote; which place is a matter of how chunks and buffer line up its blocks.
- Count.ParallelCount: the serial count is reached through `ParallelIsSerial`, `TiledCount` and `Dealing.SerialIffNoneLeftOver`, which take its results.
