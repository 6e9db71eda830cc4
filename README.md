# fastq-fix-i5 in Dafny

A model of `fastq-fix-i5`, a streaming FASTQ filter. The filter reads
records of four lines: header, sequence, plus line and quality. In each
header of the shape `@...:<i7>+<i5>[\n]` it reverse-complements the i5
index, which is everything after the first `+` that follows the last `:`.
Every other byte is written out unchanged.

The model follows `src/main.rs` part by part. The byte scans and the
`Vec<u8>` buffer are methods whose contracts state their results
directly. Each of the other parts pairs the imperative code (loops,
in-place updates, reused buffers) with a specification function on
sequences. The method is proved equal to that function, and the
properties are proved as lemmas about the function.

- `Bytes` (`bytes.dfy`):
  - the `u8` byte type and the delimiters;
  - the two byte scans, `memchr` (forward, first occurrence) and `memrchr` (backward, last occurrence), as loops.
- `Complement` (`complement.dfy`):
  - `complement_base`;
  - the reverse complement `RevComp` as a function, with its pointwise description and its involution;
  - `reverse_complement_in_place` as a two-index loop over an array range, proved equal to `RevCompRange`.
- `Vec` (`vec.dfy`): the reusable `Vec<u8>` line buffer, an array plus a length. `clear` keeps the storage. `extend_from_slice` grows the storage when needed.
- `Header` (`header.dfy`):
  - `rewrite_header_i5`: the method locates the field with the two scans and reverse-complements it in place;
  - `I5Span` and `RewriteI5` say which field that is and what the header becomes.
- `LineReader` (`reader.dfy`):
  - `BufReader` over an input stream, given as the whole input sequence and a cursor;
  - `read_line`, proved to return `NextLine` of the unread input, which is the bytes up to and including the first line feed, or the rest of the input when there is none.
- `Driver` (`driver.dfy`):
  - the record loop of `main` as `FixFastq`, proved equal to `Fix`. `Fix` writes each complete record with its header rewritten, and ends with `Success` at end of input or `TruncatedRecord` at a record with fewer than four lines;
  - the whole run restated on lines (`FixByLines`, `FixOfLines`);
  - the round trip `FixTwice`: fixing a successful output again gives back the original input.
- `HeaderCases` and `DriverCases` (`header_cases.dfy`, `driver_cases.dfy`): cases from the program's test tables, worked through the general lemmas.

`read_line` clears its buffer itself (`src/main.rs:122`), even though `main`
also clears the buffers before calling it. The model clears in both places,
as the code does.

## Model

| member | source | states |
|---|---|---|
| Bytes.MemChr | src/main.rs:56 | returns None exactly when the byte is absent; otherwise the index of its first occurrence |
| Bytes.MemRChr | src/main.rs:51 | returns None exactly when the byte is absent; otherwise the index of its last occurrence |
| Complement.ComplementBase | src/main.rs:6-21 | maps bases to bases and non-bases to non-bases; every byte other than A, C, G, T, N (either case) is returned unchanged |
| Complement.ComplementKeepsCase | src/main.rs:4-21 | upper-case stays upper-case and lower-case stays lower-case; the fixed points are exactly the non-bases and N/n |
| Complement.ComplementInvolution | src/main.rs:8-20 | complementing a byte twice gives the byte back |
| Complement.RevComp | src/main.rs:24-36 | the reverse complement has the length of its input |
| Complement.RevCompAt | src/main.rs:24-36 | position k of the reverse complement is the complement of the byte at the mirrored position |
| Complement.RevCompInvolution | src/main.rs:24-36 | reverse-complementing twice gives the sequence back |
| Complement.RevCompKeepsNonBase | src/main.rs:24-36 | a non-base byte such as `:`, `+` or a line feed occurs in the reverse complement exactly when it occurs in the input |
| Complement.RevCompRange | src/main.rs:67-68 | reverse-complementing a sub-slice keeps the buffer's length |
| Complement.RevCompRangeAt | src/main.rs:67-68 | complementing a sub-slice mirrors and complements the bytes inside it and keeps every byte outside it |
| Complement.RevCompRangeInvolution | src/main.rs:67-68 | reverse-complementing the same sub-slice twice restores the buffer |
| Complement.ReverseComplementInPlace | src/main.rs:24-36 | the two-index swap loop leaves the array equal to the range reverse complement of its old contents |
| Vec.ByteVec.WithCapacity | src/main.rs:81-84 | a new buffer is empty and has the requested capacity |
| Vec.ByteVec.Clear | src/main.rs:87 | the buffer becomes empty and keeps its storage |
| Vec.ByteVec.ExtendFromSlice | src/main.rs:131 | the contents become the old contents followed by the slice |
| Header.DelimitersUnique | src/main.rs:50-58 | a header has at most one pair of a last `:` and a first `+` after it |
| Header.ScansFindDelimiters | src/main.rs:50-58 | what the two scans report is that pair |
| Header.ScansFindNoDelimiters | src/main.rs:50-58 | a scan that finds nothing means there is no such pair |
| Header.I5Span | src/main.rs:42-66 | a field is found exactly when the header starts with `@` and has a `+` after its last `:`; then `0 < i5_start <= i5_end <= len`, so the slice is always in bounds |
| Header.RewriteI5 | src/main.rs:41-70 | the rewritten header has the length of the original; its bytes are given by `RewriteI5Frame` |
| Header.I5SpanOf | src/main.rs:60-66 | the i5 field starts right after the `+` and ends before a final line feed, or at the end when there is none |
| Header.LocateI5 | src/main.rs:42-66 | the scanning code finds exactly the field `I5Span` describes; none for an empty header, one without a leading `@`, one without a `:`, or one without a `+` after its last `:` |
| Header.RewriteI5Frame | src/main.rs:60-68 | no field means no change; otherwise the field is mirrored and complemented and every other byte, the line feed included, is kept |
| Header.RewriteI5KeepsLine | src/main.rs:60-66 | the rewrite keeps a line a line, with the same final line feed or lack of one |
| Header.RewriteI5KeepsDelimiters | src/main.rs:50-68 | after the rewrite the same `:` and `+` still delimit the field |
| Header.RewriteI5Involution | src/main.rs:41-70 | rewriting a header twice restores it whenever its i5 field holds no line feed |
| Header.RewriteI5LineInvolution | src/main.rs:41-70 | every line the reader produces meets that condition, so rewriting it twice restores it |
| Header.RewriteI5Grammar | src/main.rs:38-70 | for a header `@<prefix>:<i7>+<i5>[\n]`, the i5 part becomes its reverse complement and the rest is kept; the prefix may contain colons |
| Header.RewriteHeaderI5 | src/main.rs:41-70 | returns true exactly when a field is found, and leaves the buffer holding `RewriteI5` of its old contents |
| HeaderCases.MixedCase | src/main.rs:168-171 | `@r4 1:N:0:TTTT+AcTg\n` becomes `@r4 1:N:0:TTTT+cAgT\n` |
| HeaderCases.NoNewline | src/main.rs:184-187 | `@r7 1:N:0:CCCC+AGTC` becomes `@r7 1:N:0:CCCC+GACT` |
| HeaderCases.NoPlus | src/main.rs:176-179 | `@r5 1:N:0:AAAA\n` has no field and is kept |
| HeaderCases.NoColon | src/main.rs:180-183 | `@r6 no_index_here\n` has no field and is kept |
| HeaderCases.EmptyHeader | src/main.rs:188-191 | `@\n` has no field and is kept |
| HeaderCases.EmptyI5 | src/main.rs:192-195 | in `@pyt1 1:N:0:AAAA+\n` the field is found but empty, so the header is kept |
| LineReader.NextLine | src/main.rs:118-119 | the line read is no longer than the remaining input, and empty exactly at end of input |
| LineReader.NextLineShape | src/main.rs:118-119 | the line read is a prefix of the input with no line feed before its last byte, and it ends in a line feed unless it is the whole rest of the input |
| LineReader.NextLineWithoutFeed | src/main.rs:136-143 | with no line feed left, the line is the rest of the input |
| LineReader.NextLineAtFeed | src/main.rs:129-135 | with the first line feed at i, the line is the first i + 1 bytes |
| LineReader.BufReader.WithCapacity | src/main.rs:76 | a new reader is at the start of its input |
| LineReader.BufReader.FillBuf | src/main.rs:125 | returns the buffered unread bytes, refilling only when none are left; empty exactly at end of input |
| LineReader.BufReader.Consume | src/main.rs:132-133 | advances the cursor by the amount, without passing the buffered bytes |
| LineReader.ChunkEndsLine | src/main.rs:129-135 | a chunk whose first line feed is at i completes the line |
| LineReader.ChunkContinuesLine | src/main.rs:136-142 | a chunk with no line feed continues the line |
| LineReader.InputEndsLine | src/main.rs:126-127 | at end of input the line is whatever was read so far |
| LineReader.CopyAndConsume | src/main.rs:131-133 | the buffer still holds the input from the line start to the cursor |
| LineReader.CopyThroughFeed | src/main.rs:129-135 | the bytes through the line feed are copied and consumed, and the line is complete |
| LineReader.CopyAll | src/main.rs:136-142 | all buffered bytes are copied and consumed, and the line goes on |
| LineReader.ReadChunk | src/main.rs:124-143 | one pass of the loop keeps the buffer equal to the input read so far, and a finished pass has read exactly the next line |
| LineReader.ReadLine | src/main.rs:121-144 | the buffer holds the next line of the unread input; the count is its length, zero only at end of input; the cursor moves past it |
| Driver.LineEndAt | src/main.rs:88-89 | a line read moves the cursor forward, and moves it by zero exactly at end of input |
| Driver.SplitAt | src/main.rs:86-105 | nothing is left exactly at end of input; a whole record moves the cursor forward by exactly the length of its four lines |
| Driver.FixFrom | src/main.rs:86-112 | from any position the run writes no more bytes than remain, and on success exactly as many |
| Driver.Fix | src/main.rs:72-116 | the run never writes more than the input, and a successful run writes output exactly as long as the input |
| Driver.ReadBody | src/main.rs:93-105 | all three lines are read exactly when none of them is empty, and then the three buffers hold the next three lines |
| Driver.ReadRecord | src/main.rs:87-105 | stops exactly at end of input; is cut short exactly when fewer than four lines remain; otherwise the buffers hold the record's four lines |
| Driver.FixStep | src/main.rs:86-112 | end of input writes nothing and succeeds; a cut-short record writes nothing and fails; a whole record is written, header rewritten, before the rest |
| Driver.FixRecordStep | src/main.rs:86-111 | one turn appends exactly the record with its header rewritten, or nothing at end of input or at a cut-short record |
| Driver.FixFastq | src/main.rs:76-116 | the loop writes and reports exactly what `Fix` gives for the input |
| Driver.Lines | src/main.rs:121-144 | there are no more lines than bytes, and none exactly for empty input |
| Driver.LinesJoin | src/main.rs:121-144 | joining the lines the reader reads gives back the input, and the lines are well formed |
| Driver.NextLineOfJoin | src/main.rs:121-144 | a well-formed line followed by more input reads back as that line |
| Driver.LinesOfConcat | src/main.rs:121-144 | reading back joined well-formed lines gives the same lines |
| Driver.RewriteHeaders | src/main.rs:107-111 | rewriting the headers keeps the number of lines |
| Driver.RewriteHeadersRecord | src/main.rs:107-111 | in a record of four lines only the first, the header, is rewritten |
| Driver.RecordLines | src/main.rs:107-111 | a whole record in front of more lines writes its rewritten lines in front of theirs |
| Driver.LinesOfRecord | src/main.rs:87-99 | a whole record is the next four lines the reader reads |
| Driver.LinesOfTruncated | src/main.rs:97-104 | a cut-short record has one to three lines left |
| Driver.FixByLines | src/main.rs:86-112 | the output is the complete records, in order, each with its header rewritten; the run succeeds exactly when the line count is a multiple of four, and a trailing incomplete record is not written |
| Driver.FixOfLines | src/main.rs:86-112 | the same for an input given as well-formed lines |
| Driver.RewriteHeadersTwice | src/main.rs:107 | rewriting every header twice restores the lines and keeps them well formed |
| Driver.FixSucceeded | src/main.rs:86-112 | a successful run has read whole records of well-formed lines that join to the input, and written them with their headers rewritten |
| Driver.FixTwice | src/main.rs:86-112 | running the filter on its own successful output gives back the original input, again with success |
| DriverCases.FixTwoRecords | src/main.rs:86-112 | two whole records whose headers the rewrite keeps come out unchanged, with success |
| DriverCases.TwoValidReads | tests/cli.rs:5-30 | the two-read input of the command-line test comes out unchanged, with success |

## Left out

- Standard input, standard output and their locking are not modelled. Input is a byte sequence read through a cursor, and output is a byte sequence the loop appends to.
- `BufWriter` and the final `flush` are not modelled. When `main` returns the truncation error, dropping the writer still flushes what was written. The model therefore keeps the records before a truncated one in `Outcome.written`.
- I/O errors from reading or writing are not modelled (the `?` paths): reads and writes always succeed. A truncated record is the only failure, reported as `TruncatedRecord` instead of an `io::Error` with exit status and message.
- LineReader.BufReader.FillBuf: how many bytes a refill brings is up to the operating system. It is a nondeterministic choice between one byte and the capacity.
- The `memchr` crate's vectorised search is not modelled. `memchr` and `memrchr` are linear scans with the same results.
- Vec.ByteVec.ExtendFromSlice: the growth policy of `Vec` is not modelled. The model grows to double the size or to the needed size; the contract says nothing about capacity.
- `usize` overflow of the byte count in `read_line` is not modelled; counts are unbounded.
- A strict mode that rejects headers without a `+` does not exist in the code. Such headers pass through unchanged, as `NoPlus` shows.
- Of the 22 header cases in the unit-test table, only the six in `HeaderCases` are worked through concretely. The rest are instances of `RewriteI5Grammar` and `RewriteI5Frame`.
