# write-order-file, modelled in Dafny

The program `write-order-file.from-fastq.to-fasta.single.common` takes a
reference FASTQ file, a FASTA file holding the same reads in another order,
and an output path. It writes, for each read of the FASTA file in turn, the
1-based position of that read in the reference file.

It works in two passes over line-oriented text:

- **Index builder.** It reads the reference file four lines per record. For
  each header line it takes the read identifier: the first
  whitespace-delimited word with its first character erased. It counts the
  record, fails if the identifier is already in the table, and otherwise
  maps the identifier to the count. It prints one warning, once per run, the
  first time a header has more than one word.
- **Order resolver.** It reads the FASTA file two lines per record (header,
  sequence). It looks each identifier up in the table. It fails at the first
  unknown identifier; otherwise it appends the read number to the order file.

The model takes each file's contents as a `seq<string>` of lines. The
program reads bytes, so every `char` of the model stands for one byte of the
file, a value in 0..255: the whitespace test, the word split and the removal
of the word's first character (`erase(0, 1)`, one byte) are stated on those
bytes. A multi-byte UTF-8 character is several `char`s, not one. Every line
is assumed to end with a newline. A header is read at lines 0, s, 2s, … for
stride s, as long as that line exists, so a header that starts a truncated
last record is still processed.

Modules:

- `Header` (header.dfy): whitespace as the C locale defines it, the words of
  a line, the first word, the identifier, and their properties.
- `Records` (records.dfy): the header lines a pass reads at a given stride,
  their identifiers, and the `Error` datatype for the two fatal errors.
- `IndexBuilder` (index_builder.dfy): the first pass as a method with a
  loop, and `Build`, a fold that specifies it, with lemmas about `Build`.
- `OrderResolver` (order_resolver.dfy): the second pass as a method with a
  loop, and `FirstUnknown`, the position where it stops.
- `WriteOrderFile` (write_order_file.dfy): `Run`, the whole of `main`, and
  its end-to-end contract.
- `Wrappers` (wrappers.dfy): `Option` and `Result`.

The program's state is all local to `main`: the counter `num_reads`, the
flag `already_warned`, the hash table and the output stream. The methods
keep these as local variables and out-parameters. The hash table becomes a
`map<string, nat>` that the loop reassigns. The output stream becomes a
`seq<nat>` that the loop appends to. `exit(EXIT_FAILURE)` becomes an
`Error` value that names the identifier; for a duplicate it also carries the
record count.

## Model

| member | source | states |
|---|---|---|
| `Header.Identifier` | src/write-order-file.from-fastq.to-fasta.single.common.cpp:58-63 | The identifier of a header line: its first word less its first character (lines 58-63 for the reference file, 112-117 for the reordered one). Its contract says that a non-empty header always loses at least that one character. `IdentifierOfHeader` and `IdentifierIsWordTail` pin the value down. |
| `Header.Words` | src/write-order-file.from-fastq.to-fasta.single.common.cpp:44 | The words an `istream_iterator<string>` yields over the line, in order. There are never more words than characters. `WordsAreWords`, `WordsOfUnwords` and `MultiWordSpec` characterise them. |
| `Header.MultiWord` | src/write-order-file.from-fastq.to-fasta.single.common.cpp:44-46 | The warning condition `num_words > 1`. By `MultiWordSpec` it holds exactly on lines with a second word. |
| `Header.MultiWordSpec` | src/write-order-file.from-fastq.to-fasta.single.common.cpp:44-46 | A header has more than one word if and only if it has a non-blank character, later a whitespace character, and later again a non-blank character. This holds whatever whitespace separates and surrounds the words: tabs, runs of spaces, leading or trailing blanks. |
| `Records.Headers` | src/write-order-file.from-fastq.to-fasta.single.common.cpp:39-41 | The header lines a pass reads at a given stride: 4 in the first pass (lines 39-41 and 77-82), 2 in the second (lines 108-110 and 130-133). There are never more headers than lines, and a non-empty file's first header is its first line. `HeadersAt` gives header k as line k × stride. |
| `IndexBuilder.Build` | src/write-order-file.from-fastq.to-fasta.single.common.cpp:55-74 | The table after the given records, built one record at a time. A record whose identifier is already a key fails with the record count; any other is added with that count. `BuildSucceeds`, `BuildPositions`, `BuildKeys`, `BuildFails` and `BuildFailsAt` characterise it. |
| `Header.IdentifierOfHeader` | src/write-order-file.from-fastq.to-fasta.single.common.cpp:58-63 | A header made of whitespace, then any non-blank character, then a whitespace-free `id`, then nothing or whitespace, has identifier exactly `id`. Only the first character of the word is removed, whatever it is, so a later `@` stays. |
| `Header.IdentifierIsWordTail` | src/write-order-file.from-fastq.to-fasta.single.common.cpp:58-63 | A blank or empty header gives the empty identifier. Otherwise the first word is one character followed by the identifier. |
| `Header.FirstWordSpec` | src/write-order-file.from-fastq.to-fasta.single.common.cpp:58-60 | The extracted word is empty exactly on a blank line. Otherwise it starts after the leading whitespace, holds no whitespace, and ends at the next whitespace or at the end of the line. |
| `Header.SkipSpaceDropsSpace` | src/write-order-file.from-fastq.to-fasta.single.common.cpp:58-60 | Skipping leading whitespace drops only whitespace characters and keeps a suffix of the line. |
| `Header.TakeWordIsPrefix` | src/write-order-file.from-fastq.to-fasta.single.common.cpp:58-60 | A word read from the stream is the longest whitespace-free prefix of what remains. |
| `Header.WordsAreWords` | src/write-order-file.from-fastq.to-fasta.single.common.cpp:44 | A line has no words exactly when it is blank. Its first word is the one `>>` extracts. Every word is non-empty and free of whitespace. |
| `Header.WordsOfUnwords` | src/write-order-file.from-fastq.to-fasta.single.common.cpp:44 | Splitting a line built from given words, joined by single spaces, gives those words back. So the word count is the number of such words. |
| `Records.HeadersAt` | src/write-order-file.from-fastq.to-fasta.single.common.cpp:39-41 | Header k of a pass is line k × stride. Every multiple of the stride below the line count is a header position. |
| `IndexBuilder.BuildIndex` | src/write-order-file.from-fastq.to-fasta.single.common.cpp:30-83 | The first pass computes `Build` of the identifiers of lines 0, 4, 8, …. On success it reads every record; on failure `num_reads` is the count of the failing record. `already_warned` is true exactly when some header read so far has more than one word, and the warning is printed at most once. |
| `IndexBuilder.BuildStep` | src/write-order-file.from-fastq.to-fasta.single.common.cpp:55-74 | One more record either fails with its identifier and the new count, when the table already holds the identifier, or adds it with the new count. |
| `IndexBuilder.BuildSucceeds` | src/write-order-file.from-fastq.to-fasta.single.common.cpp:66-74 | The first pass succeeds if and only if the reference identifiers are pairwise distinct. |
| `IndexBuilder.BuildPositions` | src/write-order-file.from-fastq.to-fasta.single.common.cpp:55-73 | On success, the identifier of the k-th reference record (0-based) is a key mapped to k + 1. |
| `IndexBuilder.BuildKeys` | src/write-order-file.from-fastq.to-fasta.single.common.cpp:55-73 | On success, every key's number lies in 1..num_reads and names a record with that identifier. So the keys are exactly the reference identifiers. |
| `IndexBuilder.BuildNumbersDistinct` | src/write-order-file.from-fastq.to-fasta.single.common.cpp:55-73 | On success, distinct identifiers get distinct numbers. |
| `IndexBuilder.BuildFails` | src/write-order-file.from-fastq.to-fasta.single.common.cpp:55-69 | A failure is always a duplicate, found at a record n. That record's identifier is the one named, it occurs among the records before n, and those earlier records are pairwise distinct. |
| `IndexBuilder.BuildFailsAt` | src/write-order-file.from-fastq.to-fasta.single.common.cpp:55-69 | Conversely, when record k + 1 is the first to repeat an identifier, the pass fails there with count k + 1 and names that identifier. |
| `IndexBuilder.BuildFailureStays` | src/write-order-file.from-fastq.to-fasta.single.common.cpp:66-69 | After the first duplicate the pass has stopped, so later records change nothing. |
| `IndexBuilder.BuildGrows` | src/write-order-file.from-fastq.to-fasta.single.common.cpp:66-74 | The table only grows. Every entry present after the first j records is still there, with the same number, at the end of a successful pass. |
| `IndexBuilder.AnyMultiWordExtend` | src/write-order-file.from-fastq.to-fasta.single.common.cpp:43-51 | "Some header so far had more than one word" is true after one more record exactly when it was already true or that record's header has more than one word. So once set, the flag stays set. |
| `OrderResolver.FirstUnknown` | src/write-order-file.from-fastq.to-fasta.single.common.cpp:119-123 | The position where the second pass stops: every earlier identifier is in the table, and the one there, if any, is not. |
| `OrderResolver.FirstUnknownAt` | src/write-order-file.from-fastq.to-fasta.single.common.cpp:119-123 | Any position with those two properties is the one `FirstUnknown` gives. |
| `OrderResolver.ResolveOrder` | src/write-order-file.from-fastq.to-fasta.single.common.cpp:108-134 | For the identifiers of lines 0, 2, 4, …, the output holds one number per identifier before the first unknown one, namely that identifier's table entry. The error names the unknown identifier, if there is one. The table is only read. |
| `WriteOrderFile.TableLookup` | src/write-order-file.from-fastq.to-fasta.single.common.cpp:120-127 | After a successful first pass, an identifier is in the table exactly when some reference record has it. Its number is that record's 1-based position. |
| `WriteOrderFile.Run` | src/write-order-file.from-fastq.to-fasta.single.common.cpp:30-134 | The run succeeds if and only if the reference identifiers are distinct and every identifier of the second file is among them. Every order-file entry k names the reference record whose identifier is that of second-file record k. A duplicate writes nothing, because the order file is not yet opened; the error names the first repeated identifier with its record count. An unknown identifier is named after exactly the entries resolved before it. Whatever the outcome, a warning has been printed (once) exactly when some reference header read before the run stopped has more than one word: every header up to the duplicate, or all of them when the first pass succeeds. |

## Left out

- Argument-count validation and usage message (lines 13-16): command-line glue.
- Opening and closing the three files and the "Cannot open" failures (lines 19-25, 85, 91-106, 136-137): I/O. The model takes the contents of both input files as line sequences and returns the order file's contents.
- Stream state beyond the stride abstraction. The loop tests `eof` only at its top (lines 41 and 110). So when the last line has no newline and is a header line (line k × stride), the program sets `eof` while reading it and skips that record, which the model still processes. A missing newline after any other line makes no difference. The model assumes every line ends with a newline.
- The text of the warning and error messages (lines 47, 67, 121). The warning is a count and a flag; errors are `Error` values.
- Formatting of the numbers by `operator<<` and `std::endl` (line 126): the order file is a `seq<nat>`.
- The hashing inside `std::unordered_map`: the table is a `map<string, nat>`.
- The width of `std::size_t`: `num_reads` is an unbounded `nat`, since wrap-around would need SIZE_MAX + 1 records (2^64 on a 64-bit platform).
- The resolver receives the table by value. So "the table is unchanged by the second pass" holds by construction and is not stated as a contract. Looking up an absent key cannot happen in Dafny, which matches line 126: `operator[]` there runs only after `find` has succeeded, so it never inserts a default entry.
- The reordered file is read two lines per record, as the code does (lines 130-133), and as its usage text, which calls it a FASTA file, implies. A FASTA file whose sequences span several lines would misalign the second pass in the program and in the model alike.
- Text encoding: the program never decodes its input. The model's `char`s are taken to be bytes (0..255); it does not model a multi-byte character as one unit, and neither does the program.
- The header marker: the code erases the first character of the word whatever it is. It does not look for `@`, and the model does not either.
