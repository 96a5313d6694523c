# texttopdf-rs: a verified model of the PDF renderer

texttopdf-rs turns plain text into a PDF 1.7 document (ISO 32000-1). Its core is
`src/pdf.rs`, which has three parts:

- The element encoder `render_elem` writes a recursive PDF value as text: null, booleans, integers, literal strings, names, references, arrays, dictionaries and streams.
- The file framing covers `render_obj`, `render_header`, `render_xref`, `render_trailer` and `render_pdf`. Together they write the indirect objects, the header, the cross-reference table and the trailer, and compute byte offsets as they go.
- The document builder `text_to_pdf` gives every document the same object layout. Object 1 is the catalog, 2 the page tree and 3 the font resources. For n pages, objects 4 .. 3+n are the pages and 4+n .. 3+2n are their content streams.

The model is in Dafny, one module per concern:

| file | module | what it holds |
|---|---|---|
| `options.dfy` | `Options` | the `Option` type used by every reader |
| `numerals.dfy` | `Numerals` | Rust's integer formatting: `to_string`, `{:010}`/`{:05}` and `{:02x}`, with readers for each |
| `utf8.dfy` | `Utf8` | UTF-8 encoding and decoding; every `.len()` of the source counts these bytes |
| `pdf_elem.dfy` | `PdfElem` | the value type, the two escapes and `render_elem` (`Render`) |
| `pdf_reader.dfy` | `PdfReader` | a reader for what `Render` writes: the inverse that the round-trip lemmas are stated against |
| `pdf_file.dfy` | `PdfFile` | objects, header, cross-reference table, trailer, and `render_pdf` as a method with its loops |
| `builder.dfy` | `Builder` | `text_to_pdf` as a method with its two push loops, and the layout it promises |

Design choices:

- The rendered document is a byte sequence, because the header holds four raw bytes that are not UTF-8. Text parts become bytes through `Utf8.Encode`, and all offsets are byte counts.
- The pure parts of the source are functions. The two loop-driven functions, `render_pdf` and `text_to_pdf`, are methods. Each method is proved equal to a specification function: `PdfFile.Document` and `Builder.Layout`.
- The properties are then proved about those specification functions.

### Where the code and the usual reading of it differ

- The model follows the code in each case below. Lemmas state the behaviour as the code has it.
- `render_pdf` records where each object *ends*, not where it begins.
  - Row k of the table (1 <= k < N) therefore holds the start of the list's object k, counted from 0. That object is numbered k+1 in the builder's layout.
  - The first object's start is never recorded.
  - `startxref` holds the end of the last object, which is where `xref` begins.
  - See `PdfFile.XrefTableShape`, `PdfFile.XrefRowFindsNextObject`, `Builder.LayoutXrefShift` and `PdfFile.StartXrefLocatesXref`.
  - So a reader that takes row k for object k lands one object too far.
- `escape_name` uses `{:02x}` on the code point. That gives *at least* two hexadecimal digits, so a code point above 255 gets three or more.
  - A two-digit reader reads such a name back wrong (`PdfReader.WideNameReadsBackWrong`).
  - Delimiters such as `]` pass through unescaped and cut the name short (`PdfReader.DelimiterInNameMisreads`).
- Dictionary keys are written raw, so two different dictionaries can render to the same text (`PdfReader.RawKeysCollide`).

## Model

| member | source | states |
|---|---|---|
| Numerals.IntToDecimal | src/pdf.rs:48 | models `i.to_string()`: a `-` for negatives, then the decimal digits; its contract is `IntToDecimalRoundTrip` |
| Numerals.ZeroPadded | src/pdf.rs:120-121 | models `{:010}` and `{:05}`: the digits padded on the left with zeros to the width; its contract is `ZeroPaddedField` |
| Numerals.LowerHex | src/pdf.rs:38 | models `{:02x}`: lower-case hexadecimal digits padded on the left with zeros to the width; its contract is `LowerHexTwoDigits` |
| Numerals.IntToDecimalRoundTrip | src/pdf.rs:48 | `i.to_string()` reads back as `i`; it starts with `-` exactly when `i` is negative; its only leading zero is the text `0` itself |
| Numerals.DigitsShape | src/pdf.rs:48 | the digits of a number are all digits of the base, with no leading zero |
| Numerals.ValueOfDigits | src/pdf.rs:48 | the digits written for `n` denote `n` |
| Numerals.DigitsLength | src/pdf.rs:120-121 | a number has at most k digits exactly when it is below base^k |
| Numerals.ValueOfLeadingZeros | src/pdf.rs:120-121 | zero padding does not change the value of a digit string |
| Numerals.ZeroPaddedField | src/pdf.rs:120-121 | `{:010}` / `{:05}` of a value below 10^width fills exactly `width` digits that read back as the value |
| Numerals.LowerHexTwoDigits | src/pdf.rs:38 | `{:02x}` writes at least two digits, exactly two iff the value is below 256, and reads back as the value |
| Utf8.EncodeChar | src/pdf.rs:62 | a character takes one to four bytes, one exactly when it is ASCII; every byte after the first is a continuation byte |
| Utf8.EncodeAppend | src/pdf.rs:166 | the byte length of joined text is the sum of the parts' byte lengths (encoding distributes over concatenation) |
| Utf8.DecodeEncode | src/pdf.rs:62 | the bytes of a `String` decode back to it |
| Utf8.EncodeDecode | src/pdf.rs:62 | only well-formed UTF-8 decodes, and it re-encodes to the same bytes |
| Utf8.EncodeAscii | src/pdf.rs:88 | ASCII text is one byte per character, each its own code |
| PdfElem.Replace | src/pdf.rs:30-32 | after replacing `c` by a text without `c`, no `c` remains; every character of the result comes from the replacement or is an untouched character of the input |
| PdfElem.ReplaceAbsent | src/pdf.rs:30-32 | a text without `c` is left exactly as it is |
| PdfElem.ReplaceSingle | src/pdf.rs:30-32 | on one character, `c` becomes the replacement and any other character stays; with `ReplaceAppend` this fixes the result on every text, character by character, in order |
| PdfElem.ReplaceAppend | src/pdf.rs:30-32 | a one-character replace works piece by piece on concatenated text |
| PdfElem.EscapeString | src/pdf.rs:29-33 | models `escape_string`: three chained one-character replaces, backslash first; its contract is `EscapeStringSinglePass`, `UnescapeEscape` and `EscapedParenthesesPreceded` |
| PdfElem.EscapeStringSinglePass | src/pdf.rs:29-33 | the three chained replacements equal one left-to-right pass escaping `\`, `(` and `)` each once, with no double escaping |
| PdfElem.ParenthesesFirstDoubleEscapes | src/pdf.rs:29-33 | the backslash-first order matters: escaping parentheses first would turn `(` into `\\(` instead of `\(` |
| PdfElem.UnescapeEscapeEach | src/pdf.rs:29-33 | the left-to-right unescape undoes the single-pass escape |
| PdfElem.UnescapeEscape | src/pdf.rs:29-33 | string escaping round-trips: unescaping the escaped body recovers the text |
| PdfElem.EscapedParenthesesPreceded | src/pdf.rs:29-33 | every parenthesis in an escaped body is preceded by a backslash |
| PdfElem.EscapeNameChar | src/pdf.rs:36-41 | models the closure of `escape_name`: a printable character other than `#` stays, any other becomes `#` and `{:02x}` of its code point; its contract is `EscapeNameCharShape` |
| PdfElem.EscapeName | src/pdf.rs:35-43 | models `escape_name`: each character escaped on its own, the pieces joined in order; its contract is `EscapeNamePrintable` and `DecodeEscapeName` |
| PdfElem.EscapeNameCharShape | src/pdf.rs:36-41 | printable characters other than `#` pass unchanged; any other becomes `#` and hex digits that read back as its code point, exactly two iff it is below 256; all output is printable |
| PdfElem.EscapeNamePrintable | src/pdf.rs:35-43 | every character of an escaped name is in `!`..`~` |
| PdfElem.DecodeEscapeName | src/pdf.rs:35-43 | name escaping round-trips for names whose code points are all below 256 |
| PdfElem.WideNameEscapeMisreads | src/pdf.rs:38 | U+0100 escapes to `#100`, which a two-digit reader decodes as U+0010 followed by `0` |
| PdfElem.Render | src/pdf.rs:44-68 | every rendered value is non-empty and begins with one of `n t f ( / [ <`, `-` or a digit |
| PdfReader.TakeRegularSplit | src/pdf.rs:50 | a name token is cut off exactly at the first non-regular character |
| PdfReader.ParseLiteralEscaped | src/pdf.rs:49 | in `(` escaped body `)`, the first unescaped `)` closes the string and the body reads back whole |
| PdfReader.TakeBytesSplit | src/pdf.rs:62-64 | taking `/Length` bytes after `stream` yields exactly the content, so the length is its UTF-8 byte count |
| PdfReader.ParseNumberOf | src/pdf.rs:48 | the digits of an integer read back as it, and as a reference when ` 0 R` follows |
| PdfReader.EscapeNameRegular | src/pdf.rs:35-43 | an escaped name without delimiters, of any code points (wide ones included), is a single name token |
| PdfReader.RoundTripNumber | src/pdf.rs:48 | an integer reads back from its text |
| PdfReader.RoundTripRef | src/pdf.rs:51 | `n 0 R` reads back as the reference to `n` |
| PdfReader.RoundTripString | src/pdf.rs:49 | a string literal reads back as its text, whatever characters it holds |
| PdfReader.RoundTripName | src/pdf.rs:50 | a name of code points below 256 and without delimiters reads back |
| PdfReader.RoundTripItems | src/pdf.rs:52 | well-formed array items joined by single spaces read back as the items, in order |
| PdfReader.RoundTripArray | src/pdf.rs:52 | an array of well-formed items reads back with its items in order |
| PdfReader.RoundTripEntries | src/pdf.rs:55-57 | `/key value` lines with well-formed keys and values read back as the entries, in order, keys included |
| PdfReader.RoundTripDict | src/pdf.rs:53-59 | a dictionary with well-formed keys and values reads back with its entries in the order given |
| PdfReader.RoundTripStream | src/pdf.rs:60-67 | a stream reads back: its `/Length` covers exactly the raw content, which is unescaped |
| PdfReader.RoundTrip | src/pdf.rs:44-68 | every well-formed value, followed by any text that can end it, reads back as that value with the text left over |
| PdfReader.RenderRoundTrip | src/pdf.rs:28-69 | the text of a well-formed value determines it: reading `render_elem`'s output gives the value back |
| PdfReader.RawKeysCollide | src/pdf.rs:56 | keys are written raw, so `{"a 1\n/b": 2}` and `{"a": 1, "b": 2}` render to the same text |
| PdfReader.NameClosesArray | src/pdf.rs:50-52 | in `[/a]]` the name stops at the first `]`, which closes the array |
| PdfReader.DelimiterInNameMisreads | src/pdf.rs:37 | `]` is not escaped in a name, so `[/a]]` cannot be read back as one element |
| PdfReader.WideNameReadsBackWrong | src/pdf.rs:38 | the name U+0100 reads back as U+0010 followed by `0` |
| PdfFile.ConcatAppend | src/pdf.rs:185 | joining with `""` distributes over concatenated lists |
| PdfFile.ConcatFixedWidth | src/pdf.rs:113-115 | pieces of one width join so that piece k sits at `k * w` |
| PdfFile.RenderObj | src/pdf.rs:77-79 | models `render_obj`: the number, ` 0 obj\n`, the rendered value and `\nendobj\n`; its contract is `ObjReadsBack` |
| PdfFile.ObjReadsBack | src/pdf.rs:77-79 | `n 0 obj` value `endobj` of a well-formed value reads back as the object, number and value |
| PdfFile.RenderHeader | src/pdf.rs:81-92 | models `render_header`, as bytes because of its four raw marker bytes; its contract is `HeaderShape` |
| PdfFile.HeaderShape | src/pdf.rs:81-92 | the header is `%PDF-`, the bytes of `major.minor` in decimal, a newline, `%`, the raw bytes E2 E3 CF D3 and a newline: 13 bytes more than the version digits |
| PdfFile.RenderXrefEntryUse | src/pdf.rs:128-133 | one character: `n` exactly for an in-use entry and `f` exactly for a free one |
| PdfFile.RenderXrefEntry | src/pdf.rs:118-126 | models `render_xref_entry`: a 10-digit offset, a 5-digit generation and the use letter, each followed by a space, then a newline; its contract is `XrefEntryRoundTrip` and `FreeHeadRow` |
| PdfFile.XrefEntryRoundTrip | src/pdf.rs:118-126 | a row whose offset is below 10^10 and generation below 10^5 is exactly 20 ASCII characters, so 20 bytes once encoded, and reads back as the entry |
| PdfFile.FreeHeadRow | src/pdf.rs:171 | the head of the free list renders as `0000000000 65535 f \n` |
| PdfFile.RenderXref | src/pdf.rs:109-116 | models `render_xref`: the subsection header, then the rows joined; its contract is `XrefLayout`, `XrefHeadCount` and `XrefKeyword` |
| PdfFile.XrefLayout | src/pdf.rs:109-116 | with every field in range, the table text is its header then one 20-character row per entry, and row k reads back as entry k |
| PdfFile.XrefHeadCount | src/pdf.rs:110-112 | the subsection header is `xref\n0 ` and a count that reads back as the number of entries plus one |
| PdfFile.XrefKeyword | src/pdf.rs:110-111 | the table text opens with `xref` and a newline |
| PdfFile.RenderTrailer | src/pdf.rs:149-158 | models `render_trailer`: `trailer`, the `/Size` and `/Root` dictionary, `startxref`, the offset and `%%EOF`; its contract is `TrailerReadsBack` and `CountsAgree` |
| PdfFile.TrailerReadsBack | src/pdf.rs:149-158 | the trailer dictionary reads back as `/Size` then `/Root`, and the number after `startxref` reads back |
| PdfFile.RecordEnds | src/pdf.rs:163-168 | the offsets loop records, after each object, the header length plus the byte lengths so far |
| PdfFile.CollectXref | src/pdf.rs:170-176 | the table loop builds the free head row, then an in-use row for every recorded offset but the last |
| PdfFile.RenderPdf | src/pdf.rs:160-186 | the written bytes are the header, the objects, the table and the trailer of `Document` |
| PdfFile.Document | src/pdf.rs:160-186 | the bytes `render_pdf` writes, as a function of the file; its contract is `ObjectAt`, `StartXrefLocatesXref`, `XrefTableShape` and `CountsAgree` |
| PdfFile.RunningStartIsPrefix | src/pdf.rs:163-168 | the running total after k objects is the start plus the byte length of the first k objects joined |
| PdfFile.StartIsPrefix | src/pdf.rs:163-168 | object k begins after the header and the bytes of the objects before it |
| PdfFile.ObjectAt | src/pdf.rs:160-186 | the document bytes between object k's start and the next object's start are exactly object k's text |
| PdfFile.StartXrefLocatesXref | src/pdf.rs:179-185 | `startxref` is the offset in the document where the `xref` keyword begins |
| PdfFile.XrefTableShape | src/pdf.rs:170-176 | the table has one row per object: the free head, then in-use row k holding the start of the list's object k, always past the first object |
| PdfFile.XrefRowFindsNextObject | src/pdf.rs:172-175 | seeking to row k's offset finds the list's object k, the one after object k-1, so the rows are shifted by one against the object numbers |
| PdfFile.CountsAgree | src/pdf.rs:179-183 | the trailer's `/Size` and the table's declared count both read back as the number of objects plus one, and `/Root` as the catalog |
| Builder.Layout | src/pdf.rs:188-257 | the file `text_to_pdf` returns, as a function of the pages; its contract is `NumberedInOrder`, `RefsResolve`, `PageTree`, `PageContentLines` and `LayoutObjectsReadBack` |
| Builder.TextToPdf | src/pdf.rs:188-257 | the builder returns the layout: the three fixed objects, a page per group of lines, a content stream per group |
| Builder.NumberedInOrder | src/pdf.rs:246-256 | 3+2n objects numbered 1 .. 3+2n in list order, the first being the catalog the file names |
| Builder.RefsResolve | src/pdf.rs:192-244 | every reference in every object names one of the file's own objects |
| Builder.PageTree | src/pdf.rs:198-234 | for any number n of pages, including none: the tree is object 2 of type Pages with Count n and Kids the references to 4 .. 3+n in order; each page i is object 4+i of type Page, with Parent the tree, Resources object 3, MediaBox [0 0 595 842], and Contents the stream of the i-th group of lines |
| Builder.NoPages | src/pdf.rs:198-204 | with no pages the file holds only the three fixed objects, and the tree has Count 0 and an empty Kids array |
| Builder.ShowLinesReadBack | src/pdf.rs:239-241 | the shown lines read back as the lines, in order, with no text lost, split or reordered |
| Builder.PageContentLines | src/pdf.rs:237-243 | a content stream is the preamble, the page's lines, and `ET`, and those lines read back |
| Builder.LayoutWellFormed | src/pdf.rs:192-234 | every name and key the builder uses can be read back |
| Builder.LayoutObjectsReadBack | src/pdf.rs:188-257 | every object of the layout, once rendered, reads back as itself |
| Builder.LayoutXrefShift | src/pdf.rs:170-176 | once written, row k of the layout's table holds where object k+1 begins |

## Left out

- `src/main.rs`: the command line, reading the input file, printing, and grouping lines into pages of 45 are not part of this model. `Builder.TextToPdf` takes the pages as given.
- Integer widths: `i64`, `u32` and `usize` are unbounded integers here, so overflow of the offsets or of `as i64` casts is not modelled.
- `PdfFile.XrefEntryRoundTrip` and `PdfFile.XrefLayout`: the 20-character (and 20-byte) row shape is proved for offsets below 10^10 and generations below 10^5. Wider values only widen the field. For a negative value, Rust's `{:010}` counts the sign toward the width. `Numerals.ZeroPadded` writes that out, but no lemma is stated about it.
- `render_header`'s `from_utf8_unchecked` builds a `String` that is not valid UTF-8. The model writes the four marker bytes directly into the byte output.
- `PdfFile.RenderPdf` requires at least one object, because the source indexes `offsets[offsets.len()-1]` and fails on an empty list. The builder always produces at least three objects.
- `PdfReader.RenderRoundTrip`, `PdfReader.RoundTrip`, `PdfReader.RoundTripItems`, `PdfReader.RoundTripArray`, `PdfReader.RoundTripEntries`, `PdfReader.RoundTripDict` and `PdfFile.ObjReadsBack` hold for well-formed values only:
  - names must have code points below 256 and no delimiter;
  - dictionary keys must be regular characters other than `#`.
  The counterexample lemmas show why each condition is needed.
- The reader covers the text `Render` produces, not general PDF syntax: comments, hexadecimal strings, other white-space layouts and indirect objects beyond `ObjReadsBack` are left out.
- Whether viewers accept the output is not modelled. The table's rows are shifted (see above), and the model states that rather than a corrected table.
- The unused `HashMap` import and the `Debug`/`Clone` derives carry no behaviour.
