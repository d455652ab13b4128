# Document question answering: context assembly, extraction and history

This project models the logic of a small document-question-answering front
end (`app.py`). A user uploads plain-text, PDF or DOCX files and asks a
question. Each file's text is extracted by its declared MIME type. The texts
are truncated to a shared budget of 4000 and joined with newlines. One prompt
goes to a remote completion service. The stripped answer is appended, with
its question, to the session's conversation history.

Modules, one per component:

- `Wrappers` (`wrappers.dfy`): `Option` for Python's `None`, `Result` for a
  value or a raised exception.
- `Utf8` (`utf8.dfy`): UTF-8 as in RFC 3629, section 3. It provides the byte
  width of a code point and `Utf8Len`, which is `len(s.encode('utf-8'))`. It
  also has an encoder and a strict decoder, `str(bytes, 'utf-8')`, with both
  round trips proved.
- `Strings` (`strings.dfy`): the Python builtins the code uses, namely the
  slice `s[:n]`, `sep.join(ps)` and `s.strip()` with Python's whitespace set.
- `Truncation` (`truncation.dfy`): `truncate_documents`. `Pieces` is a
  recursive specification of the kept prefixes. `IsTruncation` is a
  non-recursive description, proved to single out exactly those pieces.
  `TruncateDocuments` is the loop, proved against `Pieces`.
- `Extraction` (`extraction.dfy`): `extract_text`, with the PDF page loop as
  a method. The PDF and DOCX libraries are parameters.
- `Session` (`session.dfy`): the submit gate, the prompt, the answer taken
  from the first generation, and the append-only `ConversationLog`.

Strings are Dafny strings, which are sequences of Unicode scalar values, as
Python `str` values are when they hold no lone surrogates. Bytes are the
`Utf8.uint8` newtype.

Budget units follow the code. The slice `text[:remaining_length]` counts
characters. The budget is then charged the UTF-8 byte length of the slice.
Because a character costs at least one byte, the kept characters never
exceed the budget (`KeptCharactersWithinBudget`). This guarantee does not
hold for the output as a whole, for two reasons:

- The newline separators are not charged. `["ab", "cd"]` with budget 4 gives
  `"ab\ncd"`, which has 5 characters (`ExampleSeparatorUncharged`).
  `JoinedLength` gives the exact length.
- Multi-byte characters can take the kept bytes past the budget. Two euro
  signs fit a budget of 2 characters but cost 6 bytes
  (`ExampleMultiByte`).

Three behaviours of the code are worth knowing:

- `str(bytes, 'utf-8')` on the plain-text branch is not inside a `try`.
  Undecodable plain text raises out of `extract_text` and aborts the
  submission with no history entry (`ExtractionRaised`).
- A PDF page that raises part way through the page loop leaves the text of
  the earlier pages in `text`, and that text is returned
  (`PdfFirstFailure`).
- An empty `generations` list makes `response.generations[0]` raise inside
  the `try`. This is reported like any other generation failure.

## Model

| member | source | states |
|---|---|---|
| `Utf8.Utf8Len` | app.py:75 | definition: `len(s.encode('utf-8'))`, the sum of the code points' byte widths; the budget is charged this |
| `Utf8.Width` | app.py:75 | UTF-8 spends one to four bytes on a code point |
| `Utf8.Utf8LenBounds` | app.py:75 | the UTF-8 length of a text lies between its character count and four times that count |
| `Utf8.EncodeChar` | app.py:75 | a code point encodes to `Width` bytes: a valid lead byte followed by continuation bytes |
| `Utf8.Encode` | app.py:75 | definition: `s.encode('utf-8')`, each code point's bytes in order |
| `Utf8.EncodeLength` | app.py:75 | `len(s.encode('utf-8'))` equals `Utf8Len(s)`, the charge used by the truncation specification |
| `Utf8.Decode` | app.py:49 | definition: strict `str(bytes, 'utf-8')`, `None` for overlong forms, surrogates, code points above U+10FFFF and truncated or stray bytes |
| `Utf8.DecodeFirst` | app.py:49 | a successful decoding step consumes between 1 and the available number of bytes |
| `Utf8.DecodeFirstOfEncodeChar` | app.py:49 | the decoder reads back the code point at the front of its own encoding, using exactly its width |
| `Utf8.DecodeEncode` | app.py:49 | decoding the UTF-8 encoding of any text gives that text back |
| `Utf8.EncodeCharOfDecodeFirst` | app.py:49 | a decoded code point re-encodes to exactly the bytes it was read from |
| `Utf8.EncodeDecode` | app.py:49 | bytes that decode without error are exactly the encoding of the decoded text, so no two byte strings decode alike |
| `Strings.Prefix` | app.py:73 | `text[:n]` is a prefix of `text` of at most `n` characters, and is all of `text` when it is shorter than `n` |
| `Strings.Join` | app.py:76 | definition: `sep.join(ps)`, the pieces in order with `sep` between each two neighbours (also the DOCX paragraphs at app.py:62) |
| `Strings.JoinLength` | app.py:76 | `sep.join(ps)` holds every piece plus one separator between each two neighbours |
| `Strings.Trim` | app.py:92 | definition: the text between the leading and the trailing run of characters in a given class |
| `Strings.IsSpace` | app.py:92 | definition: the characters Python's `str.isspace` accepts, which `strip()` removes |
| `Strings.Strip` | app.py:92 | definition: `s.strip()`, trimming Python's whitespace |
| `Strings.LeadingSpaces` | app.py:92 | counts the leading whitespace run: every character before the count is whitespace and the one at the count is not |
| `Strings.ContentEnd` | app.py:92 | finds where the trailing whitespace run begins: every character from there on is whitespace and the one before it is not |
| `Strings.TrimIsSlice` | app.py:92 | `s.strip()` is the text between the two whitespace runs, beginning and ending with non-whitespace, and it is empty exactly when `s` is all whitespace |
| `Strings.TrimIdempotent` | app.py:92 | trimming an already trimmed text changes nothing |
| `Strings.StripIsStripped` | app.py:92 | with Python's whitespace set, a stripped answer neither begins nor ends with whitespace, and stripping it again changes nothing |
| `Truncation.Pieces` | app.py:67-75 | there are never more kept pieces than texts, and a budget at or below zero keeps nothing |
| `Truncation.IsTruncation` | app.py:68-75 | definition: a non-recursive description of the kept pieces in terms of the bytes charged for the pieces before each one |
| `Truncation.PiecesIsTruncation` | app.py:68-75 | the kept pieces meet the direct description: piece k is taken only while the budget left after pieces 0..k-1 is positive, and it is the prefix of text k of that length; the loop stops early only once the budget is spent |
| `Truncation.TruncationIsPieces` | app.py:68-75 | any list of pieces meeting that description is the one the loop keeps |
| `Truncation.TruncationUnique` | app.py:68-75 | the description and the loop's pieces agree in both directions |
| `Truncation.PiecesArePrefixes` | app.py:70-74 | the k-th kept piece is a prefix of the k-th text, so pieces stay in input order |
| `Truncation.OnlyLastTruncated` | app.py:71-75 | every kept piece except the last is its whole text |
| `Truncation.KeptCharactersWithinBudget` | app.py:73-75 | the kept pieces hold at most `max_total_length` characters in total |
| `Truncation.DroppedOnceSpent` | app.py:71-75 | once the bytes charged for the first k+1 pieces reach the budget, every later text is dropped |
| `Truncation.JoinedLength` | app.py:76 | the output is the kept characters plus one uncharged newline per separator, so it is at most `max_total_length + len(doc_texts) - 1` characters |
| `Truncation.TruncateDocuments` | app.py:67-76 | the loop with its early `break` returns exactly the kept pieces joined by single newlines |
| `Truncation.NoTextsGiveEmpty` | app.py:68-76 | no texts give the empty string |
| `Truncation.NoBudgetGivesEmpty` | app.py:69-72 | a budget at or below zero gives the empty string |
| `Truncation.ExampleHelloWorld` | app.py:67-76 | `["Hello", "World"]` with budget 3 gives `"Hel"` |
| `Truncation.ExampleBothKept` | app.py:67-76 | `["ab", "cd"]` with budget 10 gives `"ab\ncd"` |
| `Truncation.ExampleSeparatorUncharged` | app.py:67-76 | `["ab", "cd"]` with budget 4 gives `"ab\ncd"`, one character over the budget |
| `Truncation.ExampleMultiByte` | app.py:67-76 | two euro signs fill a budget of 2 and cost 6 bytes, so the next text is dropped |
| `Extraction.PdfPagesText` | app.py:51-58 | definition: the text and report the page loop leaves, stopping at the first page that raises |
| `Extraction.PdfAllPagesOk` | app.py:54-56 | when no page fails, the PDF text is every page's text concatenated in page order, with nothing reported |
| `Extraction.PdfFirstFailure` | app.py:51-58 | when a page raises, the text of the earlier pages is kept and that page's error is the one reported |
| `Extraction.PdfReportedIffPageFails` | app.py:51-58 | an error is reported exactly when some page raises |
| `Extraction.AccumulatePdfText` | app.py:54-56 | the page loop computes the text and report that `PdfPagesText` describes |
| `Extraction.ExtractText` | app.py:45-65 | definition: the MIME dispatch of `extract_text`, `Err` being the exception undecodable plain text raises |
| `Extraction.ExtractTextOf` | app.py:45-65 | the MIME dispatch, running the page loop, returns what `ExtractText` describes |
| `Extraction.EmptyForMissingOrUnknown` | app.py:45-65 | no file, or a type other than the three handled ones, gives `""` with nothing reported |
| `Extraction.RaisesOnlyOnUndecodablePlainText` | app.py:48-64 | extraction raises exactly for plain text that is not valid UTF-8; PDF and DOCX failures are caught |
| `Extraction.PlainTextRoundTrip` | app.py:48-49 | a plain-text upload holding the UTF-8 encoding of a text yields exactly that text |
| `Extraction.PdfOutcome` | app.py:50-58 | a PDF that fails to open gives `""` and one report; one that opens gives what the page loop leaves |
| `Extraction.PdfKeepsPagesBeforeFailure` | app.py:50-58 | when page f of an opened PDF is the first to raise, the text is pages 0..f-1 concatenated and page f's error is reported |
| `Extraction.DocxOutcome` | app.py:59-64 | a DOCX that parses gives its paragraphs joined by newlines; one that raises gives `""` and one report |
| `Session.ExtractAll` | app.py:81 | when no file raises, there is one extracted text per uploaded file |
| `Session.ExtractAllContents` | app.py:81 | the list is produced exactly when no file's extraction raises, and then its k-th text is file k's extracted text |
| `Session.ExtractAllFirstRaise` | app.py:81 | when file f is the first whose extraction raises, the whole list raises that exception |
| `Session.ExtractAllOf` | app.py:81 | extracting file after file gives the texts in upload order, or the first exception raised |
| `Session.Prompt` | app.py:87 | definition: the prompt `Documents: …\nQuestion: …\nAnswer:` |
| `Session.Request` | app.py:85-91 | definition: the `co.generate` arguments, model `command` and stop sequence `"\n"` |
| `Session.AnswerOf` | app.py:92 | definition: the first generation's text stripped, and the `IndexError` when there is none |
| `Session.SubmitOutcomeOf` | app.py:78-100 | definition: how one run of the submit block ends, including the missing-input message of app.py:100 |
| `Session.Recorded` | app.py:95 | a submission never removes or changes earlier history entries |
| `Session.AnsweredExactlyWhen` | app.py:78-98 | a submission is answered exactly when the button was pressed, files and a question are present, no extraction raised, and the service returned a generation; the answer is the first generation, stripped |
| `Session.AnswerIsStripped` | app.py:92 | an answer neither begins nor ends with whitespace |
| `Session.HistoryIsAppendOnly` | app.py:95 | over any run of submissions, the history keeps its earlier entries and gains one entry per answered submission, in submission order |
| `Session.ConversationLog.constructor` | app.py:42-43 | a new session starts with an empty history |
| `Session.ConversationLog.Append` | app.py:95 | appending adds exactly one entry at the end |
| `Session.Submit` | app.py:78-100 | one run of the submit block returns the outcome `SubmitOutcomeOf` describes, and the history gains exactly one `(question, answer)` entry when it is answered and is unchanged otherwise |

## Left out

- The Streamlit widgets, sidebar, spinner and history rendering (app.py:24-39, 103-106). These are presentation only. The `submit_button`, `uploaded_files`, `question`, `max_tokens` and `temperature` values are parameters of `Session.Submit`.
- Loading the CSS file (app.py:9-15). This is file I/O.
- Reading `CO_KEY` and building the Cohere client (app.py:18-22). This is process environment and a foreign library.
- The `co.generate` network call (app.py:85-91). It is a function parameter that returns the generations' texts or the exception's message.
- The `fitz` and `docx` libraries (app.py:52-56, 61-62). They are the function parameters of `Extraction.Parsers`. The messages of their exceptions are whatever those functions return.
- Temperature is passed through as a `real`. Floating-point rounding is not modelled.
- Lone surrogates in a Python `str` cannot be represented, because Dafny's `char` is a Unicode scalar value. On such text, `.encode('utf-8')` in `truncate_documents` would raise, and this is not modelled.
- `st.error` messages from PDF and DOCX failures appear in `Extraction.Extracted.reported` for each file. `Session.SubmitOutcome` does not collect them.
- The message of a `UnicodeDecodeError` is the fixed text `"UnicodeDecodeError"`, without Python's byte position and reason.
- `uploaded_files` being `None` and it being an empty list are both falsy. Both are an empty sequence here.
