# EPUB to plain text: chapter extraction and book concatenation

This project models the core of an EPUB-to-text converter (`app.py`). The
converter reads an EPUB book, keeps the items typed as documents (the
chapters) in item order, turns each chapter's markup into plain text, and
joins the chapter texts into one text per book.

Three modules: one per function of the core, plus shared string facts.

- `ChapterText` (`chapter_text.dfy`) models `chapter_to_text`. A parsed chapter
  is the sequence of its text nodes in document order. Each node is a
  `TextNode(parentName, text)`: the tag name of its immediate parent and its
  text, as the markup parser's "all text nodes" query yields them. The loop
  keeps two variables, `output` and `prev`. A node whose parent tag is in the
  fixed blocklist (`[document]`, `noscript`, `header`, `html`, `meta`, `head`,
  `input`, `script`) is skipped entirely. Any other node becomes the new
  `prev`. If its text is not whitespace-only, it is also appended to `output`.
  Before it, `"\n\n"` is appended unless `prev` ends with an ASCII space or
  the node's text starts with one. `ChapterToText` is that loop. `Run`/`Step`
  give the loop state as a function of the nodes visited. `Pieces` is an
  independent, index-based description of the output: node `j` contributes
  its break (if any) and its text verbatim when it is kept, and nothing
  otherwise. The break is decided by `PrevBefore(nodes, j)`, the text of the
  last non-blocklisted node before it. `RunPrefix` proves the two agree. The
  other lemmas state the filtering, separator, ordering, length and
  empty-result properties.
- `EpubConvert` (`epub_convert.dfy`) models `convert_epub_to_text`. A book is a
  sequence of `Item(isDocument, content)`. `ConvertEpubToText` has the source's
  two loops: one collects document contents, one concatenates each chapter's
  text followed by `"\n"`. It also chooses the book name: the file name's stem
  when the upload has a name, `"converted_book"` otherwise.
- `StringParts` (`string_parts.dfy`) holds generic facts about joining a
  sequence of strings, which the two modules above use in their proofs.

Python's `str.isspace` is modelled as "non-empty and every character is in
an explicit whitespace set". That set is the characters Python treats as
whitespace. So an empty, non-blocklisted text node counts as kept: it may
receive a break and adds no text.

Consequences of the code that a reader might not expect:

- The break test looks only at the ASCII space (`app.py:23`). After a
  previous text ending in a newline or a tab, the next kept text still gets
  a break unless it starts with a space.
- Heading text is kept, because only the blocklist filters.
- A first text preceded only by blocklisted nodes gets a leading break,
  because `prev` starts empty, unless the text starts with a space
  (`ChapterText.FirstKeptNode`). A non-blocklisted whitespace-only node
  ending in a space suppresses that break
  (`ChapterText.TrailingSpaceSuppressesBreak`). For a heading, a
  paragraph, a script and a paragraph, `ChapterText.HeadingScenario` proves
  the result `"\n\nIntro\n\nHello\n\nWorld"`.

## Model

| member | source | states |
|---|---|---|
| `ChapterText.ChapterToText` | app.py:13-27 | The loop's result is `ChapterOutput(nodes)`, the output of the extraction fold whose properties the lemmas below establish |
| `ChapterText.RunPrefix` | app.py:15-26 | After any prefix of the nodes, `output` is the in-order concatenation of that prefix's pieces, and `prev` is the text of the last non-blocklisted node, or `""` if there is none |
| `ChapterText.RunPrev` | app.py:18-26 | After any prefix of the nodes, `prev` is the text of the last non-blocklisted node of that prefix, whitespace-only nodes included, or `""` if there is none |
| `ChapterText.OutputIsPieces` | app.py:19-26 | The whole output is exactly the concatenation of every node's piece, with no other characters: nothing for dropped nodes, an optional break plus the verbatim text for kept nodes |
| `ChapterText.RunAppend` | app.py:19-26 | Visiting `a + b` gives the same state as visiting `a`, then visiting `b` from there |
| `ChapterText.BlockedNodeInert` | app.py:20-26 | A node with a blocklisted parent, at any position, changes neither `output` nor `prev`: removing it leaves the final state unchanged |
| `ChapterText.WhitespaceNodeMovesPrev` | app.py:20-26 | A non-blocklisted whitespace-only node adds nothing to `output` but becomes the new `prev`; the rest of the run continues from that state |
| `ChapterText.TrailingSpaceSuppressesBreak` | app.py:21-26 | A non-blocklisted whitespace-only node ending in a space, followed by a kept node, makes that node's text follow directly, with no break |
| `ChapterText.BreakRule` | app.py:23-25 | Appending a kept node appends its text. A `"\n\n"` goes before it exactly when the last non-blocklisted text does not end with a space and the node's text does not start with one; no other separator is written |
| `ChapterText.KeptTextVerbatim` | app.py:19-25 | Every kept node's text occurs verbatim in the output at its offset, right after its break if it has one |
| `ChapterText.KeptTextsInOrder` | app.py:19-25 | Kept texts occur in node order and do not overlap: an earlier kept node's text ends at or before a later node's text begins |
| `ChapterText.PiecesLength` | app.py:19-25 | The pieces of the first `k` nodes have total length (kept text lengths) + 2 × (breaks written) |
| `ChapterText.OutputLength` | app.py:19-25 | The output length is the sum of the kept nodes' text lengths plus two per break inserted |
| `ChapterText.OutputEmptyIff` | app.py:15-26 | The output is empty if and only if every kept node has empty text and gets no break |
| `ChapterText.NothingKeptEmpty` | app.py:15-21 | A chapter with no node that is both non-blocklisted and not whitespace-only yields the empty string |
| `ChapterText.PrevBeforeAllBlocked` | app.py:18-20 | If every node before index `j` is blocklisted, `prev` still holds its initial `""` there |
| `ChapterText.FirstKeptNode` | app.py:18-24 | Because `prev` starts as `""`, a first kept node preceded only by blocklisted nodes gets a leading `"\n\n"`, unless its text starts with a space; the output begins with that break and the text |
| `ChapterText.ThreeRunsWithBlockedNode` | app.py:19-26 | Three kept texts that do not touch spaces, with a blocklisted node between the second and third, yield break + text for each of the three and nothing for the blocklisted node |
| `ChapterText.HeadingScenario` | app.py:11-27 | The chapter `<h1>Intro</h1><p>Hello</p><script>ignored</script><p>World</p>` yields `"\n\nIntro\n\nHello\n\nWorld"` |
| `EpubConvert.ConvertEpubToText` | app.py:29-48 | The book name is the name's stem when the upload has a name and `"converted_book"` otherwise; the text is `BookText(Documents(items))` |
| `EpubConvert.DocumentsAppend` | app.py:40-44 | Selecting document items is order-preserving and distributes over concatenation of item lists |
| `EpubConvert.BookTextAppend` | app.py:45-47 | The book text of `a + b` is the book text of `a` followed by that of `b` |
| `EpubConvert.NonDocumentIgnored` | app.py:42-47 | A non-document item, at any position, contributes nothing to the text |
| `EpubConvert.DocumentContributes` | app.py:42-47 | A document item contributes its chapter text and exactly one `"\n"`, between the contributions of the items before and after it |
| `EpubConvert.NoDocumentsEmpty` | app.py:40-47 | A book with no document item has no chapters and converts to the empty string |
| `EpubConvert.DocumentsCounted` | app.py:40-44 | The number of collected chapters equals the number of items typed as documents |
| `EpubConvert.BookTextLength` | app.py:45-47 | The text length is the sum of the chapter texts' lengths plus one newline per chapter |
| `EpubConvert.EndsWithNewlineIffDocument` | app.py:40-47 | The text ends with `"\n"` if and only if the book has at least one document item |

## Left out

- HTML parsing (`app.py:16-17`) is a call into an external markup library. The chapter arrives already parsed, as its text-node sequence. Which nodes that query returns is the library's business.
- EPUB container reading (`app.py:34`, `app.py:42-44`) is an external library. A book is its item sequence with a document flag. Item contents arrive already parsed rather than as bytes. A container that cannot be read (the library raises) is not modelled.
- `Path(name).stem` (`app.py:37`) is a path-library call. It is the parameter `stem` of `EpubConvert.ConvertEpubToText`. Whether the upload has a `name` attribute is an `Option`.
- `main` (`app.py:50-71`) is not modelled: the web UI, file upload, in-memory zip writing and download button are I/O. It does not de-duplicate entry names.
- `static/service-worker.js` is not modelled: browser cache and fetch handlers, asynchronous I/O with no logic to verify.
- Python's Unicode whitespace table is a fixed character set in `ChapterText.IsWhitespaceChar`, not derived from Unicode data.
