# GoodNotes PDF attachment extractor: a Dafny model

`app.js` is the browser page that takes a GoodNotes export, which is a zip
archive, and finds the PDF attachments under its `attachments` folder. It
does not trust file names. It sniffs each entry's first five bytes for the
signature `%PDF-`. It then offers one download per PDF, named after the entry
with `.pdf` appended. When there are two or more PDFs it also offers a
`merged.pdf` that holds the pages of every PDF, document by document, in
listing order.

This project models the decision logic inside that page:

- `signature.dfy` (module `PdfSignature`): the byte-by-byte signature loop,
  including its early `break`. It is proved equal to the plain prefix test.
  Reading past the end of a short buffer gives JavaScript's `undefined`
  (`ByteAt` returns `None`), so a short buffer is "not a PDF" rather than
  an error.
- `attachments.dfy` (module `Attachments`): the per-entry callback, which
  gives `{file, content}` or `null`, and the filter that drops the nulls. The
  filter is proved to keep exactly the PDF entries, in listing order, each
  with its own entry and unchanged bytes. The reference is the increasing
  list of positions of the PDF entries (`PdfIndices`).
- `merge.dfy` (module `Merge`): a merged document as a class whose page
  sequence grows by `AddPage`, and the merge loop over the PDFs. The loop is
  proved to produce the concatenation (`Flatten`) of the documents' pages in
  order. `FlattenBlock` shows that each document's pages stay together as one
  block.
- `pipeline.dfy` (module `Pipeline`): one run, from the listing to its
  `Outcome`. The outcome is one of three failures or the offered downloads
  plus an optional merged document. `Run` is the imperative run. It is proved
  equal to the specification function `Expected`, and lemmas about `Expected`
  state the guards, the naming and the merge order.
- `wrappers.dfy` (module `Wrappers`): `Option`.

Environment choices:

- The listing under `attachments` is an input, `Option<seq<Entry>>`. `None`
  stands for the zip library rejecting the archive. An entry's `name` is the
  library's `file.name`, which is the entry's full path inside the archive
  (for example `attachments/doc1`). The download name is that full name with
  `.pdf` appended, exactly as the code builds it. It is not a bare base name.
- The PDF library's page loading is a function parameter
  `load: seq<byte> -> seq<P>`, and a page is the type parameter `P`.

## Model

| member | source | states |
|---|---|---|
| `PdfSignature.IsPdf` | app.js:29-38 | the loop's verdict equals "the first five bytes are `%PDF-`"; a buffer shorter than five bytes is not a PDF; the loop stops at the first mismatching position; every earlier position matched; a positive verdict compared all five |
| `PdfSignature.PositionwiseIsPrefix` | app.js:30-38 | "every signature position reads back the expected byte, with a missing byte reading as `undefined`" holds iff the buffer has at least five bytes and they are the signature; it never holds of a shorter buffer |
| `Attachments.CheckEntry` | app.js:26-45 | the callback gives a record exactly when the entry's bytes carry the signature, and the record holds that entry and its unchanged bytes |
| `Attachments.Compact` | app.js:51-53 | removing the nulls yields no more items than results, and a record is kept iff it was present among the results |
| `Attachments.FilterKeepsExactlyPdfs` | app.js:26-53 | item `k` of the filtered list is the record of the `k`-th PDF entry; the positions increase, so listing order is kept; an entry's position is among them iff it is a PDF |
| `Attachments.NoPdfFilesIffNoPdfEntry` | app.js:51-58 | the filtered list is empty iff no listed entry is a PDF |
| `Merge.FlattenConcat` | app.js:83-88 | appending the pages of two runs of documents gives the pages of the first run followed by those of the second |
| `Merge.FlattenBlock` | app.js:83-88 | in the merged pages, document `j`'s pages are one block after all earlier documents' pages and before all later ones |
| `Merge.FlattenSingle` | app.js:86-87 | merging a single document yields exactly its pages |
| `Merge.Loaded` | app.js:84-86 | one loaded document per validated PDF |
| `Merge.Document.Create` | app.js:81 | a newly created document has no pages |
| `Merge.Document.AddPage` | app.js:87 | adding a page appends it at the end and changes nothing else |
| `Merge.MergeDocuments` | app.js:79-88 | the document is fresh, and its pages are the concatenation of every PDF's copied pages, in the order of the PDFs |
| `Pipeline.Run` | app.js:13-101 | the run's outcome is `Expected` for the listing: the guards, the downloads and the merge as stated by the lemmas below |
| `Pipeline.FailureOutcomes` | app.js:13-58 | the outcome is "corrupt archive" iff the archive cannot be opened; "no files" iff the folder lists no entry; "no PDF" iff entries exist and none is a PDF; no download at all is offered iff the archive is unreadable or no entry is a PDF |
| `Pipeline.OfferedOutcome` | app.js:64-97 | given some PDF entry: downloads are offered, one per PDF entry, in listing order, named `<entry name>.pdf`, with the entry's bytes; a merged download exists iff there are at least two PDFs, and it is named `merged.pdf` |
| `Pipeline.MergedPagesInOrder` | app.js:79-90 | the merged document holds the `k`-th PDF entry's pages as one block between the pages of the earlier and of the later PDFs |
| `Pipeline.ImageThenTwoPdfs` | app.js:26-97 | an image followed by two PDFs gives `attachments/doc1.pdf` and `attachments/doc2.pdf` in that order, and a `merged.pdf` with doc1's pages before doc2's |
| `Pipeline.SinglePdfNotMerged` | app.js:64-79 | a single PDF entry gives exactly one download and no merged document |

## Left out

- Reading the chosen file with `FileReader` and its error alert (app.js:3-11, 109-114) are browser I/O. The model starts from the archive's listing.
- Opening the zip and walking the `attachments` folder with JSZip (app.js:7, 13-18) is a foreign library. The listing is an input. A rejected archive is the `None` listing, which maps to `ArchiveCorrupt` (app.js:103-106). The folder's enumeration order is taken as given.
- A failure to read an entry's bytes is not modelled. If any entry's `file.async('arraybuffer')` rejects (app.js:27), `Promise.all` rejects (app.js:49). Its `.then` has no rejection handler, so the run ends silently, with no alert, no downloads and no outcome. The model assumes every listed entry can be read. `Pipeline.FailureOutcomes` ("no download iff the archive is unreadable or no entry is a PDF") holds under that assumption.
- The page's leftover state is not modelled. `outputDiv.innerHTML = ''` (app.js:62) runs only after both guards pass. A run that ends in a failure therefore leaves an earlier run's download links on the page. `Outcome` describes what one run itself offers, not the links still shown.
- Promises, `async`/`await` and `Promise.all` (app.js:26-49) are left out. Once every entry's bytes are read, the run is sequential, and `Promise.all` keeps the results in listing order, which the model keeps.
- The DOM links, `Blob`s, object URLs and `alert` messages (app.js:21, 56, 61-75, 91-100) are presentation. They appear as the `Outcome` datatype: a failure kind, or the list of downloads and the optional merged download.
- pdf-lib's `PDFDocument.load`, `copyPages` and `save` (app.js:81-90) are foreign calls. A document is its page sequence (the `load` parameter), and copying all of a document's pages gives them in order. Failures to load or save a PDF are not modelled. In the code such a failure is an unhandled rejection that leaves the individual downloads in place and offers no merged link.
- `MergedDownload.pages` holds the merged page sequence, not the bytes from `save`, because serialisation is the library's.
- The GoodNotes index record `index.attachments.pb` and any reordering of attachments by it are not part of this model. `app.js` never reads that record. Its order is the listing order.
