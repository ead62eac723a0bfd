/**
 * One conversion run over the listing of the archive's `attachments`
 * folder: the two failure guards, one download per validated PDF, and the
 * merged document when there are at least two of them.
 */
module Pipeline {
  import opened Wrappers
  import opened PdfSignature
  import opened Attachments
  import opened Merge

  /** A download offered for one validated PDF: the name it is saved under and its bytes. */
  datatype Download = Download(fileName: string, content: seq<byte>)

  /** The combined download: its name and the pages of the merged document. */
  datatype MergedDownload<P> = MergedDownload(fileName: string, pages: seq<P>)

  /** How a run ends: one of the three reported failures, or the downloads offered. */
  datatype Outcome<P> =
    | ArchiveCorrupt
    | NoFilesFound
    | NoPdfFilesFound
    | Offered(downloads: seq<Download>, merged: Option<MergedDownload<P>>)

  const PdfExtension: string := ".pdf"
  const MergedFileName: string := "merged.pdf"

  /** The download for one validated PDF: the entry's name with `.pdf` appended, and its bytes. */
  function DownloadFor(item: PdfItem): Download {
    Download(item.file.name + PdfExtension, item.content)
  }

  function Downloads(items: seq<PdfItem>): (r: seq<Download>)
    ensures |r| == |items|
  {
    seq(|items|, i requires 0 <= i < |items| => DownloadFor(items[i]))
  }

  /**
   * The outcome a run must reach. `listing` is `None` when the archive
   * cannot be opened at all, and otherwise the entries found under its
   * `attachments` folder, in the order the archive lists them.
   */
  function Expected<P>(listing: Option<seq<Entry>>, load: seq<byte> -> seq<P>): Outcome<P> {
    match listing
    case None => ArchiveCorrupt
    case Some(entries) =>
      if |entries| == 0 then NoFilesFound
      else
        var pdfFiles := PdfFiles(entries);
        if |pdfFiles| == 0 then NoPdfFilesFound
        else
          Offered(Downloads(pdfFiles),
                  if |pdfFiles| > 1 then Some(MergedDownload(MergedFileName, Flatten(Loaded(pdfFiles, load))))
                  else None)
  }

  /**
   * The run itself: sniff every listed entry, drop the non-PDFs, stop on
   * either failure guard, offer one download per PDF, and merge when there
   * is more than one.
   */
  method Run<P>(listing: Option<seq<Entry>>, load: seq<byte> -> seq<P>) returns (outcome: Outcome<P>)
    ensures outcome == Expected(listing, load)
  {
    if listing.None? {
      return ArchiveCorrupt;
    }
    var filesInAttachments := listing.value;
    if |filesInAttachments| == 0 {
      return NoFilesFound;
    }

    var results: seq<Option<PdfItem>> := [];
    for i := 0 to |filesInAttachments|
      invariant |results| == i
      invariant forall k :: 0 <= k < i ==> results[k] == Candidate(filesInAttachments[k])
    {
      var r := CheckEntry(filesInAttachments[i]);
      results := results + [r];
    }
    assert results == Results(filesInAttachments);

    var pdfFiles := Compact(results);
    if |pdfFiles| == 0 {
      return NoPdfFilesFound;
    }

    var downloads: seq<Download> := [];
    for i := 0 to |pdfFiles|
      invariant |downloads| == i
      invariant forall k :: 0 <= k < i ==> downloads[k] == DownloadFor(pdfFiles[k])
    {
      var fileName := pdfFiles[i].file.name + PdfExtension;
      downloads := downloads + [Download(fileName, pdfFiles[i].content)];
    }
    assert downloads == Downloads(pdfFiles);

    var merged: Option<MergedDownload<P>> := None;
    if |pdfFiles| > 1 {
      var mergedPdf := MergeDocuments(pdfFiles, load);
      merged := Some(MergedDownload(MergedFileName, mergedPdf.pages));
    }
    outcome := Offered(downloads, merged);
  }

  /**
   * The failures: an unreadable archive; an empty `attachments` folder; a
   * non-empty folder none of whose entries is a PDF. None of them offers
   * any download.
   */
  lemma FailureOutcomes<P>(listing: Option<seq<Entry>>, load: seq<byte> -> seq<P>)
    ensures Expected(listing, load).ArchiveCorrupt? <==> listing.None?
    ensures Expected(listing, load).NoFilesFound? <==> listing == Some([])
    ensures Expected(listing, load).NoPdfFilesFound? <==>
      listing.Some? && |listing.value| > 0 &&
      forall i :: 0 <= i < |listing.value| ==> !IsPdfEntry(listing.value[i])
    ensures !Expected(listing, load).Offered? <==>
      listing.None? || forall i :: 0 <= i < |listing.value| ==> !IsPdfEntry(listing.value[i])
  {
    if listing.Some? {
      NoPdfFilesIffNoPdfEntry(listing.value);
    }
  }

  /**
   * When some entry is a PDF: exactly one download per PDF entry, in
   * listing order, named after the entry with `.pdf` appended and holding
   * its bytes unchanged; and a merged document named `merged.pdf` exactly
   * when there are at least two PDFs.
   */
  lemma OfferedOutcome<P>(entries: seq<Entry>, load: seq<byte> -> seq<P>)
    requires exists i :: 0 <= i < |entries| && IsPdfEntry(entries[i])
    ensures Expected(Some(entries), load).Offered?
    ensures |Expected(Some(entries), load).downloads| == |PdfIndices(entries)|
    ensures forall k :: 0 <= k < |PdfIndices(entries)| ==>
      PdfIndices(entries)[k] < |entries| &&
      Expected(Some(entries), load).downloads[k]
        == Download(entries[PdfIndices(entries)[k]].name + ".pdf", entries[PdfIndices(entries)[k]].content)
    ensures Expected(Some(entries), load).merged.Some? <==> |PdfIndices(entries)| >= 2
    ensures Expected(Some(entries), load).merged.Some? ==>
      Expected(Some(entries), load).merged.value.fileName == "merged.pdf"
  {
    NoPdfFilesIffNoPdfEntry(entries);
    FilterKeepsExactlyPdfs(entries);
  }

  /**
   * The merged document holds the pages of the `k`-th PDF entry (in listing
   * order) as one block, after the pages of every earlier PDF entry and
   * before the pages of every later one.
   */
  lemma MergedPagesInOrder<P>(entries: seq<Entry>, load: seq<byte> -> seq<P>, k: nat)
    requires 2 <= |PdfIndices(entries)|
    requires k < |PdfIndices(entries)|
    ensures PdfIndices(entries)[k] < |entries| && |PdfFiles(entries)| == |PdfIndices(entries)|
    ensures Expected(Some(entries), load).Offered? && Expected(Some(entries), load).merged.Some?
    ensures var docs := Loaded(PdfFiles(entries), load);
      Expected(Some(entries), load).merged.value.pages
        == Flatten(docs[..k]) + load(entries[PdfIndices(entries)[k]].content) + Flatten(docs[k + 1..])
  {
    FilterKeepsExactlyPdfs(entries);
    var docs := Loaded(PdfFiles(entries), load);
    FlattenBlock(docs, k);
  }

  /**
   * A worked listing: an image, then two PDFs. The image is skipped, the two
   * PDFs are offered in listing order, and the merged document holds the
   * first PDF's pages before the second's.
   */
  lemma ImageThenTwoPdfs<P>(load: seq<byte> -> seq<P>)
    ensures var image := Entry("attachments/img1", [0x89, 0x50, 0x4E, 0x47, 0x0D, 0x0A, 0x1A, 0x0A]);
      var doc1 := Entry("attachments/doc1", Signature + [0x31]);
      var doc2 := Entry("attachments/doc2", Signature + [0x32]);
      Expected(Some([image, doc1, doc2]), load)
        == Offered([Download("attachments/doc1.pdf", doc1.content), Download("attachments/doc2.pdf", doc2.content)],
                   Some(MergedDownload("merged.pdf", load(doc1.content) + load(doc2.content))))
  {
    var image := Entry("attachments/img1", [0x89, 0x50, 0x4E, 0x47, 0x0D, 0x0A, 0x1A, 0x0A]);
    var doc1 := Entry("attachments/doc1", Signature + [0x31]);
    var doc2 := Entry("attachments/doc2", Signature + [0x32]);
    var entries := [image, doc1, doc2];
    assert !IsPdfEntry(image) by {
      assert image.content[..|Signature|][0] != Signature[0];
    }
    assert (Signature + [0x31])[..|Signature|] == Signature;
    assert (Signature + [0x32])[..|Signature|] == Signature;
    var pdfItems := [PdfItem(doc1, doc1.content), PdfItem(doc2, doc2.content)];
    assert Results(entries) == [None, Some(pdfItems[0]), Some(pdfItems[1])];
    assert Compact(Results(entries)) == pdfItems by {
      var rs := Results(entries);
      assert rs[1..] == [Some(pdfItems[0]), Some(pdfItems[1])];
      assert rs[1..][1..] == [Some(pdfItems[1])];
      assert rs[1..][1..][1..] == [];
    }
    var docs := Loaded(pdfItems, load);
    assert docs == [load(doc1.content), load(doc2.content)];
    assert docs[..1] == [load(doc1.content)];
    FlattenSingle(load(doc1.content));
    assert Flatten(docs) == load(doc1.content) + load(doc2.content);
    assert doc1.name + PdfExtension == "attachments/doc1.pdf";
    assert doc2.name + PdfExtension == "attachments/doc2.pdf";
    assert Downloads(pdfItems) == [Download("attachments/doc1.pdf", doc1.content), Download("attachments/doc2.pdf", doc2.content)];
  }

  /** A single PDF is offered on its own, with no merged document. */
  lemma SinglePdfNotMerged<P>(load: seq<byte> -> seq<P>, doc: Entry)
    requires IsPdfEntry(doc)
    ensures Expected(Some([doc]), load) == Offered([Download(doc.name + ".pdf", doc.content)], None)
  {
  }
}
