/**
 * The candidate filter: every entry listed under the archive's
 * `attachments` folder is read and sniffed, each one maps to a PDF item or
 * to `null`, and the nulls are dropped. What remains is exactly the PDF
 * entries, in listing order.
 */
module Attachments {
  import opened Wrappers
  import opened PdfSignature

  /** A listed archive entry: its name in the archive and its bytes. */
  datatype Entry = Entry(name: string, content: seq<byte>)

  /** The `{ file, content }` record kept for an entry that passed the sniff. */
  datatype PdfItem = PdfItem(file: Entry, content: seq<byte>)

  predicate IsPdfEntry(e: Entry) {
    HasSignature(e.content)
  }

  /** What the per-entry callback resolves to: the record, or `null`. */
  function Candidate(e: Entry): Option<PdfItem> {
    if IsPdfEntry(e) then Some(PdfItem(e, e.content)) else None
  }

  /** The per-entry callback: sniff the bytes, then wrap the entry or give `null`. */
  method CheckEntry(e: Entry) returns (r: Option<PdfItem>)
    ensures r.Some? <==> HasSignature(e.content)
    ensures r.Some? ==> r.value.file == e && r.value.content == e.content
  {
    var isPdf;
    ghost var compared;
    isPdf, compared := IsPdf(e.content);
    if isPdf {
      r := Some(PdfItem(e, e.content));
    } else {
      r := None;
    }
  }

  /** The callback mapped over the listing: one result per entry. */
  function Results(entries: seq<Entry>): seq<Option<PdfItem>> {
    seq(|entries|, i requires 0 <= i < |entries| => Candidate(entries[i]))
  }

  /** Array filtering with `item !== null`: the present values, in order. */
  function Compact(xs: seq<Option<PdfItem>>): (r: seq<PdfItem>)
    ensures |r| <= |xs|
    ensures forall y :: y in r <==> Some(y) in xs
  {
    if xs == [] then []
    else
      assert xs == [xs[0]] + xs[1..];
      (if xs[0].Some? then [xs[0].value] else []) + Compact(xs[1..])
  }

  /** The validated PDF list the rest of a run works on. */
  function PdfFiles(entries: seq<Entry>): seq<PdfItem> {
    Compact(Results(entries))
  }

  /**
   * The reference for the filter: the positions, from `lo` on, of the
   * listed entries whose bytes carry the PDF signature, in increasing order.
   */
  function PdfIndicesFrom(entries: seq<Entry>, lo: nat): seq<nat>
    requires lo <= |entries|
    decreases |entries| - lo
  {
    if lo == |entries| then []
    else (if IsPdfEntry(entries[lo]) then [lo] else []) + PdfIndicesFrom(entries, lo + 1)
  }

  function PdfIndices(entries: seq<Entry>): seq<nat> {
    PdfIndicesFrom(entries, 0)
  }

  /** Each position in the reference list is in range and a PDF; all PDFs from `lo` on are listed, in order. */
  lemma {:induction false} PdfIndicesFromSpec(entries: seq<Entry>, lo: nat)
    requires lo <= |entries|
    ensures forall k :: 0 <= k < |PdfIndicesFrom(entries, lo)| ==>
      lo <= PdfIndicesFrom(entries, lo)[k] < |entries| && IsPdfEntry(entries[PdfIndicesFrom(entries, lo)[k]])
    ensures forall k, m :: 0 <= k < m < |PdfIndicesFrom(entries, lo)| ==>
      PdfIndicesFrom(entries, lo)[k] < PdfIndicesFrom(entries, lo)[m]
    ensures forall i :: lo <= i < |entries| ==> (IsPdfEntry(entries[i]) <==> i in PdfIndicesFrom(entries, lo))
    decreases |entries| - lo
  {
    if lo < |entries| {
      PdfIndicesFromSpec(entries, lo + 1);
    }
  }

  /** The filtered suffix of the results holds, in order, the records of the reference positions. */
  lemma {:induction false} CompactResultsFrom(entries: seq<Entry>, lo: nat)
    requires lo <= |entries|
    ensures |Compact(Results(entries)[lo..])| == |PdfIndicesFrom(entries, lo)|
    ensures forall k :: 0 <= k < |PdfIndicesFrom(entries, lo)| ==>
      PdfIndicesFrom(entries, lo)[k] < |entries| &&
      Compact(Results(entries)[lo..])[k]
        == PdfItem(entries[PdfIndicesFrom(entries, lo)[k]], entries[PdfIndicesFrom(entries, lo)[k]].content)
    decreases |entries| - lo
  {
    PdfIndicesFromSpec(entries, lo);
    if lo < |entries| {
      CompactResultsFrom(entries, lo + 1);
      PdfIndicesFromSpec(entries, lo + 1);
      var rs := Results(entries)[lo..];
      assert rs[0] == Candidate(entries[lo]);
      assert rs[1..] == Results(entries)[lo + 1..];
    }
  }

  /**
   * The filtered list is exactly the subsequence of PDF entries: one record
   * per PDF entry, in listing order, each carrying its original entry and
   * its unchanged bytes, and no record for any other entry.
   */
  lemma FilterKeepsExactlyPdfs(entries: seq<Entry>)
    ensures |PdfIndices(entries)| == |PdfFiles(entries)|
    ensures forall k :: 0 <= k < |PdfIndices(entries)| ==>
      PdfIndices(entries)[k] < |entries| && IsPdfEntry(entries[PdfIndices(entries)[k]])
      && PdfFiles(entries)[k] == PdfItem(entries[PdfIndices(entries)[k]], entries[PdfIndices(entries)[k]].content)
    ensures forall k, m :: 0 <= k < m < |PdfIndices(entries)| ==> PdfIndices(entries)[k] < PdfIndices(entries)[m]
    ensures forall i :: 0 <= i < |entries| ==> (IsPdfEntry(entries[i]) <==> i in PdfIndices(entries))
  {
    PdfIndicesFromSpec(entries, 0);
    CompactResultsFrom(entries, 0);
    assert Results(entries)[0..] == Results(entries);
  }

  /** The filtered list is empty exactly when no listed entry is a PDF. */
  lemma NoPdfFilesIffNoPdfEntry(entries: seq<Entry>)
    ensures PdfFiles(entries) == [] <==> forall i :: 0 <= i < |entries| ==> !IsPdfEntry(entries[i])
  {
    FilterKeepsExactlyPdfs(entries);
    if PdfFiles(entries) != [] {
      assert IsPdfEntry(entries[PdfIndices(entries)[0]]);
    }
    if exists i :: 0 <= i < |entries| && IsPdfEntry(entries[i]) {
      var i :| 0 <= i < |entries| && IsPdfEntry(entries[i]);
      assert i in PdfIndices(entries);
    }
  }
}
