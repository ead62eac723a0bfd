/**
 * The merge of the validated PDFs into one document. The PDF library is
 * abstract here: loading a PDF's bytes gives its sequence of pages (of any
 * type `P`), and the merged document is a page sequence that grows one
 * `addPage` at a time, document by document, in the order given.
 */
module Merge {
  import opened PdfSignature
  import opened Attachments

  /** The pages of a sequence of documents, laid end to end in order. */
  function Flatten<P>(docs: seq<seq<P>>): seq<P> {
    if docs == [] then [] else Flatten(docs[..|docs| - 1]) + docs[|docs| - 1]
  }

  /** Laying out two runs of documents one after the other lays out their pages one after the other. */
  lemma {:induction false} FlattenConcat<P>(a: seq<seq<P>>, b: seq<seq<P>>)
    ensures Flatten(a + b) == Flatten(a) + Flatten(b)
    decreases |b|
  {
    if b == [] {
      assert a + b == a;
    } else {
      var c := b[..|b| - 1];
      assert (a + b)[..|a + b| - 1] == a + c;
      FlattenConcat(a, c);
    }
  }

  /**
   * Document `j`'s pages form one contiguous block, after the pages of every
   * earlier document and before those of every later one.
   */
  lemma FlattenBlock<P>(docs: seq<seq<P>>, j: nat)
    requires j < |docs|
    ensures Flatten(docs) == Flatten(docs[..j]) + docs[j] + Flatten(docs[j + 1..])
  {
    var before, after := docs[..j], docs[j + 1..];
    assert docs == (before + [docs[j]]) + after;
    FlattenConcat(before + [docs[j]], after);
    FlattenConcat(before, [docs[j]]);
    FlattenSingle(docs[j]);
  }

  lemma FlattenSingle<P>(doc: seq<P>)
    ensures Flatten([doc]) == doc
  {
  }

  /** Each validated PDF as the library loads it: its pages, in the item order. */
  function Loaded<P>(items: seq<PdfItem>, load: seq<byte> -> seq<P>): (docs: seq<seq<P>>)
    ensures |docs| == |items|
  {
    seq(|items|, i requires 0 <= i < |items| => load(items[i].content))
  }

  /** The merged document being built: created empty, it only ever gains pages at its end. */
  class Document<P> {
    var pages: seq<P>

    constructor Create()
      ensures pages == []
    {
      pages := [];
    }

    method AddPage(page: P)
      modifies this
      ensures pages == old(pages) + [page]
    {
      pages := pages + [page];
    }
  }

  /**
   * The merge loop: a fresh document, then for each item in order all of
   * its copied pages appended one by one.
   */
  method MergeDocuments<P>(items: seq<PdfItem>, load: seq<byte> -> seq<P>) returns (merged: Document<P>)
    ensures fresh(merged)
    ensures merged.pages == Flatten(Loaded(items, load))
  {
    merged := new Document<P>.Create();
    for n := 0 to |items|
      invariant merged.pages == Flatten(Loaded(items[..n], load))
    {
      var copiedPages := load(items[n].content);
      for j := 0 to |copiedPages|
        invariant merged.pages == Flatten(Loaded(items[..n], load)) + copiedPages[..j]
      {
        merged.AddPage(copiedPages[j]);
      }
      ghost var done := Loaded(items[..n + 1], load);
      assert done[..n] == Loaded(items[..n], load);
      assert done[n] == copiedPages;
    }
    assert items[..|items|] == items;
  }
}
