/**
 * The content sniff that decides whether an attachment is a PDF: its first
 * five bytes must be the ASCII text `%PDF-`. The stored name of the entry
 * plays no part in the decision.
 */
module PdfSignature {
  import opened Wrappers

  /** One unsigned byte, as held by an element of a `Uint8Array`. */
  newtype byte = b: int | 0 <= b < 256

  /** The magic bytes every PDF file starts with: `%`, `P`, `D`, `F`, `-`. */
  const Signature: seq<byte> := [0x25, 0x50, 0x44, 0x46, 0x2D]

  /**
   * Reading index `i` of a typed array: an index past the end yields
   * `undefined` (here `None`), which differs from every byte, instead of
   * failing.
   */
  function ByteAt(buffer: seq<byte>, i: nat): Option<byte> {
    if i < |buffer| then Some(buffer[i]) else None
  }

  /** The full prefix comparison: the buffer begins with the whole signature. */
  predicate HasSignature(buffer: seq<byte>) {
    |buffer| >= |Signature| && buffer[..|Signature|] == Signature
  }

  /**
   * The per-byte view of the same test, as the loop sees it: every position
   * of the signature reads back the expected byte.
   */
  predicate MatchesEveryPosition(buffer: seq<byte>) {
    forall i :: 0 <= i < |Signature| ==> ByteAt(buffer, i) == Some(Signature[i])
  }

  /** Both views agree, so a short buffer is simply "not a PDF". */
  lemma PositionwiseIsPrefix(buffer: seq<byte>)
    ensures MatchesEveryPosition(buffer) <==> HasSignature(buffer)
    ensures |buffer| < |Signature| ==> !MatchesEveryPosition(buffer)
  {
    if MatchesEveryPosition(buffer) {
      assert ByteAt(buffer, |Signature| - 1).Some?;
      assert buffer[..|Signature|] == Signature by {
        forall i | 0 <= i < |Signature| ensures buffer[i] == Signature[i] {
          assert ByteAt(buffer, i) == Some(Signature[i]);
        }
      }
    }
    if |buffer| < |Signature| {
      assert ByteAt(buffer, |buffer|) == None;
    }
  }

  /**
   * The signature loop: compares position by position and stops at the
   * first position that does not match. `compared` counts the positions
   * examined, the mismatching one included.
   */
  method IsPdf(buffer: seq<byte>) returns (isPdf: bool, ghost compared: nat)
    ensures isPdf == HasSignature(buffer)
    ensures |buffer| < |Signature| ==> !isPdf
    ensures 1 <= compared <= |Signature|
    ensures forall j :: 0 <= j < compared - 1 ==> ByteAt(buffer, j) == Some(Signature[j])
    ensures isPdf ==> compared == |Signature|
    ensures !isPdf ==> ByteAt(buffer, compared - 1) != Some(Signature[compared - 1])
  {
    isPdf := true;
    compared := 0;
    var i := 0;
    while i < |Signature|
      invariant 0 <= i <= |Signature|
      invariant compared == i && isPdf
      invariant forall j :: 0 <= j < i ==> ByteAt(buffer, j) == Some(Signature[j])
    {
      compared := compared + 1;
      if ByteAt(buffer, i) != Some(Signature[i]) {
        isPdf := false;
        break;
      }
      i := i + 1;
    }
    PositionwiseIsPrefix(buffer);
  }
}
