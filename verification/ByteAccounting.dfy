/** Where every byte taken into the assembler is. */
module ByteAccounting {
  import opened Bytes
  import opened SonarStream
  import opened StreamBytes
  import opened AssemblerHistory
  import opened Assembler

  /** Bytes that were read but that no frame took. */
  ghost function SkippedBytes(a: SlidingWindowAssembler): nat
    requires a.Valid()
    reads a, a.buf
  {
    a.h.skipped + |Skipped(a.h.trace, a.Pos())|
  }

  /**
   Byte conservation in every reachable state, whatever was fed and however often the machine was reset: each byte
   was handed on in a frame, skipped, discarded while pending, or is still pending.
   */
  lemma EveryByteAccounted(a: SlidingWindowAssembler)
    requires a.Valid()
    ensures a.stats.bytesFed == |Flatten(a.frames)| + SkippedBytes(a) + a.h.discarded + a.Available()
  {
    hide Skipped, Settled;
    var n := a.h.earlier;
    CurrentBalance(a.h, a.Limit(), a.Pos(), a.frames);
    FlattenConcat(a.frames[..n], a.frames[n..]);
    assert a.frames[..n] + a.frames[n..] == a.frames;
  }
}
