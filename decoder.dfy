/**
 * The fault decoder proper: it reads the exception stack frame and the
 * fault registers and sends the report to a printf-like debug sink, one
 * formatted fragment per call, in the order `Report` lays them out.
 *
 * The registers the source reads through volatile pointers (CFSR, MMFAR,
 * BFAR) arrive here as parameters; the stack frame is the array the
 * exception entry pushed.
 */
module Decoder {
  import opened HexFormat
  import opened FaultBits
  import opened FaultReport

  /**
   * Where the report goes, for instance a serial port. Each call of `Print`
   * hands over one already formatted fragment; `fragments` is everything
   * handed over so far, in order.
   */
  class DebugSink {
    var fragments: seq<string>

    constructor()
      ensures fragments == []
    {
      fragments := [];
    }

    /** Hands one fragment to the sink, after all earlier ones. */
    method Print(fragment: string)
      modifies this
      ensures fragments == old(fragments) + [fragment]
    {
      fragments := fragments + [fragment];
    }
  }

  /**
   * Prints the stack frame and the fault registers of one fault: exactly the
   * fragments of `Report`, appended after whatever the sink already holds.
   */
  method FaultDecoder(sink: DebugSink, stackFrame: array<Word>, cfsr: Word, mmfar: Word, bfar: Word)
    requires stackFrame.Length >= FrameSize
    modifies sink
    ensures sink.fragments == old(sink.fragments) + Report(stackFrame[..FrameSize], cfsr, mmfar, bfar)
  {
    ghost var frame := stackFrame[..FrameSize];
    ghost var start := sink.fragments;
    ghost var mm, bf, uf := Names(MemManageBits(), cfsr), Names(BusFaultBits(), cfsr), Names(UsageFaultBits(), cfsr);

    sink.Print(Banner);
    sink.Print(FrameTitle);
    sink.Print(FrameHeader);
    Append3(start, Banner, FrameTitle, FrameHeader);
    ghost var done := Heading();
    assert sink.fragments == start + done;

    PrintStackFrame(sink, stackFrame);
    AppendAssoc(start, done, FrameWords(frame));
    done := done + FrameWords(frame);

    sink.Print("\n\n");
    sink.Print(MemManageTitle);
    Append2(start + done, "\n\n", MemManageTitle);
    AppendAssoc(start, done, ["\n\n", MemManageTitle]);
    done := done + ["\n\n", MemManageTitle];
    assert sink.fragments == start + done;

    PrintMemManageNames(sink, cfsr);
    AppendAssoc(start, done, mm);
    done := done + mm;

    sink.Print("\n");
    sink.Print("MMFAR: " + Hex8(mmfar) + "\n\n");
    sink.Print(BusFaultTitle);
    Append3(start + done, "\n", AddressLine("MMFAR: ", mmfar), BusFaultTitle);
    AppendAssoc(start, done, Between(AddressLine("MMFAR: ", mmfar), BusFaultTitle));
    done := done + Between(AddressLine("MMFAR: ", mmfar), BusFaultTitle);
    assert sink.fragments == start + done;

    PrintBusFaultNames(sink, cfsr);
    AppendAssoc(start, done, bf);
    done := done + bf;

    sink.Print("\n");
    sink.Print("BFAR: " + Hex8(bfar) + "\n\n");
    sink.Print(UsageFaultTitle);
    Append3(start + done, "\n", AddressLine("BFAR: ", bfar), UsageFaultTitle);
    AppendAssoc(start, done, Between(AddressLine("BFAR: ", bfar), UsageFaultTitle));
    done := done + Between(AddressLine("BFAR: ", bfar), UsageFaultTitle);
    assert sink.fragments == start + done;

    PrintUsageFaultNames(sink, cfsr);
    AppendAssoc(start, done, uf);
    done := done + uf;

    sink.Print("\n\n");
    AppendAssoc(start, done, ["\n\n"]);
    assert done + ["\n\n"] == Layout(frame, mm, mmfar, bf, bfar, uf);
    assert stackFrame[..FrameSize] == frame;
  }

  /** Appending in two steps appends the concatenation. */
  lemma AppendAssoc<T>(a: seq<T>, b: seq<T>, c: seq<T>)
    ensures a + b + c == a + (b + c)
  {
  }

  /** Two appended elements are one appended pair. */
  lemma Append2<T>(s: seq<T>, x: T, y: T)
    ensures s + [x] + [y] == s + [x, y]
  {
  }

  /** Three appended elements are one appended triple. */
  lemma Append3<T>(s: seq<T>, x: T, y: T, z: T)
    ensures s + [x] + [y] + [z] == s + [x, y, z]
  {
  }

  /** The eight stack frame words, each as `%08X` and a space, R0 first. */
  method PrintStackFrame(sink: DebugSink, stackFrame: array<Word>)
    requires stackFrame.Length >= FrameSize
    modifies sink
    ensures sink.fragments == old(sink.fragments) + FrameWords(stackFrame[..FrameSize])
  {
    for i := 0 to FrameSize
      invariant sink.fragments == old(sink.fragments) + FrameWords(stackFrame[..i])
    {
      sink.Print(Hex8(stackFrame[i]) + " ");
      assert stackFrame[..i + 1] == stackFrame[..i] + [stackFrame[i]];
    }
  }

  /**
   * One `if (cfsr & mask)` test of a series that walks table `t`: `d` is
   * entry `k`, and the names printed so far since `base` are those of
   * entries `0..k-1`; its text is printed exactly when its bit is set, so
   * afterwards they are those of entries `0..k`.
   */
  method PrintIfSet(sink: DebugSink, cfsr: Word, d: BitDescriptor,
                    ghost t: seq<BitDescriptor>, ghost k: nat, ghost base: seq<string>)
    requires k < |t| && t[k] == d
    requires sink.fragments == base + Names(t[..k], cfsr)
    modifies sink
    ensures sink.fragments == base + Names(t[..k + 1], cfsr)
  {
    if cfsr & d.mask != 0 {
      sink.Print(d.text);
    }
    NamesStep(t, k, cfsr);
  }

  /** The MMFSR cause bits, checked highest first; each set one prints its name. */
  method PrintMemManageNames(sink: DebugSink, cfsr: Word)
    modifies sink
    ensures sink.fragments == old(sink.fragments) + Names(MemManageBits(), cfsr)
  {
    ghost var t, base := MemManageBits(), sink.fragments;
    assert base + Names(t[..0], cfsr) == base;
    PrintIfSet(sink, cfsr, BitDescriptor(MMARVALID, " MMARVALID"), t, 0, base);
    PrintIfSet(sink, cfsr, BitDescriptor(MLSPERR, " MLSPERR"), t, 1, base);
    PrintIfSet(sink, cfsr, BitDescriptor(MSTKERR, " MSTKERR"), t, 2, base);
    PrintIfSet(sink, cfsr, BitDescriptor(MUNSTKERR, " MUNSTKERR"), t, 3, base);
    PrintIfSet(sink, cfsr, BitDescriptor(DACCVIOL, " DACCVIOL"), t, 4, base);
    PrintIfSet(sink, cfsr, BitDescriptor(IACCVIOL, " IACCVIOL"), t, 5, base);
    assert t[..6] == t;
  }

  /** The BFSR cause bits, checked highest first; each set one prints its name. */
  method PrintBusFaultNames(sink: DebugSink, cfsr: Word)
    modifies sink
    ensures sink.fragments == old(sink.fragments) + Names(BusFaultBits(), cfsr)
  {
    ghost var t, base := BusFaultBits(), sink.fragments;
    assert base + Names(t[..0], cfsr) == base;
    PrintIfSet(sink, cfsr, BitDescriptor(BFARVALID, " BFARVALID"), t, 0, base);
    PrintIfSet(sink, cfsr, BitDescriptor(LSPERR, " LSPERR"), t, 1, base);
    PrintIfSet(sink, cfsr, BitDescriptor(STKERR, " STKERR"), t, 2, base);
    PrintIfSet(sink, cfsr, BitDescriptor(UNSTKERR, " UNSTKERR"), t, 3, base);
    PrintIfSet(sink, cfsr, BitDescriptor(IMPRECISERR, " IMPRECISERR"), t, 4, base);
    PrintIfSet(sink, cfsr, BitDescriptor(PRECISERR, " PRECISERR"), t, 5, base);
    PrintIfSet(sink, cfsr, BitDescriptor(IBUSERR, " IBUSERR"), t, 6, base);
    assert t[..7] == t;
  }

  /** The UFSR cause bits, checked highest first; each set one prints its name. */
  method PrintUsageFaultNames(sink: DebugSink, cfsr: Word)
    modifies sink
    ensures sink.fragments == old(sink.fragments) + Names(UsageFaultBits(), cfsr)
  {
    ghost var t, base := UsageFaultBits(), sink.fragments;
    assert base + Names(t[..0], cfsr) == base;
    PrintIfSet(sink, cfsr, BitDescriptor(DIVBYZERO, " DIVBYZERO"), t, 0, base);
    PrintIfSet(sink, cfsr, BitDescriptor(UNALIGNED, " UNALIGNED"), t, 1, base);
    PrintIfSet(sink, cfsr, BitDescriptor(NOCP, " NOCP"), t, 2, base);
    PrintIfSet(sink, cfsr, BitDescriptor(INVPC, " INVPC"), t, 3, base);
    PrintIfSet(sink, cfsr, BitDescriptor(INVSTATE, " INVSTATE"), t, 4, base);
    PrintIfSet(sink, cfsr, BitDescriptor(UNDEFINSTR, " UNDEFINSTR"), t, 5, base);
    assert t[..6] == t;
  }
}
