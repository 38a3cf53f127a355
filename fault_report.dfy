/**
 * The text of a fault report, as the list of fragments the decoder hands to
 * its printf-like sink, one fragment per call, each already formatted.
 *
 * `Report` is the specification the decoder is proved against; the lemmas
 * below say what a reader of the report can rely on: where each section
 * sits, that the stack frame words come out in order and read back exactly,
 * that a cause name appears exactly when its bit is set, and that the fault
 * addresses are printed whatever the validity bits say.
 */
module FaultReport {
  import opened HexFormat
  import opened FaultBits

  /** Words the processor pushes on exception entry: R0, R1, R2, R3, R12, LR, PC, xPSR. */
  const FrameSize: nat := 8

  const Banner: string := "\n*** Fault occurred ***\n\n"
  const FrameTitle: string := "Stack Frame\n----------\n"
  const FrameHeader: string := "   R0       R1       R2       R3      R12       LR       PC     xPSR\n"

  const MemManageTitle: string := "MMFSR:"
  const BusFaultTitle: string := "BFSR: "
  const UsageFaultTitle: string := "UFSR :"

  /** The three fragments that open every report. */
  function Heading(): seq<string> {
    [Banner, FrameTitle, FrameHeader]
  }

  /** `"%08X "` for each stack frame word, in frame order. */
  function FrameWords(frame: seq<Word>): (r: seq<string>)
    ensures |r| == |frame|
  {
    seq(|frame|, i requires 0 <= i < |frame| => Hex8(frame[i]) + " ")
  }

  /** `"MMFAR: %08X\n\n"` and `"BFAR: %08X\n\n"`. */
  function AddressLine(title: string, address: Word): string {
    title + Hex8(address) + "\n\n"
  }

  /** Everything before the MMFSR names: heading, frame words, blank line, MMFSR title. */
  function Opening(frame: seq<Word>): (r: seq<string>)
    ensures |r| == 3 + |frame| + 2
  {
    Heading() + FrameWords(frame) + ["\n\n", MemManageTitle]
  }

  /** What separates two status sub-registers: the line end, the address line, the next title. */
  function Between(addressLine: string, nextTitle: string): seq<string> {
    ["\n", addressLine, nextTitle]
  }

  /**
   * The order of the report's fragments, given the names printed for each
   * status sub-register: heading, frame words, MMFSR, MMFAR, BFSR, BFAR, UFSR.
   */
  function Layout(frame: seq<Word>, mm: seq<string>, mmfar: Word, bf: seq<string>, bfar: Word, uf: seq<string>)
    : (r: seq<string>)
    requires |frame| == FrameSize
    ensures |r| == 20 + |mm| + |bf| + |uf|
  {
    Opening(frame) + mm
    + Between(AddressLine("MMFAR: ", mmfar), BusFaultTitle) + bf
    + Between(AddressLine("BFAR: ", bfar), UsageFaultTitle) + uf + ["\n\n"]
  }

  /** The names printed for one status sub-register: the texts of its set bits, in table order. */
  function Names(t: seq<BitDescriptor>, cfsr: Word): seq<string> {
    Texts(SetBits(t, cfsr))
  }

  /** The whole report for one fault. */
  function Report(frame: seq<Word>, cfsr: Word, mmfar: Word, bfar: Word): seq<string>
    requires |frame| == FrameSize
  {
    Layout(frame, Names(MemManageBits(), cfsr), mmfar, Names(BusFaultBits(), cfsr), bfar,
           Names(UsageFaultBits(), cfsr))
  }

  /**
   * Testing one more descriptor of a table prints its text after the names
   * printed so far exactly when its bit is set: the step an unbroken series
   * of `if (cfsr & mask)` tests takes.
   */
  lemma NamesStep(t: seq<BitDescriptor>, k: nat, cfsr: Word)
    requires k < |t|
    ensures Names(t[..k + 1], cfsr)
         == Names(t[..k], cfsr) + (if IsSet(cfsr, t[k].mask) then [t[k].text] else [])
  {
    assert t[..k + 1] == t[..k] + [t[k]];
    FilterAppend(t[..k], [t[k]], SetIn(cfsr));
    assert SetBits([t[k]], cfsr) == if IsSet(cfsr, t[k].mask) then [t[k]] else [];
  }

  /**
   * Every fragment of the layout at its fixed position: the frame words at
   * 3..10, then each title, its names, its line end and the address lines,
   * at positions that shift only with the number of names printed before.
   */
  lemma LayoutParts(frame: seq<Word>, mm: seq<string>, mmfar: Word, bf: seq<string>, bfar: Word, uf: seq<string>)
    requires |frame| == FrameSize
    ensures var r, m, b := Layout(frame, mm, mmfar, bf, bfar, uf), |mm|, |bf|;
            && r[..3] == Heading()
            && r[3..11] == FrameWords(frame)
            && r[11] == "\n\n"
            && r[12] == MemManageTitle && r[13..13 + m] == mm && r[13 + m] == "\n"
            && r[14 + m] == AddressLine("MMFAR: ", mmfar)
            && r[15 + m] == BusFaultTitle && r[16 + m..16 + m + b] == bf && r[16 + m + b] == "\n"
            && r[17 + m + b] == AddressLine("BFAR: ", bfar)
            && r[18 + m + b] == UsageFaultTitle && r[19 + m + b..|r| - 1] == uf && r[|r| - 1] == "\n\n"
  {
    var head := Opening(frame);
    var mid := Between(AddressLine("MMFAR: ", mmfar), BusFaultTitle);
    var mid' := Between(AddressLine("BFAR: ", bfar), UsageFaultTitle);
    Split7(head, mm, mid, bf, mid', uf, ["\n\n"]);
    assert head[..3] == Heading() && head[3..11] == FrameWords(frame);
  }

  /**
   * The eight stack frame words come out at positions 3..10, in frame order
   * (R0 first, xPSR last), each as exactly eight upper-case hex digits and a
   * space, and the digits read back as the word that was pushed.
   */
  lemma FrameWordsReadBack(frame: seq<Word>, cfsr: Word, mmfar: Word, bfar: Word, i: nat)
    requires |frame| == FrameSize && i < FrameSize
    ensures var f := Report(frame, cfsr, mmfar, bfar)[3 + i];
            && |f| == 9 && f[8] == ' ' && IsUpperHex(f[..8]) && HexValue(f[..8]) == frame[i] as int
  {
    var mm, bf, uf := Names(MemManageBits(), cfsr), Names(BusFaultBits(), cfsr), Names(UsageFaultBits(), cfsr);
    LayoutParts(frame, mm, mmfar, bf, bfar, uf);
    var r := Report(frame, cfsr, mmfar, bfar);
    assert r[3 + i] == r[3..11][i] == FrameWords(frame)[i];
    var f := Hex8(frame[i]) + " ";
    assert f[..8] == Hex8(frame[i]);
    Hex8RoundTrip(frame[i]);
  }

  /**
   * Both fault address registers are always printed, as eight hex digits
   * that read back as the register, whether or not MMARVALID or BFARVALID
   * is set: judging validity is left to the reader.
   */
  lemma AddressesAlwaysPrinted(frame: seq<Word>, cfsr: Word, mmfar: Word, bfar: Word)
    requires |frame| == FrameSize
    ensures var r := Report(frame, cfsr, mmfar, bfar);
            var m, b := |Names(MemManageBits(), cfsr)|, |Names(BusFaultBits(), cfsr)|;
            && 17 + m + b < |r|
            && AddressLineOf(r[14 + m], "MMFAR: ", mmfar)
            && AddressLineOf(r[17 + m + b], "BFAR: ", bfar)
  {
    var mm, bf, uf := Names(MemManageBits(), cfsr), Names(BusFaultBits(), cfsr), Names(UsageFaultBits(), cfsr);
    LayoutParts(frame, mm, mmfar, bf, bfar, uf);
    AddressLineReadBack("MMFAR: ", mmfar);
    AddressLineReadBack("BFAR: ", bfar);
  }

  /**
   * How a reader parses an address line: the title, eight upper-case hex
   * digits whose value is the address, and a blank line.
   */
  predicate AddressLineOf(line: string, title: string, address: Word) {
    var n := |title|;
    && |line| == n + 10 && line[..n] == title && line[n + 8..] == "\n\n"
    && IsUpperHex(line[n..n + 8]) && HexValue(line[n..n + 8]) == address as int
  }

  /** An address line is its title, the address as eight hex digits that read back exactly, and a blank line. */
  lemma AddressLineReadBack(title: string, address: Word)
    ensures AddressLineOf(AddressLine(title, address), title, address)
  {
    var line := AddressLine(title, address);
    assert line[|title|..|title| + 8] == Hex8(address);
    Hex8RoundTrip(address);
  }

  /**
   * What a well-formed table guarantees about the names printed for it: a
   * name is printed exactly when its bit is set, the names come highest bit
   * first, and none is printed twice.
   */
  lemma NamesFaithful(t: seq<BitDescriptor>, field: Word, cfsr: Word)
    requires WellFormedTable(t, field)
    ensures forall i :: 0 <= i < |t| ==> (t[i].text in Names(t, cfsr) <==> IsSet(cfsr, t[i].mask))
    ensures DescendingMasks(SetBits(t, cfsr)) && DistinctTexts(SetBits(t, cfsr))
  {
    forall i | 0 <= i < |t|
      ensures t[i].text in Names(t, cfsr) <==> IsSet(cfsr, t[i].mask)
    {
      TextReportedIff(t, cfsr, i);
    }
    SetBitsOrdered(t, cfsr);
  }

  /**
   * The three sections of a layout whose names are those of three
   * well-formed tables, stated once for any tables; the per-register lemmas
   * below instantiate it with the decoder's own tables.
   */
  lemma SectionsFaithful(frame: seq<Word>, cfsr: Word, mmfar: Word, bfar: Word,
                         t1: seq<BitDescriptor>, f1: Word, t2: seq<BitDescriptor>, f2: Word,
                         t3: seq<BitDescriptor>, f3: Word)
    requires |frame| == FrameSize
    requires WellFormedTable(t1, f1) && WellFormedTable(t2, f2) && WellFormedTable(t3, f3)
    ensures var r := Layout(frame, Names(t1, cfsr), mmfar, Names(t2, cfsr), bfar, Names(t3, cfsr));
            var m, b := |Names(t1, cfsr)|, |Names(t2, cfsr)|;
            && r[12] == MemManageTitle && r[13..13 + m] == Names(t1, cfsr) && r[13 + m] == "\n"
            && r[15 + m] == BusFaultTitle && r[16 + m..16 + m + b] == Names(t2, cfsr) && r[16 + m + b] == "\n"
            && r[18 + m + b] == UsageFaultTitle && r[19 + m + b..|r| - 1] == Names(t3, cfsr)
            && r[|r| - 1] == "\n\n"
    ensures forall i :: 0 <= i < |t1| ==> (t1[i].text in Names(t1, cfsr) <==> IsSet(cfsr, t1[i].mask))
    ensures forall i :: 0 <= i < |t2| ==> (t2[i].text in Names(t2, cfsr) <==> IsSet(cfsr, t2[i].mask))
    ensures forall i :: 0 <= i < |t3| ==> (t3[i].text in Names(t3, cfsr) <==> IsSet(cfsr, t3[i].mask))
    ensures DescendingMasks(SetBits(t1, cfsr)) && DistinctTexts(SetBits(t1, cfsr))
    ensures DescendingMasks(SetBits(t2, cfsr)) && DistinctTexts(SetBits(t2, cfsr))
    ensures DescendingMasks(SetBits(t3, cfsr)) && DistinctTexts(SetBits(t3, cfsr))
  {
    LayoutParts(frame, Names(t1, cfsr), mmfar, Names(t2, cfsr), bfar, Names(t3, cfsr));
    NamesFaithful(t1, f1, cfsr);
    NamesFaithful(t2, f2, cfsr);
    NamesFaithful(t3, f3, cfsr);
  }

  /**
   * The MMFSR, BFSR and UFSR lines of a report, in that order: each title,
   * then exactly the names of that sub-register's set bits, highest bit
   * first and none twice, then the line end.
   */
  lemma StatusSections(frame: seq<Word>, cfsr: Word, mmfar: Word, bfar: Word)
    requires |frame| == FrameSize
    ensures var r := Report(frame, cfsr, mmfar, bfar);
            var m, b := |Names(MemManageBits(), cfsr)|, |Names(BusFaultBits(), cfsr)|;
            && r[12] == MemManageTitle && r[13..13 + m] == Names(MemManageBits(), cfsr) && r[13 + m] == "\n"
            && r[15 + m] == BusFaultTitle && r[16 + m..16 + m + b] == Names(BusFaultBits(), cfsr)
            && r[16 + m + b] == "\n"
            && r[18 + m + b] == UsageFaultTitle && r[19 + m + b..|r| - 1] == Names(UsageFaultBits(), cfsr)
            && r[|r| - 1] == "\n\n"
    ensures forall i :: 0 <= i < |MemManageBits()| ==>
      (MemManageBits()[i].text in Names(MemManageBits(), cfsr) <==> IsSet(cfsr, MemManageBits()[i].mask))
    ensures forall i :: 0 <= i < |BusFaultBits()| ==>
      (BusFaultBits()[i].text in Names(BusFaultBits(), cfsr) <==> IsSet(cfsr, BusFaultBits()[i].mask))
    ensures forall i :: 0 <= i < |UsageFaultBits()| ==>
      (UsageFaultBits()[i].text in Names(UsageFaultBits(), cfsr) <==> IsSet(cfsr, UsageFaultBits()[i].mask))
    ensures DescendingMasks(SetBits(MemManageBits(), cfsr)) && DistinctTexts(SetBits(MemManageBits(), cfsr))
    ensures DescendingMasks(SetBits(BusFaultBits(), cfsr)) && DistinctTexts(SetBits(BusFaultBits(), cfsr))
    ensures DescendingMasks(SetBits(UsageFaultBits(), cfsr)) && DistinctTexts(SetBits(UsageFaultBits(), cfsr))
  {
    MemManageTableWellFormed();
    BusFaultTableWellFormed();
    UsageFaultTableWellFormed();
    SectionsFaithful(frame, cfsr, mmfar, bfar, MemManageBits(), MemManageField, BusFaultBits(), BusFaultField,
                     UsageFaultBits(), UsageFaultField);
  }

  /** With CFSR clear, the three titles are each followed directly by their line end. */
  lemma ReportOfClearCfsr(frame: seq<Word>, mmfar: Word, bfar: Word)
    requires |frame| == FrameSize
    ensures Report(frame, 0, mmfar, bfar) == Layout(frame, [], mmfar, [], bfar, [])
    ensures |Report(frame, 0, mmfar, bfar)| == 20
  {
    SetBitsOfZero(MemManageBits());
    SetBitsOfZero(BusFaultBits());
    SetBitsOfZero(UsageFaultBits());
  }

  /**
   * Reserved CFSR bits, and any bit no descriptor names, never change the
   * report: two registers that agree on `DefinedBits` print the same text.
   */
  lemma ReportIgnoresUndefinedBits(frame: seq<Word>, c1: Word, c2: Word, mmfar: Word, bfar: Word)
    requires |frame| == FrameSize
    requires c1 & DefinedBits == c2 & DefinedBits
    ensures Report(frame, c1, mmfar, bfar) == Report(frame, c2, mmfar, bfar)
  {
    TablesInsideDefinedBits();
    SetBitsIgnoresUndefinedBits(MemManageBits(), DefinedBits, c1, c2);
    SetBitsIgnoresUndefinedBits(BusFaultBits(), DefinedBits, c1, c2);
    SetBitsIgnoresUndefinedBits(UsageFaultBits(), DefinedBits, c1, c2);
  }

  /**
   * An instruction access violation together with an undefined instruction
   * (CFSR 0x0001_0001): MMFSR lists IACCVIOL, BFSR nothing, UFSR UNDEFINSTR.
   */
  lemma ReportIaccviolUndefinstr(frame: seq<Word>, mmfar: Word, bfar: Word)
    requires |frame| == FrameSize
    ensures Report(frame, 0x0001_0001, mmfar, bfar)
         == Layout(frame, [" IACCVIOL"], mmfar, [], bfar, [" UNDEFINSTR"])
  {
    MemManageSamples();
    BusFaultSamples();
    UsageFaultSamples();
  }

  /**
   * A precise bus fault with a valid fault address (CFSR 0x0000_8200): BFSR
   * lists BFARVALID then PRECISERR, the other two sub-registers nothing.
   */
  lemma ReportPreciseBusFault(frame: seq<Word>, mmfar: Word, bfar: Word)
    requires |frame| == FrameSize
    ensures Report(frame, 0x0000_8200, mmfar, bfar)
         == Layout(frame, [], mmfar, [" BFARVALID", " PRECISERR"], bfar, [])
  {
    MemManageSamples();
    BusFaultSamples();
    UsageFaultSamples();
  }

  /** The MMFSR names for the two sample registers above. */
  lemma MemManageSamples()
    ensures Names(MemManageBits(), 0x0001_0001) == [" IACCVIOL"]
    ensures Names(MemManageBits(), 0x0000_8200) == []
  {
  }

  /** The BFSR names for the two sample registers above. */
  lemma BusFaultSamples()
    ensures Names(BusFaultBits(), 0x0001_0001) == []
    ensures Names(BusFaultBits(), 0x0000_8200) == [" BFARVALID", " PRECISERR"]
  {
  }

  /** The UFSR names for the two sample registers above. */
  lemma UsageFaultSamples()
    ensures Names(UsageFaultBits(), 0x0001_0001) == [" UNDEFINSTR"]
    ensures Names(UsageFaultBits(), 0x0000_8200) == []
  {
  }

  /** With every named bit set, each sub-register lists its whole table, in table order. */
  lemma ReportOfAllDefinedBits()
    ensures Names(MemManageBits(), DefinedBits) == Texts(MemManageBits())
    ensures Names(BusFaultBits(), DefinedBits) == Texts(BusFaultBits())
    ensures Names(UsageFaultBits(), DefinedBits) == Texts(UsageFaultBits())
  {
    MemManageTableWellFormed();
    BusFaultTableWellFormed();
    UsageFaultTableWellFormed();
    TablesInsideDefinedBits();
    SetBitsOfDefined(MemManageBits(), DefinedBits);
    SetBitsOfDefined(BusFaultBits(), DefinedBits);
    SetBitsOfDefined(UsageFaultBits(), DefinedBits);
  }

  /** Where each of seven concatenated pieces sits in the whole. */
  lemma Split7<T>(a: seq<T>, b: seq<T>, c: seq<T>, d: seq<T>, e: seq<T>, f: seq<T>, g: seq<T>)
    ensures var r, i := a + b + c + d + e + f + g, |a|;
            var j := i + |b|;
            var k := j + |c|;
            var l := k + |d|;
            var n := l + |e|;
            var o := n + |f|;
            && r[..i] == a && r[i..j] == b && r[j..k] == c
            && r[k..l] == d && r[l..n] == e && r[n..o] == f && r[o..] == g
  {
  }
}
