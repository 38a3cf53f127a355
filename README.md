# Cortex-M fault decoder, modelled in Dafny

`CMx_FaultDecoder` is called from a hard fault handler on an ARMv7-M
(Cortex-M3/M4/M7) processor. It prints the following to a printf-like debug
output:

- the eight registers the processor pushed on exception entry: R0, R1, R2,
  R3, R12, LR, PC and xPSR;
- the names of the cause bits that are set in the Configurable Fault Status
  Register (CFSR), one line for each of its three sub-registers (MMFSR,
  BFSR and UFSR);
- the two fault address registers, MMFAR and BFAR.

This project models the decoder and the table of `NVIC_CFSR_*` cause bits it
tests, and proves what a reader of its output can rely on.

The model has four modules, one file each.

- `HexFormat` (`hex_format.dfy`) covers the `%08X` conversion. `Hex8` renders
  a 32-bit word as eight upper-case hex digits. `HexValue` reads such digits
  back, and `Hex8RoundTrip` proves that the rendering loses nothing.
- `FaultBits` (`fault_bits.dfy`) holds the nineteen CFSR masks with the exact
  text printed for each, leading space included. The masks are grouped into
  three tables in the order the decoder tests them. `Filter` keeps the
  entries of a table that pass a test, and `SetBits` is `Filter` with the
  test `cfsr & mask`: the entries a series of `if (cfsr & mask)` tests
  prints. The module's lemmas
  cover:
  - the tables are well formed: single bits, each inside its sub-register's
    field, highest bit first, names distinct, no two masks overlapping;
  - a name is printed exactly when its bit is set;
  - the names keep the table's order;
  - bits outside the tables have no effect.
- `FaultReport` (`fault_report.dfy`) holds `Report`, the full list of
  fragments the decoder prints, one per `DbgPrintf` call. This is the
  specification the decoder is proved against. The lemmas about it say where
  each fragment sits, that the frame words and both addresses read back
  exactly, and what each status line contains.
- `Decoder` (`decoder.dfy`) contains the following.
  - The debug sink is the class `DebugSink`. Each `Print` appends one
    fragment to its `fragments`.
  - The decoder is the method `FaultDecoder`. It prints the banner, loops
    over the eight frame words, and runs the nineteen bit tests in source
    order. It is proved to append exactly `Report(...)`.
  - The three `if` series and the frame loop are split into their own
    methods so that each proof stays small. The statements and their order
    are those of the source.

The registers the C code reads through volatile pointers arrive as
parameters: `cfsr`, `mmfar` and `bfar`. The stack frame is an array of at
least eight words, and the decoder reads its first eight.

## Model

| member | source | states |
|---|---|---|
| HexFormat.Hex8 | cmx_fault_decoder.c:169 | `%08X` of a 32-bit word is exactly eight characters, each an upper-case hex digit |
| HexFormat.HexDigit | cmx_fault_decoder.c:169 | the digit printed for a value below 16 is upper case and reads back as that value |
| HexFormat.HexDigitsValue | cmx_fault_decoder.c:169 | reading back `width` zero-padded digits of `n` gives `n` modulo `16^width` |
| HexFormat.HexDigits8RoundTrip | cmx_fault_decoder.c:169 | eight digits read back any value below `2^32` unchanged |
| HexFormat.Hex8RoundTrip | cmx_fault_decoder.c:169 | the eight digits printed for a word read back as that word |
| HexFormat.Hex8Injective | cmx_fault_decoder.c:169 | two different words never print alike |
| HexFormat.Hex8OfOne | cmx_fault_decoder.c:169 | the value 1 prints as `00000001`, zero-padded on the left |
| FaultBits.IsSet | cmx_fault_decoder.c:176 | no contract; the test `cfsr & mask` of each `if`; what it decides is stated by TextReportedIff, AgreeInside and InsideIsSet |
| FaultBits.MemManageBits | cmx_fault_decoder.c:123-128 | six entries, the MMFSR masks and names in the order of lines 176-181; their shape is stated by MemManageTableWellFormed |
| FaultBits.BusFaultBits | cmx_fault_decoder.c:130-136 | seven entries, the BFSR masks and names in the order of lines 193-199; their shape is stated by BusFaultTableWellFormed |
| FaultBits.UsageFaultBits | cmx_fault_decoder.c:138-143 | six entries, the UFSR masks and names in the order of lines 209-214; their shape is stated by UsageFaultTableWellFormed |
| FaultBits.Filter | cmx_fault_decoder.c:176-181 | an unbroken series of tests keeps at most the table's entries; membership, order and splitting are stated by FilterMembership, FilterOrdered and FilterAppend |
| FaultBits.SetBits | cmx_fault_decoder.c:176-214 | the entries a series of `if (cfsr & mask)` tests prints, at most the table's; its properties are stated by TextReportedIff, SetBitsOrdered, SetBitsOfZero and SetBitsIgnoresUndefinedBits |
| FaultBits.MemManageTableWellFormed | cmx_fault_decoder.c:123-128 | the MMFSR masks are single bits of CFSR bits 0-7, listed highest first, with distinct names |
| FaultBits.MemManageSingleBits | cmx_fault_decoder.c:123-128 | each MMFSR mask is one bit inside bits 0-7 |
| FaultBits.MemManageDescending | cmx_fault_decoder.c:176-181 | the MMFSR bits are checked from the highest down |
| FaultBits.MemManageDistinctTexts | cmx_fault_decoder.c:176-181 | no two MMFSR names are alike |
| FaultBits.BusFaultTableWellFormed | cmx_fault_decoder.c:130-136 | the BFSR masks are single bits of CFSR bits 8-15, listed highest first, with distinct names |
| FaultBits.BusFaultSingleBits | cmx_fault_decoder.c:130-136 | each BFSR mask is one bit inside bits 8-15 |
| FaultBits.BusFaultDescending | cmx_fault_decoder.c:193-199 | the BFSR bits are checked from the highest down |
| FaultBits.BusFaultDistinctTexts | cmx_fault_decoder.c:193-199 | no two BFSR names are alike |
| FaultBits.UsageFaultTableWellFormed | cmx_fault_decoder.c:138-143 | the UFSR masks are single bits of CFSR bits 16-31, listed highest first, with distinct names |
| FaultBits.UsageFaultSingleBits | cmx_fault_decoder.c:138-143 | each UFSR mask is one bit inside bits 16-31 |
| FaultBits.UsageFaultDescending | cmx_fault_decoder.c:209-214 | the UFSR bits are checked from the highest down |
| FaultBits.UsageFaultDistinctTexts | cmx_fault_decoder.c:209-214 | no two UFSR names are alike |
| FaultBits.SingleBitsDisjoint | cmx_fault_decoder.c:123-143 | two different single-bit masks share no bit |
| FaultBits.InsideDisjointFields | cmx_fault_decoder.c:123-143 | masks confined to non-overlapping fields share no bit |
| FaultBits.WellFormedTableDisjoint | cmx_fault_decoder.c:123-143 | within a well-formed table no two masks share a bit |
| FaultBits.FieldsKeepTablesApart | cmx_fault_decoder.c:123-143 | tables in non-overlapping fields share no bit |
| FaultBits.MaskTableDisjoint | cmx_fault_decoder.c:123-143 | no two of the nineteen masks share a bit, within or across sub-registers |
| FaultBits.DefinedBitsAreTheMasks | cmx_fault_decoder.c:123-143 | `DefinedBits` (0x030FBFBB) is exactly the union of the nineteen masks |
| FaultBits.TablesInsideDefinedBits | cmx_fault_decoder.c:123-143 | every mask of every table lies inside `DefinedBits` |
| FaultBits.AgreeInside | cmx_fault_decoder.c:176 | two registers that agree on a field give the same `cfsr & mask` test for any mask inside it |
| FaultBits.InsideIsSet | cmx_fault_decoder.c:176 | a register holding every bit of a nonzero mask passes its test |
| FaultBits.FilterMembership | cmx_fault_decoder.c:176-181 | a descriptor is kept if and only if it is in the table and passes the test |
| FaultBits.KeptFromBounds | cmx_fault_decoder.c:176-181 | every kept position lies within the table |
| FaultBits.KeptFromPick | cmx_fault_decoder.c:176-181 | each kept descriptor is the table entry at its kept position |
| FaultBits.KeptFromIncrease | cmx_fault_decoder.c:176-181 | kept positions strictly increase: what is kept is a subsequence of the table |
| FaultBits.FilterOrdered | cmx_fault_decoder.c:176-181 | whatever the test, a table listed highest bit first with distinct names stays so after filtering |
| FaultBits.SetBitsOrdered | cmx_fault_decoder.c:176-181 | for a table listed highest bit first with distinct names, the report is highest set bit first, each name at most once |
| FaultBits.FilterTextIff | cmx_fault_decoder.c:176-181 | with distinct names, a table entry's name is kept if and only if the entry passes the test |
| FaultBits.TextReportedIff | cmx_fault_decoder.c:176-181 | with distinct names, a table entry's name is printed if and only if its bit is set |
| FaultBits.SetBitsOfZero | cmx_fault_decoder.c:176-181 | a clear register reports nothing |
| FaultBits.SetBitsIgnoresUndefinedBits | cmx_fault_decoder.c:176-214 | registers agreeing on the bits a table can name report the same entries |
| FaultBits.SetBitsOfDefined | cmx_fault_decoder.c:176-214 | with every named bit set, the whole table is reported in table order |
| FaultBits.FilterAppend | cmx_fault_decoder.c:176-181 | testing a table in two parts keeps the parts' entries one after the other |
| FaultReport.Heading | cmx_fault_decoder.c:163-165 | no contract; the three opening fragments `Banner`, `FrameTitle` and `FrameHeader`, byte for byte as printed; their positions are stated by LayoutParts |
| FaultReport.FrameWords | cmx_fault_decoder.c:167-170 | one fragment per frame word; what each holds is stated by FrameWordsReadBack |
| FaultReport.AddressLine | cmx_fault_decoder.c:188 | no contract; the fragments `"MMFAR: %08X\n\n"` (line 188) and `"BFAR: %08X\n\n"` (line 204); their content is stated by AddressLineReadBack |
| FaultReport.Layout | cmx_fault_decoder.c:163-215 | the report has twenty fixed fragments plus the names of each status line; every position is stated by LayoutParts |
| FaultReport.Names | cmx_fault_decoder.c:176-214 | no contract; the texts a status line's tests print; stated by NamesFaithful and NamesStep |
| FaultReport.Report | cmx_fault_decoder.c:163-215 | no contract; the whole output of the decoder, with the titles `MemManageTitle`, `BusFaultTitle` and `UsageFaultTitle` of lines 175, 192 and 208; the specification `Decoder.FaultDecoder` is proved against, stated by LayoutParts, StatusSections, AddressesAlwaysPrinted and ReportIgnoresUndefinedBits |
| FaultReport.LayoutParts | cmx_fault_decoder.c:163-215 | every fragment in order: banner, header, frame words at 3..10, MMFSR title and names, MMFAR line, BFSR title and names, BFAR line, UFSR title and names, final blank line |
| FaultReport.FrameWordsReadBack | cmx_fault_decoder.c:167-170 | frame word `i` is fragment `3+i`: eight upper-case hex digits and a space, reading back as the word |
| FaultReport.AddressesAlwaysPrinted | cmx_fault_decoder.c:184-204 | for every CFSR value the MMFAR and BFAR lines are printed, on the line after the MMFSR and BFSR names, and each parses as its title, eight hex digits reading back as the register, and a blank line |
| FaultReport.AddressLineReadBack | cmx_fault_decoder.c:188 | an address line is its title, eight hex digits reading back as the address, and a blank line |
| FaultReport.NamesStep | cmx_fault_decoder.c:176 | one more test prints the entry's name after the earlier names exactly when its bit is set |
| FaultReport.NamesFaithful | cmx_fault_decoder.c:176-181 | for a well-formed table, a name is printed if and only if its bit is set, highest first, none twice |
| FaultReport.SectionsFaithful | cmx_fault_decoder.c:175-215 | each status line's title, names and line end sit at their positions, and each line's names are faithful to its table |
| FaultReport.StatusSections | cmx_fault_decoder.c:175-215 | the MMFSR, BFSR and UFSR lines in order, each listing a name if and only if its bit is set, highest bit first, none twice |
| FaultReport.ReportOfClearCfsr | cmx_fault_decoder.c:175-215 | with CFSR clear the report has no names: 20 fragments, each title directly followed by its line end |
| FaultReport.ReportIgnoresUndefinedBits | cmx_fault_decoder.c:157-215 | two CFSR values that agree on the nineteen named bits give identical reports |
| FaultReport.ReportIaccviolUndefinstr | cmx_fault_decoder.c:175-215 | CFSR 0x00010001 prints IACCVIOL under MMFSR, nothing under BFSR, UNDEFINSTR under UFSR |
| FaultReport.ReportPreciseBusFault | cmx_fault_decoder.c:175-215 | CFSR 0x00008200 prints BFARVALID then PRECISERR under BFSR and nothing elsewhere |
| FaultReport.MemManageSamples | cmx_fault_decoder.c:176-181 | the MMFSR names for the two sample registers |
| FaultReport.BusFaultSamples | cmx_fault_decoder.c:193-199 | the BFSR names for the two sample registers |
| FaultReport.UsageFaultSamples | cmx_fault_decoder.c:209-214 | the UFSR names for the two sample registers |
| FaultReport.ReportOfAllDefinedBits | cmx_fault_decoder.c:176-214 | with every named bit set, each status line lists its whole table in table order |
| Decoder.DebugSink.Print | cmx_fault_decoder.c:115 | one `DbgPrintf` call appends exactly its fragment after everything printed before |
| Decoder.FaultDecoder | cmx_fault_decoder.c:151-216 | the decoder appends exactly `Report(frame, cfsr, mmfar, bfar)` to the sink, so its output is determined by those four inputs |
| Decoder.PrintStackFrame | cmx_fault_decoder.c:167-170 | the loop appends the eight `%08X ` fragments in frame order |
| Decoder.PrintIfSet | cmx_fault_decoder.c:176 | one `if (cfsr & mask)` test appends the name exactly when the bit is set |
| Decoder.PrintMemManageNames | cmx_fault_decoder.c:176-181 | the six MMFSR tests append exactly the names of the set MMFSR bits, in table order |
| Decoder.PrintBusFaultNames | cmx_fault_decoder.c:193-199 | the seven BFSR tests append exactly the names of the set BFSR bits, in table order |
| Decoder.PrintUsageFaultNames | cmx_fault_decoder.c:209-214 | the six UFSR tests append exactly the names of the set UFSR bits, in table order |

## Left out

- `CMx_FaultHandler` (cmx_fault_decoder.c:221-261) is not modelled. It is toolchain-specific inline assembly that picks the active stack pointer, then a loop that never returns.
- The volatile reads of CFSR, MMFAR and BFAR at fixed addresses (cmx_fault_decoder.c:118-120) are not modelled. The three values are parameters, each read once, as the source does at entry.
- `DbgPrintf` (cmx_fault_decoder.c:115) is external. It is modelled only as "append this already formatted fragment". Of its format language only `%08X` of a 32-bit word is modelled, and a sink that drops or reorders output is not modelled.
- `Decoder.FaultDecoder`: the frame pointer is modelled as an array of at least eight words. A pointer into invalid or corrupted memory, which the decoder reads on a best-effort basis, cannot be expressed.
