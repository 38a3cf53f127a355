/**
 * The Configurable Fault Status Register (CFSR) of an ARMv7-M processor and
 * the bit descriptor table the fault decoder prints from.
 *
 * The CFSR packs three sub-registers (section B3.2.15 of the ARMv7-M
 * Architecture Reference Manual): the MemManage Fault Status Register in
 * bits 0-7, the BusFault Status Register in bits 8-15 and the UsageFault
 * Status Register in bits 16-31. Each descriptor pairs one cause bit with
 * the text the decoder prints when that bit is set; the text carries the
 * leading space that separates it from the label before it.
 */
module FaultBits {
  import opened HexFormat

  // MemManage Fault Status Register, CFSR bits 0-7
  const MMARVALID: Word := 0x0000_0080
  const MLSPERR: Word := 0x0000_0020
  const MSTKERR: Word := 0x0000_0010
  const MUNSTKERR: Word := 0x0000_0008
  const DACCVIOL: Word := 0x0000_0002
  const IACCVIOL: Word := 0x0000_0001

  // BusFault Status Register, CFSR bits 8-15
  const BFARVALID: Word := 0x0000_8000
  const LSPERR: Word := 0x0000_2000
  const STKERR: Word := 0x0000_1000
  const UNSTKERR: Word := 0x0000_0800
  const IMPRECISERR: Word := 0x0000_0400
  const PRECISERR: Word := 0x0000_0200
  const IBUSERR: Word := 0x0000_0100

  // UsageFault Status Register, CFSR bits 16-31
  const DIVBYZERO: Word := 0x0200_0000
  const UNALIGNED: Word := 0x0100_0000
  const NOCP: Word := 0x0008_0000
  const INVPC: Word := 0x0004_0000
  const INVSTATE: Word := 0x0002_0000
  const UNDEFINSTR: Word := 0x0001_0000

  /** The CFSR bits occupied by each sub-register. */
  const MemManageField: Word := 0x0000_00FF
  const BusFaultField: Word := 0x0000_FF00
  const UsageFaultField: Word := 0xFFFF_0000

  /** One cause bit: the mask the decoder tests, and the text printed when it is set. */
  datatype BitDescriptor = BitDescriptor(mask: Word, text: string)

  /** The test `cfsr & mask` the decoder applies to each descriptor. */
  predicate IsSet(cfsr: Word, mask: Word) {
    cfsr & mask != 0
  }

  /** `m` has exactly one bit set. */
  predicate IsSingleBit(m: Word) {
    m != 0 && m & (m - 1) == 0
  }

  /** Every bit of `m` is a bit of `d`. */
  predicate Inside(m: Word, d: Word) {
    m & d == m
  }

  /** `a` and `b` have no bit in common. */
  predicate Disjoint(a: Word, b: Word) {
    a & b == 0
  }

  /** Every mask is a single bit inside `field`. */
  predicate SingleBitsIn(t: seq<BitDescriptor>, field: Word) {
    forall i :: 0 <= i < |t| ==> IsSingleBit(t[i].mask) && Inside(t[i].mask, field)
  }

  /** Masks strictly decrease along the table: highest bit first, none twice. */
  predicate DescendingMasks(t: seq<BitDescriptor>) {
    forall i, j :: 0 <= i < j < |t| ==> t[i].mask > t[j].mask
  }

  /** No two entries print the same text. */
  predicate DistinctTexts(t: seq<BitDescriptor>) {
    forall i, j :: 0 <= i < j < |t| ==> t[i].text != t[j].text
  }

  /** A table as the decoder uses one: single bits of one sub-register, highest first, distinct texts. */
  predicate WellFormedTable(t: seq<BitDescriptor>, field: Word) {
    SingleBitsIn(t, field) && DescendingMasks(t) && DistinctTexts(t)
  }

  /** The MMFSR descriptors in the order the decoder tests them. */
  function MemManageBits(): (t: seq<BitDescriptor>)
    ensures |t| == 6
  {
    [ BitDescriptor(MMARVALID, " MMARVALID"),
      BitDescriptor(MLSPERR, " MLSPERR"),
      BitDescriptor(MSTKERR, " MSTKERR"),
      BitDescriptor(MUNSTKERR, " MUNSTKERR"),
      BitDescriptor(DACCVIOL, " DACCVIOL"),
      BitDescriptor(IACCVIOL, " IACCVIOL") ]
  }

  /** The BFSR descriptors in the order the decoder tests them. */
  function BusFaultBits(): (t: seq<BitDescriptor>)
    ensures |t| == 7
  {
    [ BitDescriptor(BFARVALID, " BFARVALID"),
      BitDescriptor(LSPERR, " LSPERR"),
      BitDescriptor(STKERR, " STKERR"),
      BitDescriptor(UNSTKERR, " UNSTKERR"),
      BitDescriptor(IMPRECISERR, " IMPRECISERR"),
      BitDescriptor(PRECISERR, " PRECISERR"),
      BitDescriptor(IBUSERR, " IBUSERR") ]
  }

  /** The UFSR descriptors in the order the decoder tests them. */
  function UsageFaultBits(): (t: seq<BitDescriptor>)
    ensures |t| == 6
  {
    [ BitDescriptor(DIVBYZERO, " DIVBYZERO"),
      BitDescriptor(UNALIGNED, " UNALIGNED"),
      BitDescriptor(NOCP, " NOCP"),
      BitDescriptor(INVPC, " INVPC"),
      BitDescriptor(INVSTATE, " INVSTATE"),
      BitDescriptor(UNDEFINSTR, " UNDEFINSTR") ]
  }

  /** The MMFSR masks are single bits of CFSR bits 0-7, highest first, with distinct texts. */
  lemma MemManageTableWellFormed()
    ensures WellFormedTable(MemManageBits(), MemManageField)
  {
    MemManageSingleBits();
    MemManageDescending();
    MemManageDistinctTexts();
  }

  /** Each MMFSR mask is one bit of its field. */
  lemma MemManageSingleBits()
    ensures SingleBitsIn(MemManageBits(), MemManageField)
  {
  }

  /** The MMFSR masks are listed highest bit first. */
  lemma MemManageDescending()
    ensures DescendingMasks(MemManageBits())
  {
  }

  /** No two MMFSR names are alike. */
  lemma MemManageDistinctTexts()
    ensures DistinctTexts(MemManageBits())
  {
  }

  /** The BFSR masks are single bits of CFSR bits 8-15, highest first, with distinct texts. */
  lemma BusFaultTableWellFormed()
    ensures WellFormedTable(BusFaultBits(), BusFaultField)
  {
    BusFaultSingleBits();
    BusFaultDescending();
    BusFaultDistinctTexts();
  }

  /** Each BFSR mask is one bit of its field. */
  lemma BusFaultSingleBits()
    ensures SingleBitsIn(BusFaultBits(), BusFaultField)
  {
  }

  /** The BFSR masks are listed highest bit first. */
  lemma BusFaultDescending()
    ensures DescendingMasks(BusFaultBits())
  {
  }

  /** No two BFSR names are alike. */
  lemma BusFaultDistinctTexts()
    ensures DistinctTexts(BusFaultBits())
  {
  }

  /** The UFSR masks are single bits of CFSR bits 16-31, highest first, with distinct texts. */
  lemma UsageFaultTableWellFormed()
    ensures WellFormedTable(UsageFaultBits(), UsageFaultField)
  {
    UsageFaultSingleBits();
    UsageFaultDescending();
    UsageFaultDistinctTexts();
  }

  /** Each UFSR mask is one bit of its field. */
  lemma UsageFaultSingleBits()
    ensures SingleBitsIn(UsageFaultBits(), UsageFaultField)
  {
  }

  /** The UFSR masks are listed highest bit first. */
  lemma UsageFaultDescending()
    ensures DescendingMasks(UsageFaultBits())
  {
  }

  /** No two UFSR names are alike. */
  lemma UsageFaultDistinctTexts()
    ensures DistinctTexts(UsageFaultBits())
  {
  }

  /** The CFSR bits that have a name somewhere in the table. */
  const DefinedBits: Word := 0x030F_BFBB

  /**
   * The descriptors of `t` that pass `keep`, in table order: what an
   * unbroken series of tests, one per entry and none skipped, prints.
   */
  function Filter(t: seq<BitDescriptor>, keep: BitDescriptor -> bool): (r: seq<BitDescriptor>)
    ensures |r| <= |t|
  {
    if t == [] then []
    else (if keep(t[0]) then [t[0]] else []) + Filter(t[1..], keep)
  }

  /** The test `cfsr & mask` of one `if`, as a test on descriptors. */
  function SetIn(cfsr: Word): BitDescriptor -> bool {
    (d: BitDescriptor) => IsSet(cfsr, d.mask)
  }

  /**
   * The descriptors of `t` whose bit is set in `cfsr`, in table order: the
   * entries an unbroken series of `if (cfsr & mask)` tests prints.
   */
  function SetBits(t: seq<BitDescriptor>, cfsr: Word): (r: seq<BitDescriptor>)
    ensures |r| <= |t|
  {
    Filter(t, SetIn(cfsr))
  }

  /** The text printed for a series of descriptors, one fragment each. */
  function Texts(ds: seq<BitDescriptor>): (r: seq<string>)
    ensures |r| == |ds|
    ensures forall i :: 0 <= i < |ds| ==> r[i] == ds[i].text
  {
    seq(|ds|, i requires 0 <= i < |ds| => ds[i].text)
  }

  /** A descriptor is kept exactly when it belongs to the table and passes the test. */
  lemma {:induction false} FilterMembership(t: seq<BitDescriptor>, keep: BitDescriptor -> bool, d: BitDescriptor)
    ensures d in Filter(t, keep) <==> d in t && keep(d)
  {
    if t != [] {
      FilterMembership(t[1..], keep, d);
      assert t == [t[0]] + t[1..];
    }
  }

  /** The positions `Filter` keeps, counted from `base` for the first entry of `t`. */
  function KeptFrom(t: seq<BitDescriptor>, keep: BitDescriptor -> bool, base: nat): (idx: seq<nat>)
    ensures |idx| == |Filter(t, keep)|
  {
    if t == [] then []
    else (if keep(t[0]) then [base] else []) + KeptFrom(t[1..], keep, base + 1)
  }

  /** The `k`-th kept position, counted from `base`, lies within `t`. */
  lemma {:induction false} KeptFromBounds(t: seq<BitDescriptor>, keep: BitDescriptor -> bool, base: nat, k: nat)
    requires k < |KeptFrom(t, keep, base)|
    ensures base <= KeptFrom(t, keep, base)[k] < base + |t|
  {
    var h := if keep(t[0]) then 1 else 0;
    if k >= h {
      KeptFromBounds(t[1..], keep, base + 1, k - h);
      assert KeptFrom(t, keep, base)[k] == KeptFrom(t[1..], keep, base + 1)[k - h];
    }
  }

  /** The `k`-th kept position, counted from `base`, holds the `k`-th kept entry. */
  lemma {:induction false} KeptFromPick(t: seq<BitDescriptor>, keep: BitDescriptor -> bool, base: nat, k: nat)
    requires k < |KeptFrom(t, keep, base)|
    ensures base <= KeptFrom(t, keep, base)[k] < base + |t|
    ensures Filter(t, keep)[k] == t[KeptFrom(t, keep, base)[k] - base]
  {
    KeptFromBounds(t, keep, base, k);
    var h := if keep(t[0]) then 1 else 0;
    if k >= h {
      var i := KeptFrom(t[1..], keep, base + 1)[k - h];
      KeptFromPick(t[1..], keep, base + 1, k - h);
      assert KeptFrom(t, keep, base)[k] == i;
      assert Filter(t, keep)[k] == Filter(t[1..], keep)[k - h];
      assert t[i - base] == t[1..][i - (base + 1)];
    }
  }

  /** Kept positions, counted from `base`, strictly increase. */
  lemma {:induction false} KeptFromIncrease(t: seq<BitDescriptor>, keep: BitDescriptor -> bool, base: nat, k: nat, l: nat)
    requires k < l < |KeptFrom(t, keep, base)|
    ensures KeptFrom(t, keep, base)[k] < KeptFrom(t, keep, base)[l]
  {
    var rest := KeptFrom(t[1..], keep, base + 1);
    if keep(t[0]) {
      assert KeptFrom(t, keep, base) == [base] + rest;
      if k == 0 {
        KeptFromBounds(t[1..], keep, base + 1, l - 1);
      } else {
        KeptFromIncrease(t[1..], keep, base + 1, k - 1, l - 1);
      }
    } else {
      assert KeptFrom(t, keep, base) == rest;
      KeptFromIncrease(t[1..], keep, base + 1, k, l);
    }
  }

  /**
   * Filtering keeps the table's order and adds nothing: a table listed from
   * the highest bit down, with distinct texts, keeps that order and those
   * distinct texts.
   */
  lemma FilterOrdered(t: seq<BitDescriptor>, keep: BitDescriptor -> bool)
    requires DescendingMasks(t) && DistinctTexts(t)
    ensures DescendingMasks(Filter(t, keep)) && DistinctTexts(Filter(t, keep))
  {
    var r := Filter(t, keep);
    forall k, l | 0 <= k < l < |r|
      ensures r[k].mask > r[l].mask && r[k].text != r[l].text
    {
      KeptFromPick(t, keep, 0, k);
      KeptFromPick(t, keep, 0, l);
      KeptFromIncrease(t, keep, 0, k, l);
    }
  }

  /**
   * Reporting keeps the table's order and adds nothing: a table listed from
   * the highest bit down, with distinct texts, is reported from the highest
   * set bit down, each text at most once.
   */
  lemma SetBitsOrdered(t: seq<BitDescriptor>, cfsr: Word)
    requires DescendingMasks(t) && DistinctTexts(t)
    ensures DescendingMasks(SetBits(t, cfsr)) && DistinctTexts(SetBits(t, cfsr))
  {
    FilterOrdered(t, SetIn(cfsr));
  }

  /** With distinct texts, a text is among the kept ones exactly when its entry passes the test. */
  lemma FilterTextIff(t: seq<BitDescriptor>, keep: BitDescriptor -> bool, i: nat)
    requires DistinctTexts(t) && i < |t|
    ensures t[i].text in Texts(Filter(t, keep)) <==> keep(t[i])
  {
    var r := Filter(t, keep);
    FilterMembership(t, keep, t[i]);
    if t[i].text in Texts(r) {
      var k :| 0 <= k < |r| && Texts(r)[k] == t[i].text;
      FilterMembership(t, keep, r[k]);
      var j :| 0 <= j < |t| && t[j] == r[k];
      assert i == j;
    }
  }

  /** With distinct texts, a text appears in the report exactly when its bit is set. */
  lemma TextReportedIff(t: seq<BitDescriptor>, cfsr: Word, i: nat)
    requires DistinctTexts(t) && i < |t|
    ensures t[i].text in Texts(SetBits(t, cfsr)) <==> IsSet(cfsr, t[i].mask)
  {
    FilterTextIff(t, SetIn(cfsr), i);
  }

  /** A clear register reports nothing. */
  lemma {:induction false} SetBitsOfZero(t: seq<BitDescriptor>)
    ensures SetBits(t, 0) == []
  {
    if t != [] {
      SetBitsOfZero(t[1..]);
    }
  }

  /** No two entries of `t` share a bit. */
  predicate DisjointWithin(t: seq<BitDescriptor>) {
    forall i, j :: 0 <= i < j < |t| ==> Disjoint(t[i].mask, t[j].mask)
  }

  /** No entry of `t1` shares a bit with an entry of `t2`. */
  predicate DisjointAcross(t1: seq<BitDescriptor>, t2: seq<BitDescriptor>) {
    forall i, j :: 0 <= i < |t1| && 0 <= j < |t2| ==> Disjoint(t1[i].mask, t2[j].mask)
  }

  /** Two different single bits do not overlap. */
  lemma SingleBitsDisjoint(a: Word, b: Word)
    requires IsSingleBit(a) && IsSingleBit(b) && a != b
    ensures Disjoint(a, b)
  {
  }

  /** Masks inside two non-overlapping fields do not overlap. */
  lemma InsideDisjointFields(a: Word, fa: Word, b: Word, fb: Word)
    requires Inside(a, fa) && Inside(b, fb) && Disjoint(fa, fb)
    ensures Disjoint(a, b)
  {
  }

  /** The distinct single bits of a well-formed table never overlap. */
  lemma WellFormedTableDisjoint(t: seq<BitDescriptor>, field: Word)
    requires WellFormedTable(t, field)
    ensures DisjointWithin(t)
  {
    forall i, j | 0 <= i < j < |t|
      ensures Disjoint(t[i].mask, t[j].mask)
    {
      SingleBitsDisjoint(t[i].mask, t[j].mask);
    }
  }

  /** Tables confined to non-overlapping fields never overlap. */
  lemma FieldsKeepTablesApart(t1: seq<BitDescriptor>, f1: Word, t2: seq<BitDescriptor>, f2: Word)
    requires SingleBitsIn(t1, f1) && SingleBitsIn(t2, f2) && Disjoint(f1, f2)
    ensures DisjointAcross(t1, t2)
  {
    forall i, j | 0 <= i < |t1| && 0 <= j < |t2|
      ensures Disjoint(t1[i].mask, t2[j].mask)
    {
      InsideDisjointFields(t1[i].mask, f1, t2[j].mask, f2);
    }
  }

  /**
   * No two of the nineteen masks share a bit, so no cause is reported under
   * two names and no bit is reported in two sub-registers.
   */
  lemma MaskTableDisjoint()
    ensures DisjointWithin(MemManageBits()) && DisjointWithin(BusFaultBits()) && DisjointWithin(UsageFaultBits())
    ensures DisjointAcross(MemManageBits(), BusFaultBits())
    ensures DisjointAcross(MemManageBits(), UsageFaultBits())
    ensures DisjointAcross(BusFaultBits(), UsageFaultBits())
  {
    MemManageTableWellFormed();
    BusFaultTableWellFormed();
    UsageFaultTableWellFormed();
    WellFormedTableDisjoint(MemManageBits(), MemManageField);
    WellFormedTableDisjoint(BusFaultBits(), BusFaultField);
    WellFormedTableDisjoint(UsageFaultBits(), UsageFaultField);
    assert Disjoint(MemManageField, BusFaultField) && Disjoint(MemManageField, UsageFaultField);
    assert Disjoint(BusFaultField, UsageFaultField);
    FieldsKeepTablesApart(MemManageBits(), MemManageField, BusFaultBits(), BusFaultField);
    FieldsKeepTablesApart(MemManageBits(), MemManageField, UsageFaultBits(), UsageFaultField);
    FieldsKeepTablesApart(BusFaultBits(), BusFaultField, UsageFaultBits(), UsageFaultField);
  }

  /** `DefinedBits` is exactly the union of the nineteen masks. */
  lemma DefinedBitsAreTheMasks()
    ensures DefinedBits == MMARVALID | MLSPERR | MSTKERR | MUNSTKERR | DACCVIOL | IACCVIOL
                         | BFARVALID | LSPERR | STKERR | UNSTKERR | IMPRECISERR | PRECISERR | IBUSERR
                         | DIVBYZERO | UNALIGNED | NOCP | INVPC | INVSTATE | UNDEFINSTR
  {
  }

  /** Two registers that agree on the bits of `d` agree on every mask inside `d`. */
  lemma AgreeInside(c1: Word, c2: Word, d: Word, m: Word)
    requires c1 & d == c2 & d && Inside(m, d)
    ensures IsSet(c1, m) == IsSet(c2, m)
  {
  }

  /** The masks of each sub-register table lie inside `DefinedBits`. */
  lemma TablesInsideDefinedBits()
    ensures forall i :: 0 <= i < |MemManageBits()| ==> Inside(MemManageBits()[i].mask, DefinedBits)
    ensures forall i :: 0 <= i < |BusFaultBits()| ==> Inside(BusFaultBits()[i].mask, DefinedBits)
    ensures forall i :: 0 <= i < |UsageFaultBits()| ==> Inside(UsageFaultBits()[i].mask, DefinedBits)
  {
  }

  /**
   * Bits outside `defined` never change what a table whose masks lie inside
   * `defined` reports.
   */
  lemma {:induction false} SetBitsIgnoresUndefinedBits(t: seq<BitDescriptor>, defined: Word, c1: Word, c2: Word)
    requires forall i :: 0 <= i < |t| ==> Inside(t[i].mask, defined)
    requires c1 & defined == c2 & defined
    ensures SetBits(t, c1) == SetBits(t, c2)
  {
    if t != [] {
      AgreeInside(c1, c2, defined, t[0].mask);
      SetBitsIgnoresUndefinedBits(t[1..], defined, c1, c2);
    }
  }

  /** A register that has every bit of a nonzero mask has that mask set. */
  lemma InsideIsSet(m: Word, d: Word)
    requires m != 0 && Inside(m, d)
    ensures IsSet(d, m)
  {
  }

  /** A register holding every bit of `defined` reports the whole of a table of single bits inside `defined`. */
  lemma {:induction false} SetBitsOfDefined(t: seq<BitDescriptor>, defined: Word)
    requires forall i :: 0 <= i < |t| ==> IsSingleBit(t[i].mask) && Inside(t[i].mask, defined)
    ensures SetBits(t, defined) == t
  {
    if t != [] {
      InsideIsSet(t[0].mask, defined);
      SetBitsOfDefined(t[1..], defined);
      assert t == [t[0]] + t[1..];
    }
  }

  /** Filtering a table in two parts filters each part in turn. */
  lemma {:induction false} FilterAppend(a: seq<BitDescriptor>, b: seq<BitDescriptor>, keep: BitDescriptor -> bool)
    ensures Filter(a + b, keep) == Filter(a, keep) + Filter(b, keep)
  {
    if a == [] {
      assert a + b == b;
    } else {
      var head := if keep(a[0]) then [a[0]] else [];
      assert (a + b)[0] == a[0] && (a + b)[1..] == a[1..] + b;
      assert Filter(a + b, keep) == head + Filter(a[1..] + b, keep);
      FilterAppend(a[1..], b, keep);
      assert head + (Filter(a[1..], keep) + Filter(b, keep))
          == (head + Filter(a[1..], keep)) + Filter(b, keep);
    }
  }
}
