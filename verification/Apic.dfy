/** The I/O APIC code (fckrnl/dd/apic/apic.c).  Each I/O APIC is its 256 registers; the register file of
    I/O APIC k is the words 256 k .. 256 k + 255. */
module Apic {
  import opened Bits
  import opened Bitmaps
  import opened Frames
  import opened Irq

  // ----- finding the I/O APIC of a gsi

  /** ioapic_get_max_redir: bits 16 to 23 of the version register. */
  function MaxRedir(regs: seq<nat>, k: nat): nat
    requires 256 * k + 1 < |regs|
  {
    regs[256 * k + 1] / 0x1_0000 % 0x100
  }

  /** A version register: the version, the number of the last entry in bits 16 to 23, and the reserved bits
      around it. */
  predicate VersionIs(reg: nat, version: nat, low: nat, max: nat, top: nat) {
    version < 0x100 && low < 0x100 && max < 0x100 && reg == version + 0x100 * low + 0x1_0000 * max + 0x100_0000 * top
  }

  lemma MaxRedirField(regs: seq<nat>, k: nat, version: nat, low: nat, max: nat, top: nat)
    requires 256 * k + 1 < |regs| && VersionIs(regs[256 * k + 1], version, low, max, top)
    ensures MaxRedir(regs, k) == max
  {
    var reg := regs[256 * k + 1];
    QuotientUnique(reg, 0x1_0000, max + 0x100 * top, version + 0x100 * low);
    QuotientUnique(max + 0x100 * top, 0x100, top, max);
  }

  /** The last entry of I/O APIC k has number max. */
  ghost predicate LastIs(reg: nat, max: nat) {
    exists version, low, top :: VersionIs(reg, version, low, max, top)
  }

  /** The numbers of the last entries of the I/O APICs. */
  ghost predicate LastsAre(bases: seq<nat>, regs: seq<nat>, lasts: seq<nat>) {
    && |regs| == 256 * |bases| && |lasts| == |bases|
    && forall k {:trigger LastAt(regs, lasts, k)} :: 0 <= k < |bases| ==> LastAt(regs, lasts, k)
  }

  ghost predicate LastAt(regs: seq<nat>, lasts: seq<nat>, k: nat) {
    k < |lasts| && 256 * k + 1 < |regs| && LastIs(regs[256 * k + 1], lasts[k])
  }

  lemma LastsMean(bases: seq<nat>, regs: seq<nat>, lasts: seq<nat>, k: nat)
    requires LastsAre(bases, regs, lasts) && k < |bases|
    ensures MaxRedir(regs, k) == lasts[k]
  {
    assert LastAt(regs, lasts, k);
    var version, low, top :| VersionIs(regs[256 * k + 1], version, low, lasts[k], top);
    MaxRedirField(regs, k, version, low, lasts[k], top);
  }

  /** (reg & 0xFF0000) >> 16. */
  lemma MaskAndShift(reg: nat)
    ensures Shr(And(reg, 0xFF_0000), 16) == reg / 0x1_0000 % 0x100
  {
    BitValues();
    assert Pow2(8) == 256;
    ShlIsProduct(Pow2(8) - 1, 16);
    FieldIsDivision(reg, 8, 16);
    ShiftsAreDivision(reg, 16);
    ShiftsAreDivision(Shr(reg, 16), 8);
  }

  /** gsi >= start_gsi && gsi < end_gsi, in 32-bit arithmetic. */
  predicate Serves(bases: seq<nat>, regs: seq<nat>, k: nat, gsi: nat)
    requires k < |bases| && 256 * k + 1 < |regs|
  {
    bases[k] <= gsi < (bases[k] + MaxRedir(regs, k)) % 0x1_0000_0000
  }

  /** ioapic_i_from_gsi, from I/O APIC k on; None is the panic. */
  function Locate(bases: seq<nat>, regs: seq<nat>, gsi: nat, k: nat): (r: Option<nat>)
    requires |regs| == 256 * |bases| && k <= |bases|
    ensures r.Some? ==> r.value < |bases| && Serves(bases, regs, r.value, gsi)
    decreases |bases| - k
  {
    if k == |bases| then None
    else if Serves(bases, regs, k, gsi) then Some(k)
    else Locate(bases, regs, gsi, k + 1)
  }

  lemma {:induction false} LocatedExactly(bases: seq<nat>, regs: seq<nat>, gsi: nat, k: nat)
    requires |regs| == 256 * |bases| && k <= |bases|
    ensures Locate(bases, regs, gsi, k).Some? <==> exists i :: k <= i < |bases| && Serves(bases, regs, i, gsi)
    ensures Locate(bases, regs, gsi, k).Some? ==>
      forall i :: k <= i < Locate(bases, regs, gsi, k).value ==> !Serves(bases, regs, i, gsi)
    decreases |bases| - k
  {
    if k < |bases| { LocatedExactly(bases, regs, gsi, k + 1); }
  }

  /** A gsi that exactly one I/O APIC has an entry for is found exactly when that entry is not its last one. */
  lemma LastEntryLost(bases: seq<nat>, regs: seq<nat>, lasts: seq<nat>, gsi: nat, k: nat)
    requires LastsAre(bases, regs, lasts) && k < |bases| && bases[k] + lasts[k] < 0x1_0000_0000
    requires bases[k] <= gsi <= bases[k] + lasts[k]
    requires forall i :: 0 <= i < |bases| && i != k ==> gsi < bases[i] || bases[i] + lasts[i] < gsi
    ensures Locate(bases, regs, gsi, 0) == if gsi == bases[k] + lasts[k] then None else Some(k)
  {
    LocatedExactly(bases, regs, gsi, 0);
    forall i | 0 <= i < |bases| && Serves(bases, regs, i, gsi) ensures i == k {
      LastsMean(bases, regs, lasts, i);
      WrapsDown(bases[i] + lasts[i]);
    }
    LastsMean(bases, regs, lasts, k);
    NoWrap(bases[k] + lasts[k]);
    assert Serves(bases, regs, k, gsi) <==> gsi != bases[k] + lasts[k];
  }

  lemma NoWrap(x: nat)
    requires x < 0x1_0000_0000
    ensures x % 0x1_0000_0000 == x
  {
  }

  lemma WrapsDown(x: nat)
    ensures x % 0x1_0000_0000 <= x
  {
  }

  /** The search finds an I/O APIC exactly when the gsi lies below the last entry of one, in 32-bit arithmetic. */
  lemma FoundExactly(bases: seq<nat>, regs: seq<nat>, lasts: seq<nat>, gsi: nat)
    requires LastsAre(bases, regs, lasts)
    ensures Locate(bases, regs, gsi, 0).Some? <==> Below(bases, lasts, gsi)
  {
    LocatedExactly(bases, regs, gsi, 0);
    forall k | 0 <= k < |bases| ensures Serves(bases, regs, k, gsi) <==> BelowLast(bases, lasts, k, gsi) {
      LastsMean(bases, regs, lasts, k);
    }
  }

  predicate BelowLast(bases: seq<nat>, lasts: seq<nat>, k: nat, gsi: nat)
    requires k < |bases| && k < |lasts|
  {
    bases[k] <= gsi < (bases[k] + lasts[k]) % 0x1_0000_0000
  }

  predicate Below(bases: seq<nat>, lasts: seq<nat>, gsi: nat)
    requires |lasts| == |bases|
  {
    exists k :: 0 <= k < |bases| && BelowLast(bases, lasts, k, gsi)
  }

  // ----- entries

  /** The two words of entry e of I/O APIC k: IRQ_TO_IOREDTBL_REG, in an 8-bit register number. */
  function RegOf(k: nat, e: nat): nat {
    256 * k + (e * 2 + 0x10) % 0x100
  }

  /** The register select is 8 bits wide, so that a part has at most 120 entries. */
  predicate PartOk(bases: seq<nat>, regs: seq<nat>, k: nat)
    requires k < |bases| && 256 * k + 1 < |regs|
  {
    bases[k] < 0x1_0000_0000 && MaxRedir(regs, k) <= 119
  }

  predicate PartsOk(bases: seq<nat>, regs: seq<nat>) {
    |regs| == 256 * |bases| && forall k :: 0 <= k < |bases| ==> PartOk(bases, regs, k)
  }

  /** The entry of a gsi, both halves. */
  function EntryOf(bases: seq<nat>, regs: seq<nat>, gsi: nat): Option<(nat, nat)>
    requires PartsOk(bases, regs)
  {
    var k := Locate(bases, regs, gsi, 0);
    if k.None? then None
    else
      EntryPlace(bases, regs, gsi);
      var r := RegOf(k.value, gsi - bases[k.value]);
      Some((regs[r], regs[r + 1]))
  }

  lemma EntryPlace(bases: seq<nat>, regs: seq<nat>, gsi: nat)
    requires PartsOk(bases, regs) && Locate(bases, regs, gsi, 0).Some?
    ensures var k := Locate(bases, regs, gsi, 0).value; var e := gsi - bases[k];
      && 0 <= e < 119 && RegOf(k, e) == 256 * k + 2 * e + 16 && RegOf(k, e) + 1 < 256 * (k + 1) <= |regs|
  {
    var k := Locate(bases, regs, gsi, 0).value;
    assert PartOk(bases, regs, k);
  }

  /** From regs to regs' exactly the entry of gsi changed. */
  ghost predicate Wrote(bases: seq<nat>, regs: seq<nat>, regs': seq<nat>, gsi: nat, entry: (nat, nat)) {
    && PartsOk(bases, regs) && PartsOk(bases, regs')
    && (forall g :: Locate(bases, regs', g, 0) == Locate(bases, regs, g, 0))
    && (forall g :: EntryOf(bases, regs', g) ==
         if g == gsi && EntryOf(bases, regs, g).Some? then Some(entry) else EntryOf(bases, regs, g))
  }

  /** ... which is registers 0x10 + 2 e and 0x11 + 2 e of the I/O APIC, e counting from its first gsi. */
  ghost predicate OnlyEntry(bases: seq<nat>, regs: seq<nat>, regs': seq<nat>, k: nat, gsi: nat, entry: (nat, nat)) {
    && k < |bases| && bases[k] <= gsi && 0x11 + 2 * (gsi - bases[k]) < 0x100
    && var r := 256 * k + 0x10 + 2 * (gsi - bases[k]);
       r + 1 < |regs| && regs' == regs[r := entry.0][r + 1 := entry.1]
  }

  lemma {:induction false} LocateKept(bases: seq<nat>, regs: seq<nat>, regs': seq<nat>, gsi: nat, k: nat)
    requires |regs| == |regs'| == 256 * |bases| && k <= |bases|
    requires forall i :: 0 <= i < |bases| ==> regs'[256 * i + 1] == regs[256 * i + 1]
    ensures Locate(bases, regs', gsi, k) == Locate(bases, regs, gsi, k)
    decreases |bases| - k
  {
    if k < |bases| { LocateKept(bases, regs, regs', gsi, k + 1); }
  }

  lemma EntryWritten(bases: seq<nat>, regs: seq<nat>, lasts: seq<nat>, gsi: nat, low: nat, high: nat)
    requires PartsOk(bases, regs) && LastsAre(bases, regs, lasts) && Locate(bases, regs, gsi, 0).Some?
    ensures var k := Locate(bases, regs, gsi, 0).value; var r := RegOf(k, gsi - bases[k]);
      r + 1 < |regs| && Wrote(bases, regs, regs[r := low][r + 1 := high], gsi, (low, high))
      && OnlyEntry(bases, regs, regs[r := low][r + 1 := high], k, gsi, (low, high))
      && LastsAre(bases, regs[r := low][r + 1 := high], lasts)
  {
    EntryPlace(bases, regs, gsi);
    var k := Locate(bases, regs, gsi, 0).value;
    var r := RegOf(k, gsi - bases[k]);
    var regs' := regs[r := low][r + 1 := high];
    VersionsKept(bases, regs, regs', k, r);
    LastsKept(bases, regs, regs', lasts);
    forall g ensures Locate(bases, regs', g, 0) == Locate(bases, regs, g, 0) { LocateKept(bases, regs, regs', g, 0); }
    forall g ensures EntryOf(bases, regs', g) ==
      if g == gsi && EntryOf(bases, regs, g).Some? then Some((low, high)) else EntryOf(bases, regs, g)
    {
      OneEntry(bases, regs, gsi, low, high, g);
    }
  }

  lemma VersionsKept(bases: seq<nat>, regs: seq<nat>, regs': seq<nat>, k: nat, r: nat)
    requires PartsOk(bases, regs) && |regs'| == |regs| && k < |bases| && 256 * k + 16 <= r && r + 1 < 256 * (k + 1)
    requires forall i :: 0 <= i < |regs| && i != r && i != r + 1 ==> regs'[i] == regs[i]
    ensures PartsOk(bases, regs') && forall i :: 0 <= i < |bases| ==> regs'[256 * i + 1] == regs[256 * i + 1]
  {
    forall i | 0 <= i < |bases| ensures regs'[256 * i + 1] == regs[256 * i + 1] && PartOk(bases, regs', i) {
      assert PartOk(bases, regs, i);
      assert 256 * i + 1 != r && 256 * i + 1 != r + 1;
    }
  }

  lemma LastsKept(bases: seq<nat>, regs: seq<nat>, regs': seq<nat>, lasts: seq<nat>)
    requires LastsAre(bases, regs, lasts) && |regs'| == |regs|
    requires forall i :: 0 <= i < |bases| ==> regs'[256 * i + 1] == regs[256 * i + 1]
    ensures LastsAre(bases, regs', lasts)
  {
    forall i | 0 <= i < |bases| ensures LastAt(regs', lasts, i) { assert LastAt(regs, lasts, i); }
  }

  lemma OneEntry(bases: seq<nat>, regs: seq<nat>, gsi: nat, low: nat, high: nat, g: nat)
    requires PartsOk(bases, regs) && Locate(bases, regs, gsi, 0).Some?
    requires var k := Locate(bases, regs, gsi, 0).value; var r := RegOf(k, gsi - bases[k]);
      && r + 1 < |regs| && PartsOk(bases, regs[r := low][r + 1 := high])
      && Locate(bases, regs[r := low][r + 1 := high], g, 0) == Locate(bases, regs, g, 0)
    ensures var k := Locate(bases, regs, gsi, 0).value; var r := RegOf(k, gsi - bases[k]);
      EntryOf(bases, regs[r := low][r + 1 := high], g) ==
      if g == gsi && EntryOf(bases, regs, g).Some? then Some((low, high)) else EntryOf(bases, regs, g)
  {
    if Locate(bases, regs, g, 0).Some? {
      EntryPlace(bases, regs, g);
      if g != gsi { EntriesApart(bases, regs, gsi, g); }
    }
  }

  lemma EntriesApart(bases: seq<nat>, regs: seq<nat>, gsi: nat, g: nat)
    requires PartsOk(bases, regs) && Locate(bases, regs, gsi, 0).Some? && Locate(bases, regs, g, 0).Some? && g != gsi
    ensures var k, k' := Locate(bases, regs, gsi, 0).value, Locate(bases, regs, g, 0).value;
      var r, r' := RegOf(k, gsi - bases[k]), RegOf(k', g - bases[k']);
      r != r' && r + 1 != r' && r != r' + 1
  {
    EntryPlace(bases, regs, gsi);
    EntryPlace(bases, regs, g);
  }

  // ----- the 64 bits of an entry

  predicate ActiveLow(flags: nat) {
    Bit(flags, 1)
  }

  predicate LevelTriggered(flags: nat) {
    Bit(flags, 3)
  }

  /** The vector in bits 0 to 7, polarity in 13, trigger mode in 15, mask in 16, destination in 56 to 63. */
  function EntryLow(vector: nat, flags: nat, mask: bool): nat {
    vector + (if ActiveLow(flags) then 0x2000 else 0) + (if LevelTriggered(flags) then 0x8000 else 0) +
    (if mask then 0x1_0000 else 0)
  }

  function EntryHigh(lapicId: nat): nat {
    lapicId * 0x100_0000
  }

  lemma {:induction false} OrCommutes(a: nat, b: nat)
    ensures Or(a, b) == Or(b, a)
    decreases a + b
  {
    if a > 0 && b > 0 { OrCommutes(a / 2, b / 2); }
  }

  /** |= of a single bit above everything set so far. */
  lemma OrAbove(e: nat, bits: nat, k: nat)
    requires bits % Pow2(k) == 0 && e < Pow2(k)
    ensures Or(e, bits) == e + bits
  {
    OrCommutes(e, bits);
    OrDisjoint(bits, e, k);
  }

  lemma {:induction false} BitBound(a: nat, k: nat)
    requires Bit(a, k)
    ensures a >= Pow2(k)
  {
    if k > 0 { BitBound(a / 2, k - 1); }
  }

  /** &= ~IOAPIC_MASK_BIT, when the bit is not set. */
  lemma MaskBitClear(e: nat)
    requires e < 0x1_0000
    ensures Pow2(16) < Pow2(64) && And(e, Not(Pow2(16), 64)) == e
  {
    Pow2Values();
    var m := Not(Pow2(16), 64);
    forall k: nat ensures Bit(And(e, m), k) <==> Bit(e, k) {
      BitOfAnd(e, m, k);
      if Bit(e, k) {
        BitBound(e, k);
        if k >= 16 {
          if k > 16 { Pow2Monotonic(16, k); }
        } else {
          BitOfNot(Pow2(16), 64, k);
          BitOfPow2(16, k);
        }
      }
    }
    SameDigits(And(e, m), e);
  }

  /** What apic_init puts into an entry for interrupt irq. */
  function Redirection(isos: seq<Iso>, irq: nat, lapicId: nat): (nat, nat) {
    (EntryLow(irq + 32, Resolve(isos, irq).flags, true), EntryHigh(lapicId))
  }

  /** The entry that the last writer left, or the one from before. */
  function Carried(isos: seq<Iso>, w: Writer, lapicId: nat, before: Option<(nat, nat)>): Option<(nat, nat)> {
    if w.Nobody? || before.None? then before else Some(Redirection(isos, w.irq, lapicId))
  }

  /** The fields of an entry, at the bits the I/O APIC has them (bits 0 to 31, and 32 to 63), and no other bit:
      bit 1 of the flags is the polarity, bit 3 the trigger mode. */
  lemma EntryFields(vector: nat, flags: nat, mask: bool, lapicId: nat)
    requires vector < 0x100 && lapicId < 0x100
    ensures var low, high := EntryLow(vector, flags, mask), EntryHigh(lapicId);
      && low % 0x100 == vector && low / 0x100 % 0x20 == 0 && low / 0x2000 % 2 == flags / 2 % 2
      && low / 0x4000 % 2 == 0 && low / 0x8000 % 2 == flags / 2 / 2 / 2 % 2
      && low / 0x1_0000 == (if mask then 1 else 0)
      && high / 0x100_0000 == lapicId && high % 0x100_0000 == 0
  {
    FlagDigits(flags);
    FieldsOfLow(vector, if ActiveLow(flags) then 1 else 0, if LevelTriggered(flags) then 1 else 0, if mask then 1 else 0);
  }

  lemma FlagDigits(flags: nat)
    ensures ActiveLow(flags) <==> flags / 2 % 2 == 1
    ensures LevelTriggered(flags) <==> flags / 2 / 2 / 2 % 2 == 1
  {
    assert Bit(flags, 1) == Bit(flags / 2, 0);
    assert Bit(flags, 3) == Bit(flags / 2, 2) == Bit(flags / 2 / 2, 1) == Bit(flags / 2 / 2 / 2, 0);
  }

  lemma FieldsOfLow(v: nat, p: nat, t: nat, m: nat)
    requires v < 0x100 && p < 2 && t < 2 && m < 2
    ensures var low := v + 0x2000 * p + 0x8000 * t + 0x1_0000 * m;
      && low % 0x100 == v && low / 0x100 % 0x20 == 0 && low / 0x2000 % 2 == p
      && low / 0x4000 % 2 == 0 && low / 0x8000 % 2 == t && low / 0x1_0000 == m
  {
  }

  /** What apic_init puts into an entry: the vector of the interrupt, the flags of its override, masked. */
  lemma RedirectionFields(isos: seq<Iso>, irq: nat, lapicId: nat)
    requires irq < 16 && lapicId < 0x100
    ensures var (low, high) := Redirection(isos, irq, lapicId); var flags := Resolve(isos, irq).flags;
      && low % 0x100 == irq + 32 && low < 0x1_0000_0000
      && low / 0x2000 % 2 == flags / 2 % 2 && low / 0x8000 % 2 == flags / 2 / 2 / 2 % 2
      && low / 0x1_0000 % 2 == 1 && high / 0x100_0000 == lapicId
  {
    EntryFields(irq + 32, Resolve(isos, irq).flags, true, lapicId);
  }

  /** After apic_init, for an override table that is injective, and with no overridden interrupt as another's
      target, each overridden interrupt's entry carries its own vector; and so does the entry of every
      interrupt that no override touches. */
  lemma VectorsOfIrqs(isos: seq<Iso>, irq: nat, lapicId: nat, before: Option<(nat, nat)>)
    requires Injective(isos) && irq < 16 && lapicId < 0x100 && before.Some?
    requires forall j :: 0 <= j < 16 && j != irq && Overridden(isos, j) ==> Target(isos, j) != irq
    ensures var entry := Carried(isos, Final(isos, Target(isos, irq)), lapicId, before);
      entry.Some? && entry.value.0 % 0x100 == irq + 32
  {
    if Overridden(isos, irq) {
      AllHandled(isos, irq);
    } else {
      IdentityTarget(isos, irq);
      IdentityKept(isos, irq);
    }
    RedirectionFields(isos, irq, lapicId);
  }

  // ----- the two loops

  /** The entries after n rounds of the first loop, or of the second. */
  ghost predicate Looped(bases: seq<nat>, isos: seq<Iso>, id: nat, regs: seq<nat>, regs': seq<nat>, second: bool, n: nat) {
    && PartsOk(bases, regs) && PartsOk(bases, regs')
    && (forall g :: Locate(bases, regs', g, 0) == Locate(bases, regs, g, 0))
    && (forall g: nat {:trigger EntryOf(bases, regs', g)} ::
          EntryOf(bases, regs', g) ==
          Carried(isos, if second then SecondLoop(isos, g, n) else FirstLoop(isos, g, n), id, EntryOf(bases, regs, g)))
  }

  /** A round that handles interrupt n. */
  lemma RoundHandled(bases: seq<nat>, isos: seq<Iso>, id: nat, regs: seq<nat>, regs': seq<nat>, regs'': seq<nat>,
                     second: bool, n: nat)
    requires Looped(bases, isos, id, regs, regs', second, n) && (second ==> Active(isos, n))
    requires Wrote(bases, regs', regs'', Target(isos, n), Redirection(isos, n, id))
    ensures Looped(bases, isos, id, regs, regs'', second, n + 1)
  {
    var n1 := n + 1;
    forall g: nat ensures EntryOf(bases, regs'', g) ==
      Carried(isos, if second then SecondLoop(isos, g, n1) else FirstLoop(isos, g, n1), id, EntryOf(bases, regs, g))
    {
      assert EntryOf(bases, regs', g) ==
        Carried(isos, if second then SecondLoop(isos, g, n) else FirstLoop(isos, g, n), id, EntryOf(bases, regs, g));
    }
  }

  /** A round of the second loop that skips interrupt n. */
  lemma RoundSkipped(bases: seq<nat>, isos: seq<Iso>, id: nat, regs: seq<nat>, regs': seq<nat>, n: nat)
    requires Looped(bases, isos, id, regs, regs', true, n) && !Active(isos, n)
    ensures Looped(bases, isos, id, regs, regs', true, n + 1)
  {
    var n1 := n + 1;
    forall g: nat ensures SecondLoop(isos, g, n1) == SecondLoop(isos, g, n) {}
  }

  /** The I/O APICs, their registers, the override table, and the ID of the local APIC. */
  class IoApics {
    const bases: seq<nat>
    const isos: seq<Iso>
    const lapicId: nat
    const regs: array<nat>
    /** The numbers of the last entries, as the version registers have them. */
    ghost const lasts: seq<nat>

    constructor (gsiBases: seq<nat>, overrides: seq<Iso>, id: nat, registers: array<nat>, ghost lastEntries: seq<nat>)
      ensures bases == gsiBases && isos == overrides && lapicId == id && regs == registers && lasts == lastEntries
    {
      bases, isos, lapicId, regs, lasts := gsiBases, overrides, id, registers, lastEntries;
    }

    ghost predicate Valid()
      reads regs
    {
      PartsOk(bases, regs[..]) && LastsAre(bases, regs[..], lasts) && lapicId < 0x100
    }

    /** ioapic_i_from_gsi; -1 stands for the panic. */
    method IndexFromGsi(gsi: nat) returns (i: int)
      requires Valid()
      ensures match Locate(bases, regs[..], gsi, 0) case None => i == -1 case Some(k) => i == k
    {
      i := 0;
      while i < |bases|
        invariant 0 <= i <= |bases|
        invariant Locate(bases, regs[..], gsi, 0) == Locate(bases, regs[..], gsi, i)
      {
        assert PartOk(bases, regs[..], i);
        var start := bases[i];
        MaskAndShift(regs[256 * i + 1]);
        var end := (start + Shr(And(regs[256 * i + 1], 0xFF_0000), 16)) % 0x1_0000_0000;
        if gsi >= start && gsi < end {
          return;
        }
        i := i + 1;
      }
      i := -1;
    }

    /** redirect_entry, low half. */
    method BuildEntry(vector: nat, flags: nat, mask: bool) returns (e: nat)
      requires vector < 0x100
      ensures e == EntryLow(vector, flags, mask)
    {
      e := vector;
      FlagBits(flags);
      BitValues();
      if And(flags, 2) != 0 {
        OrAbove(e, 0x2000, 13);
        e := Or(e, 0x2000);
      }
      if And(flags, 8) != 0 {
        OrAbove(e, 0x8000, 15);
        e := Or(e, 0x8000);
      }
      MaskBitClear(e);
      if mask {
        OrAbove(e, 0x1_0000, 16);
        e := Or(e, 0x1_0000);
      } else {
        e := And(e, Not(Pow2(16), 64));
      }
    }

    /** ioapic_set_gsi_redir; false when the gsi lies below the last entry of no I/O APIC. */
    method SetGsiRedir(vector: nat, gsi: nat, flags: nat, mask: bool) returns (ok: bool)
      requires Valid() && vector < 0x100
      modifies regs
      ensures Valid() && (ok <==> Locate(bases, old(regs[..]), gsi, 0).Some?) && (ok <==> Below(bases, lasts, gsi))
      ensures ok ==> Wrote(bases, old(regs[..]), regs[..], gsi, (EntryLow(vector, flags, mask), EntryHigh(lapicId)))
      ensures ok ==> OnlyEntry(bases, old(regs[..]), regs[..], Locate(bases, old(regs[..]), gsi, 0).value, gsi,
                               (EntryLow(vector, flags, mask), EntryHigh(lapicId)))
      ensures !ok ==> regs[..] == old(regs[..])
    {
      var low: nat := BuildEntry(vector, flags, mask);
      var k := IndexFromGsi(gsi);
      FoundExactly(bases, regs[..], lasts, gsi);
      if k < 0 {
        return false;
      }
      ghost var before: seq<nat> := regs[..];
      EntryPlace(bases, before, gsi);
      EntryWritten(bases, before, lasts, gsi, low, EntryHigh(lapicId));
      var reg := (gsi - bases[k]) * 2 + 0x10;
      regs[256 * k + reg % 0x100] := low;
      regs[256 * k + (reg + 1) % 0x100] := lapicId * 0x100_0000;
      ghost var r: nat := RegOf(k, gsi - bases[k]);
      assert regs[..] == before[r := low][r + 1 := EntryHigh(lapicId)];
      ok := true;
    }

    /** ioapic_set_irq_redir. */
    method SetIrqRedir(vector: nat, irq: nat, mask: bool) returns (ok: bool, gsi: nat)
      requires Valid() && vector < 0x100
      modifies regs
      ensures Valid() && gsi == Target(isos, irq) && (ok <==> Locate(bases, old(regs[..]), gsi, 0).Some?)
      ensures ok <==> Below(bases, lasts, gsi)
      ensures ok ==>
        Wrote(bases, old(regs[..]), regs[..], gsi, (EntryLow(vector, Resolve(isos, irq).flags, mask), EntryHigh(lapicId)))
      ensures !ok ==> regs[..] == old(regs[..])
    {
      var i := 0;
      while i < |isos|
        invariant 0 <= i <= |isos| && regs[..] == old(regs[..])
        invariant Resolve(isos, irq) == Resolve(isos[i..], irq)
      {
        if isos[i].irqSrc == irq {
          gsi := isos[i].gsi;
          ok := SetGsiRedir(vector, gsi, isos[i].flags, mask);
          return;
        }
        assert isos[i..][1..] == isos[i + 1..];
        i := i + 1;
      }
      gsi := irq;
      ok := SetGsiRedir(vector, gsi, 0, mask);
    }

    /** The redirection part of apic_init; false when it panics. */
    method Init() returns (ok: bool)
      requires Valid() && forall i :: 0 <= i < 16 ==> Target(isos, i) < 128
      modifies regs
      ensures Valid()
      ensures ok <==> forall i :: 0 <= i < 16 ==> Below(bases, lasts, Target(isos, i))
      ensures ok ==> Looped(bases, isos, lapicId, old(regs[..]), regs[..], true, 16)
    {
      ghost var start: seq<nat> := regs[..];
      var i := 0;
      while i < 16
        invariant 0 <= i <= 16 && Valid()
        invariant forall j :: 0 <= j < i ==> Locate(bases, start, Target(isos, j), 0).Some? && Below(bases, lasts, Target(isos, j))
        invariant Looped(bases, isos, lapicId, start, regs[..], false, i)
      {
        ghost var before: seq<nat> := regs[..];
        var found, gsi := SetIrqRedir(i + 32, i, true);
        if !found {
          return false;
        }
        RoundHandled(bases, isos, lapicId, start, before, regs[..], false, i);
        i := i + 1;
      }
      assert Looped(bases, isos, lapicId, start, regs[..], true, 0);
      SecondPass(start);
      ok := true;
    }

    /** The second loop, which marks each gsi it has written. */
    method SecondPass(ghost start: seq<nat>)
      requires Valid() && forall i :: 0 <= i < 16 ==> Target(isos, i) < 128
      requires Looped(bases, isos, lapicId, start, regs[..], true, 0)
      requires forall i :: 0 <= i < 16 ==> Locate(bases, start, Target(isos, i), 0).Some?
      modifies regs
      ensures Valid() && Looped(bases, isos, lapicId, start, regs[..], true, 16)
    {
      var irqBitmap := new Bitmap(16);
      var i := 0;
      while i < 16
        invariant 0 <= i <= 16 && Valid()
        invariant fresh(irqBitmap) && fresh(irqBitmap.bytes) && irqBitmap.Valid() && irqBitmap.bytes.Length == 16
        invariant irqBitmap.held == MarkedBy(isos, i)
        invariant Looped(bases, isos, lapicId, start, regs[..], true, i)
      {
        SkippedExactly(isos, i);
        var marked := irqBitmap.Get(i);
        if marked == 0 {
          ghost var before: seq<nat> := regs[..];
          var found, gsi := SetIrqRedir(i + 32, i, true);
          RoundHandled(bases, isos, lapicId, start, before, regs[..], true, i);
          irqBitmap.Set(gsi);
        } else {
          RoundSkipped(bases, isos, lapicId, start, regs[..], i);
        }
        i := i + 1;
      }
    }
  }

  lemma FlagBits(flags: nat)
    ensures And(flags, 2) != 0 <==> ActiveLow(flags)
    ensures And(flags, 8) != 0 <==> LevelTriggered(flags)
  {
    assert Pow2(1) == 2 && Pow2(3) == 8;
    AndSingle(flags, 1);
    AndSingle(flags, 3);
  }

  lemma BitValues()
    ensures Pow2(13) == 0x2000 && Pow2(15) == 0x8000 && Pow2(16) == 0x1_0000
  {
    Pow2Values();
    assert Pow2(13) == 2 * Pow2(12);
    assert Pow2(16) == 2 * Pow2(15);
  }
}
