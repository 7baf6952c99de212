/** Which redirection entry ends up with which ISA interrupt (fckrnl/dd/apic/apic.c), for a table of
    interrupt source overrides as in section 5.2.12.5 of the ACPI specification. */
module Irq {

  /** An override: irq_src arrives at the global system interrupt gsi. */
  datatype Iso = Iso(irqSrc: nat, gsi: nat, flags: nat)

  /** The first override of an interrupt, or the identity. */
  function Resolve(isos: seq<Iso>, irq: nat): (r: Iso)
    ensures r.irqSrc == irq
    ensures r in isos || r == Iso(irq, irq, 0)
  {
    if isos == [] then Iso(irq, irq, 0)
    else if isos[0].irqSrc == irq then isos[0]
    else Resolve(isos[1..], irq)
  }

  /** The first one in the table counts. */
  lemma {:induction false} ResolveFirst(isos: seq<Iso>, irq: nat, k: nat)
    requires k < |isos| && isos[k].irqSrc == irq && forall j :: 0 <= j < k ==> isos[j].irqSrc != irq
    ensures Resolve(isos, irq) == isos[k]
  {
    if k > 0 {
      forall j | 0 <= j < k - 1 ensures isos[1..][j].irqSrc != irq { assert isos[1..][j] == isos[j + 1]; }
      ResolveFirst(isos[1..], irq, k - 1);
    }
  }

  function Target(isos: seq<Iso>, irq: nat): nat {
    Resolve(isos, irq).gsi
  }

  predicate Overridden(isos: seq<Iso>, irq: nat) {
    exists k :: 0 <= k < |isos| && isos[k].irqSrc == irq
  }

  lemma {:induction false} IdentityTarget(isos: seq<Iso>, irq: nat)
    requires !Overridden(isos, irq)
    ensures Resolve(isos, irq) == Iso(irq, irq, 0)
  {
    if isos != [] {
      assert isos[0].irqSrc != irq;
      forall k | 0 <= k < |isos[1..]| ensures isos[1..][k].irqSrc != irq { assert isos[1..][k] == isos[k + 1]; }
      IdentityTarget(isos[1..], irq);
    }
  }

  // ----- the two loops of apic_init

  /** The second loop handles interrupt i: no earlier one that it handles has marked it. */
  predicate Active(isos: seq<Iso>, i: nat)
    decreases i
  {
    forall j :: 0 <= j < i ==> Active(isos, j) ==> Target(isos, j) != i
  }

  datatype Writer = Nobody | By(irq: nat)

  /** The last of the first n interrupts that the first loop sends to gsi. */
  function FirstLoop(isos: seq<Iso>, gsi: nat, n: nat): Writer {
    if n == 0 then Nobody
    else if Target(isos, n - 1) == gsi then By(n - 1)
    else FirstLoop(isos, gsi, n - 1)
  }

  /** The interrupt in the entry of gsi after n rounds of the second loop. */
  function SecondLoop(isos: seq<Iso>, gsi: nat, n: nat): Writer {
    if n == 0 then FirstLoop(isos, gsi, 16)
    else if Active(isos, n - 1) && Target(isos, n - 1) == gsi then By(n - 1)
    else SecondLoop(isos, gsi, n - 1)
  }

  /** The interrupt whose entry a gsi has after apic_init. */
  function Final(isos: seq<Iso>, gsi: nat): Writer {
    SecondLoop(isos, gsi, 16)
  }

  /** The gsis marked in the bitmap after n rounds of the second loop. */
  ghost function MarkedBy(isos: seq<Iso>, n: nat): set<nat> {
    if n == 0 then {} else MarkedBy(isos, n - 1) + (if Active(isos, n - 1) then {Target(isos, n - 1)} else {})
  }

  lemma {:induction false} MarkedMeans(isos: seq<Iso>, n: nat, g: nat)
    ensures g in MarkedBy(isos, n) <==> exists j :: 0 <= j < n && Active(isos, j) && Target(isos, j) == g
  {
    if n > 0 {
      MarkedMeans(isos, n - 1, g);
    }
  }

  lemma SkippedExactly(isos: seq<Iso>, i: nat)
    ensures i in MarkedBy(isos, i) <==> !Active(isos, i)
  {
    MarkedMeans(isos, i, i);
  }

  // ----- who is last

  lemma {:induction false} FirstLoopLast(isos: seq<Iso>, gsi: nat, n: nat)
    ensures match FirstLoop(isos, gsi, n)
            case Nobody => forall j :: 0 <= j < n ==> Target(isos, j) != gsi
            case By(i) => i < n && Target(isos, i) == gsi && forall j :: i < j < n ==> Target(isos, j) != gsi
  {
    if n > 0 { FirstLoopLast(isos, gsi, n - 1); }
  }

  lemma {:induction false} SecondLoopLast(isos: seq<Iso>, gsi: nat, n: nat)
    ensures var w := SecondLoop(isos, gsi, n);
      || (w == FirstLoop(isos, gsi, 16) && forall j :: 0 <= j < n && Active(isos, j) ==> Target(isos, j) != gsi)
      || (w.By? && w.irq < n && Active(isos, w.irq) && Target(isos, w.irq) == gsi
          && forall j :: w.irq < j < n && Active(isos, j) ==> Target(isos, j) != gsi)
  {
    if n > 0 { SecondLoopLast(isos, gsi, n - 1); }
  }

  /** No two overridden ISA interrupts share a gsi. */
  predicate Injective(isos: seq<Iso>) {
    forall i, j {:trigger Target(isos, i), Target(isos, j)} ::
      0 <= i < 16 && 0 <= j < 16 && i != j && Overridden(isos, i) && Overridden(isos, j) ==> Target(isos, i) != Target(isos, j)
  }

  /** The interrupts that are sent to the gsi of overridden interrupt i: i, and the one of that number when it
      is not overridden itself. */
  lemma Senders(isos: seq<Iso>, i: nat, j: nat)
    requires Injective(isos) && i < 16 && j < 16 && Overridden(isos, i) && Target(isos, j) == Target(isos, i)
    ensures j == i || (j == Target(isos, i) && !Overridden(isos, j))
  {
    if !Overridden(isos, j) { IdentityTarget(isos, j); }
  }

  /** The entry of an overridden interrupt carries that interrupt exactly when the second loop does not skip
      it, or no other ISA interrupt has the number of its gsi. */
  lemma OverriddenExactly(isos: seq<Iso>, i: nat)
    requires Injective(isos) && i < 16 && Overridden(isos, i)
    ensures var g := Target(isos, i);
      Final(isos, g) == By(i) <==> Active(isos, i) || g >= 16 || Overridden(isos, g)
  {
    var g := Target(isos, i);
    var n := 16;
    FirstLoopLast(isos, g, n);
    SecondLoopLast(isos, g, n);
    forall j | 0 <= j < 16 && Target(isos, j) == g ensures j == i || (j == g && !Overridden(isos, g)) { Senders(isos, i, j); }
    if g < 16 && !Overridden(isos, g) {
      IdentityTarget(isos, g);
      if Active(isos, i) {
        LaterSkipped(isos, i, g);
      } else {
        IdentityActive(isos, i, g);
        assert Active(isos, g) && Target(isos, g) == g && g < n && g != i;
      }
    }
  }

  /** Where the condition fails the entry goes to the interrupt that has the number of the gsi. */
  lemma LostTo(isos: seq<Iso>, i: nat)
    requires Injective(isos) && i < 16 && Overridden(isos, i) && !Active(isos, i)
    requires Target(isos, i) < 16 && !Overridden(isos, Target(isos, i))
    ensures Final(isos, Target(isos, i)) == By(Target(isos, i))
  {
    var g := Target(isos, i);
    var n := 16;
    SecondLoopLast(isos, g, n);
    IdentityTarget(isos, g);
    IdentityActive(isos, i, g);
    forall j | 0 <= j < 16 && Target(isos, j) == g ensures j == i || j == g { Senders(isos, i, j); }
    assert Active(isos, g) && Target(isos, g) == g && g < n;
  }

  /** With interrupt 0 at gsi 5 and interrupt 5 at gsi 3, interrupt 5 is skipped, and the entry of gsi 3 goes
      to interrupt 3. */
  lemma LosesItsEntry()
    ensures var isos := [Iso(0, 5, 0), Iso(5, 3, 0)];
      Injective(isos) && Overridden(isos, 5) && Target(isos, 5) == 3 && Final(isos, 3) == By(3)
  {
    var isos := [Iso(0, 5, 0), Iso(5, 3, 0)];
    assert isos[0].irqSrc == 0 && isos[1].irqSrc == 5;
    assert Target(isos, 0) == 5 && Target(isos, 5) == 3;
    assert Active(isos, 0) && !Active(isos, 5);
    LostTo(isos, 5);
  }

  /** An active interrupt marks its gsi, so that a later interrupt of that number is skipped. */
  lemma LaterSkipped(isos: seq<Iso>, i: nat, g: nat)
    requires Active(isos, i) && Target(isos, i) == g
    ensures g > i ==> !Active(isos, g)
  {
  }

  /** When the overridden interrupt is skipped, nothing has marked the one whose place it takes. */
  lemma IdentityActive(isos: seq<Iso>, i: nat, g: nat)
    requires Injective(isos) && i < 16 && g < 16 && Overridden(isos, i) && !Overridden(isos, g)
    requires Target(isos, i) == g && !Active(isos, i)
    ensures Active(isos, g)
  {
    forall j | 0 <= j < g && Active(isos, j) ensures Target(isos, j) != g {
      if Target(isos, j) == g { Senders(isos, i, j); }
    }
  }

  /** An interrupt that is not overridden, and that no override is sent to, keeps its own entry. */
  lemma IdentityKept(isos: seq<Iso>, i: nat)
    requires i < 16 && !Overridden(isos, i)
    requires forall j :: 0 <= j < 16 && Overridden(isos, j) ==> Target(isos, j) != i
    ensures Final(isos, i) == By(i)
  {
    var n := 16;
    IdentityTarget(isos, i);
    FirstLoopLast(isos, i, n);
    SecondLoopLast(isos, i, n);
    forall j | 0 <= j < 16 && j != i ensures Target(isos, j) != i {
      if !Overridden(isos, j) { IdentityTarget(isos, j); }
    }
    assert Target(isos, i) == i && FirstLoop(isos, i, n) == By(i);
  }

  /** With no overridden interrupt as another's target, every overridden one is handled. */
  lemma {:induction false} AllHandled(isos: seq<Iso>, i: nat)
    requires Injective(isos) && i < 16 && Overridden(isos, i)
    requires forall j :: 0 <= j < 16 && j != i && Overridden(isos, j) ==> Target(isos, j) != i
    ensures Active(isos, i) && Final(isos, Target(isos, i)) == By(i)
  {
    forall j | 0 <= j < i ensures Target(isos, j) != i {
      if !Overridden(isos, j) { IdentityTarget(isos, j); }
    }
    OverriddenExactly(isos, i);
  }
}
