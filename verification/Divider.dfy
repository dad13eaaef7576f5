/** The clocked divider of the ALU: restoring division, one quotient bit at each clock edge, and a done
    signal that is high for one cycle.  Its results are those of the simulator. */
module Divider {
  import opened Arithmetic
  import opened Bytes
  import opened Words
  import opened Division

  /** The inputs of the ALU between two clock edges. */
  datatype Inputs = Inputs(in1: Word, in2: Word, isImm: bool, ready: bool, funct3: nat, funct7: nat) {

    predicate IsMExtension() {
      !isImm && funct7 == FUNCT7_M
    }

    predicate IsDivision() {
      IsMExtension() && 4 <= funct3 <= 7
    }

    predicate IsSigned() {
      funct3 == 4 || funct3 == 6
    }

    predicate NegativeDividend() {
      in1 >= 0x8000_0000 && IsSigned()
    }

    predicate NegativeDivisor() {
      in2 >= 0x8000_0000 && IsSigned()
    }

    function DividendMagnitude(): Word {
      if NegativeDividend() then Negate(in1) else in1
    }

    function DivisorMagnitude(): Word {
      if NegativeDivisor() then Negate(in2) else in2
    }

    /** The operands and the operation are the same; `ready` may differ. */
    predicate SameOperation(i: Inputs) {
      in1 == i.in1 && in2 == i.in2 && isImm == i.isImm && funct3 == i.funct3 && funct7 == i.funct7
    }
  }

  /** The registers. */
  datatype State = State(divisor: nat, remainder: Word, quotient: Word, bitctr: nat, doneLatch: bool) {

    predicate DivisionDone() {
      bitctr == 0
    }

    /** The done output. */
    predicate Done(i: Inputs) {
      if i.IsDivision() then DivisionDone() && !doneLatch else true
    }

    function QuotientOut(i: Inputs): Word {
      if i.NegativeDividend() != i.NegativeDivisor() && i.in2 != 0 then Negate(quotient) else quotient
    }

    function RemainderOut(i: Inputs): Word {
      if i.NegativeDividend() then Negate(remainder) else remainder
    }
  }

  const INITIAL := State(0, 0, 0, 0, true)

  /** The registers after a clock edge. */
  function Next(s: State, i: Inputs): State {
    var latched := s.(doneLatch := s.DivisionDone());
    if !i.IsDivision() then latched
    else if s.DivisionDone() then
      if i.ready
      then latched.(remainder := i.DividendMagnitude(), divisor := i.DivisorMagnitude() * 0x8000_0000,
                    quotient := 0, bitctr := 32)
      else latched
    else
      var fits := s.divisor <= s.remainder;
      latched.(remainder := if fits then Wrap(s.remainder - s.divisor % TWO32) else s.remainder,
               quotient := Wrap(2 * s.quotient + if fits then 1 else 0),
               divisor := s.divisor / 2,
               bitctr := s.bitctr - 1)
  }

  /** The registers as the hardware updates them. */
  class DividerRegisters {
    var divisor: nat
    var remainder: Word
    var quotient: Word
    var bitctr: nat
    var doneLatch: bool

    function Current(): State
      reads this
    {
      State(divisor, remainder, quotient, bitctr, doneLatch)
    }

    constructor ()
      ensures Current() == INITIAL
    {
      divisor, remainder, quotient, bitctr, doneLatch := 0, 0, 0, 0, true;
    }

    /** All assignments of a clock edge take the values from before it. */
    method ClockEdge(i: Inputs)
      modifies this
      ensures Current() == Next(old(Current()), i)
    {
      var divisionDone := bitctr == 0;
      if i.IsDivision() {
        if divisionDone {
          if i.ready {
            remainder := i.DividendMagnitude();
            divisor := i.DivisorMagnitude() * 0x8000_0000;
            quotient := 0;
            bitctr := 32;
          }
        } else {
          var fits := divisor <= remainder;
          remainder, quotient, divisor, bitctr :=
            if fits then Wrap(remainder - divisor % TWO32) else remainder,
            Wrap(2 * quotient + if fits then 1 else 0),
            divisor / 2,
            bitctr - 1;
        }
      }
      doneLatch := divisionDone;
    }
  }

  // ----- one division

  /** The registers `k` division edges after the edge that accepted the operands of `i`. */
  ghost predicate Dividing(s: State, i: Inputs, k: nat) {
    && k <= 32
    && s.bitctr == 32 - k
    && (s.remainder, s.quotient) == Restore(i.DividendMagnitude(), i.DivisorMagnitude(), 32, k)
    && (k < 32 ==> s.divisor == i.DivisorMagnitude() * Pow2(31 - k))
  }

  lemma Accepted(s: State, i: Inputs)
    requires i.IsDivision() && s.DivisionDone() && i.ready
    ensures Dividing(Next(s, i), i, 0)
  {
    Pow2Of32();
  }

  /** A division edge divides on, whatever the operands are by then: they are in the registers. */
  lemma DividingStep(s: State, i: Inputs, i': Inputs, k: nat)
    requires Dividing(s, i, k) && k < 32 && i'.IsDivision()
    ensures Dividing(Next(s, i'), i, k + 1)
  {
    hide Pow2, Restore, Inputs.DividendMagnitude, Inputs.DivisorMagnitude, Wrap;
    var d, v := i.DividendMagnitude(), i.DivisorMagnitude();
    RestoreStep(d, v, 32, k, s.divisor);
    QuotientFits(d, v, k + 1);
    var (rem, quo) := Restore(d, v, 32, k);
    var fits := s.divisor <= rem;
    WrapWord(2 * quo + if fits then 1 else 0);
    if fits {
      WrapWord(rem - s.divisor);
      assert s.divisor % TWO32 == s.divisor;
    }
  }

  lemma QuotientFits(d: nat, v: nat, k: nat)
    requires k <= 32
    ensures Restore(d, v, 32, k).1 < TWO32
  {
    hide Pow2, Restore;
    RestoreInvariant(d, v, 32, k);
    Pow2Grows(k, 32);
    Pow2Of32();
  }

  /** The simulator's division instructions. */
  lemma GoldenDivision(funct3: nat, a: Word, b: Word)
    requires 4 <= funct3 <= 7
    ensures OpResult(funct3, FUNCT7_M, a, b)
         == if b == 0 then (if funct3 <= 5 then ALL_ONES else a)
            else if funct3 == 4 then Wrap(TruncDiv(Signed(a), Signed(b)))
            else if funct3 == 5 then Wrap(a / b)
            else if funct3 == 6 then Wrap(TruncMod(Signed(a), Signed(b)))
            else Wrap(a % b)
  {
  }

  lemma Magnitudes(i: Inputs)
    ensures i.IsSigned() ==>
      i.DividendMagnitude() == Magnitude(Signed(i.in1)) && i.DivisorMagnitude() == Magnitude(Signed(i.in2))
    ensures !i.IsSigned() ==> i.DividendMagnitude() == i.in1 && i.DivisorMagnitude() == i.in2
    ensures i.DivisorMagnitude() == 0 <==> i.in2 == 0
  {
  }

  /** At the end the registers hold the quotient and the remainder of the magnitudes. */
  lemma MagnitudesDivided(s: State, i: Inputs)
    requires Dividing(s, i, 32)
    ensures var d, v := i.DividendMagnitude(), i.DivisorMagnitude();
      if v == 0 then s.quotient == ALL_ONES && s.remainder == d else s.quotient == d / v && s.remainder == d % v
  {
    hide Pow2, Restore, Inputs.DividendMagnitude, Inputs.DivisorMagnitude;
    var d, v := i.DividendMagnitude(), i.DivisorMagnitude();
    Pow2Of32();
    if v == 0 {
      RestoreInvariant(d, v, 32, 32);
    } else {
      MulOrder(1, v, TWO32);
      RestoreDivides(d, v, 32);
    }
  }

  /** At the end of a division the outputs are the simulator's results, zero divisor and overflow included. */
  lemma DivisionResult(s: State, i: Inputs)
    requires i.IsDivision() && Dividing(s, i, 32)
    ensures (if i.funct3 == 4 || i.funct3 == 5 then s.QuotientOut(i) else s.RemainderOut(i))
         == OpResult(i.funct3, FUNCT7_M, i.in1, i.in2)
  {
    hide OpResult, Restore, Dividing, Inputs.DividendMagnitude, Inputs.DivisorMagnitude, TruncDiv, TruncMod, Wrap;
    GoldenDivision(i.funct3, i.in1, i.in2);
    MagnitudesDivided(s, i);
    Magnitudes(i);
    if i.in2 == 0 {
      DividedByZero(s, i);
    } else if i.IsSigned() {
      SignedResult(i.in1, i.in2, s.quotient, s.remainder);
    } else {
      UnsignedResult(i.in1, i.in2);
    }
  }

  lemma DividedByZero(s: State, i: Inputs)
    requires i.in2 == 0 && s.quotient == ALL_ONES && s.remainder == i.DividendMagnitude()
    ensures s.QuotientOut(i) == ALL_ONES && s.RemainderOut(i) == i.in1
  {
  }

  lemma UnsignedResult(a: Word, b: Word)
    requires b != 0
    ensures Wrap(a / b) == a / b && Wrap(a % b) == a % b
  {
    QuotientSmaller(a, b);
    DivMod(a, b);
  }

  lemma NegateIsWrap(x: Word)
    ensures Negate(x) == Wrap(0 - x)
  {
  }

  lemma WrapWord(x: Word)
    ensures Wrap(x) == x
  {
  }

  lemma SignedResult(a: Word, b: Word, quo: Word, rem: Word)
    requires b != 0
    requires quo == Magnitude(Signed(a)) / Magnitude(Signed(b)) && rem == Magnitude(Signed(a)) % Magnitude(Signed(b))
    ensures (if (a >= 0x8000_0000) != (b >= 0x8000_0000) then Negate(quo) else quo)
         == Wrap(TruncDiv(Signed(a), Signed(b)))
    ensures (if a >= 0x8000_0000 then Negate(rem) else rem) == Wrap(TruncMod(Signed(a), Signed(b)))
  {
    hide Wrap, TruncMod, TruncDiv, Negate;
    var x, y := Signed(a), Signed(b);
    SignedParts(x, y);
    if x == 0 {
      ZeroDivided(Magnitude(y));
    }
    NegateIsWrap(quo);
    NegateIsWrap(rem);
    WrapWord(quo);
    WrapWord(rem);
  }

  // ----- whole runs

  /** The state before edge number `t` of a run from power-on. */
  function Run(inputs: nat -> Inputs, t: nat): State {
    if t == 0 then INITIAL else Next(Run(inputs, t - 1), inputs(t - 1))
  }

  /** Edge `t` accepts the operands of a division. */
  predicate Accepts(inputs: nat -> Inputs, t: nat) {
    inputs(t).IsDivision() && Run(inputs, t).DivisionDone() && inputs(t).ready
  }

  /** The number of edges from `first` to `last - 1` in a division instruction. */
  function DivisionEdges(inputs: nat -> Inputs, first: nat, last: nat): (n: nat)
    requires first <= last
    decreases last
  {
    if first == last then 0
    else DivisionEdges(inputs, first, last - 1) + if inputs(last - 1).IsDivision() then 1 else 0
  }

  /** The last edge before cycle `u` is the 32nd division edge after edge `t` has accepted operands. */
  ghost predicate Completes(inputs: nat -> Inputs, t: nat, u: nat) {
    t + 1 < u && Accepts(inputs, t) && inputs(u - 1).IsDivision() && DivisionEdges(inputs, t + 1, u) == 32
  }

  lemma RunStep(inputs: nat -> Inputs, t: nat)
    ensures Run(inputs, t + 1) == Next(Run(inputs, t), inputs(t))
  {
  }

  lemma EdgeStep(inputs: nat -> Inputs, first: nat, last: nat)
    requires first <= last
    ensures DivisionEdges(inputs, first, first) == 0
    ensures DivisionEdges(inputs, first, last + 1)
         == DivisionEdges(inputs, first, last) + if inputs(last).IsDivision() then 1 else 0
  {
  }

  /** An edge outside division instructions leaves a running division as it is. */
  lemma StalledStep(s: State, i: Inputs, i': Inputs, k: nat)
    requires Dividing(s, i, k) && !i'.IsDivision()
    ensures Dividing(Next(s, i'), i, k)
  {
    hide Restore, Pow2;
  }

  /** After an accepting edge the division goes on at each division edge, up to the 32nd. */
  lemma {:induction false} DivisionRuns(inputs: nat -> Inputs, t: nat, u: nat)
    requires t < u && Accepts(inputs, t)
    requires var k := DivisionEdges(inputs, t + 1, u);
      k < 32 || (k == 32 && u > t + 1 && inputs(u - 1).IsDivision())
    ensures Dividing(Run(inputs, u), inputs(t), DivisionEdges(inputs, t + 1, u))
    decreases u
  {
    hide Dividing, Next, Run, DivisionEdges;
    RunStep(inputs, u - 1);
    if u == t + 1 {
      EdgeStep(inputs, u, u);
      AcceptsWhenIdle(inputs, t);
      Accepted(Run(inputs, t), inputs(t));
    } else {
      var s, k := Run(inputs, u - 1), DivisionEdges(inputs, t + 1, u - 1);
      EdgeStep(inputs, t + 1, u - 1);
      DivisionRuns(inputs, t, u - 1);
      if inputs(u - 1).IsDivision() {
        DividingStep(s, inputs(t), inputs(u - 1), k);
      } else {
        StalledStep(s, inputs(t), inputs(u - 1), k);
      }
    }
  }

  /** How an edge changes the counter and the latch. */
  lemma CounterStep(s: State, i: Inputs)
    ensures Next(s, i).doneLatch == (s.bitctr == 0)
    ensures s.bitctr == 0 && !(i.IsDivision() && i.ready) ==> Next(s, i).bitctr == 0
    ensures s.bitctr == 0 && i.IsDivision() && i.ready ==> Next(s, i).bitctr == 32
    ensures s.bitctr > 0 ==> Next(s, i).bitctr == s.bitctr - if i.IsDivision() then 1 else 0
  {
  }

  lemma AcceptsWhenIdle(inputs: nat -> Inputs, t: nat)
    ensures Accepts(inputs, t) <==> inputs(t).IsDivision() && inputs(t).ready && Run(inputs, t).bitctr == 0
  {
  }

  lemma CounterOf(s: State, i: Inputs, k: nat)
    requires Dividing(s, i, k)
    ensures s.bitctr == 32 - k
  {
  }

  /** In every run, while the counter is not zero some edge has accepted operands, and the counter tells how many
      division edges there have been since. */
  lemma {:induction false} CounterTellsStart(inputs: nat -> Inputs, u: nat) returns (t: nat)
    requires Run(inputs, u).bitctr > 0
    ensures t < u && Accepts(inputs, t)
    ensures DivisionEdges(inputs, t + 1, u) + Run(inputs, u).bitctr == 32
    decreases u
  {
    hide Next, Accepts, Inputs.IsDivision, DivisionEdges;
    assert u > 0;
    hide Run;
    var s := Run(inputs, u - 1);
    RunStep(inputs, u - 1);
    CounterStep(s, inputs(u - 1));
    if s.bitctr == 0 {
      AcceptsWhenIdle(inputs, u - 1);
      EdgeStep(inputs, u, u);
      t := u - 1;
    } else {
      t := CounterTellsStart(inputs, u - 1);
      EdgeStep(inputs, t + 1, u - 1);
    }
  }

  /** When a division completes the counter has just become zero. */
  lemma CompletesDone(inputs: nat -> Inputs, t: nat, u: nat)
    requires Completes(inputs, t, u)
    ensures Dividing(Run(inputs, u), inputs(t), 32) && Run(inputs, u).bitctr == 0 && !Run(inputs, u).doneLatch
  {
    hide Dividing, Next, Run, DivisionEdges, Accepts, Inputs.IsDivision;
    EdgeStep(inputs, t + 1, u - 1);
    DivisionRuns(inputs, t, u - 1);
    CounterOf(Run(inputs, u - 1), inputs(t), 31);
    DivisionRuns(inputs, t, u);
    CounterOf(Run(inputs, u), inputs(t), 32);
    RunStep(inputs, u - 1);
    CounterStep(Run(inputs, u - 1), inputs(u - 1));
  }

  /** When the counter has just become zero a division completes. */
  lemma DoneCompletes(inputs: nat -> Inputs, u: nat) returns (t: nat)
    requires Run(inputs, u).bitctr == 0 && !Run(inputs, u).doneLatch
    ensures Completes(inputs, t, u)
  {
    hide Next, DivisionEdges, Accepts, Inputs.IsDivision;
    assert u > 0;
    hide Run;
    RunStep(inputs, u - 1);
    CounterStep(Run(inputs, u - 1), inputs(u - 1));
    t := CounterTellsStart(inputs, u - 1);
    EdgeStep(inputs, t + 1, u - 1);
    EdgeStep(inputs, t + 1, t + 1);
  }

  /** In every run, during a division instruction the done signal is high exactly when the last edge was the 32nd
      division edge after one that accepted operands; and then the outputs are the simulator's result, if the
      operation is that of the accepting edge. */
  lemma DoneWhenComplete(inputs: nat -> Inputs, u: nat)
    requires inputs(u).IsDivision()
    ensures Run(inputs, u).Done(inputs(u)) <==> exists t :: Completes(inputs, t, u)
    ensures forall t: nat | Completes(inputs, t, u) && inputs(u).SameOperation(inputs(t)) ::
      (if inputs(u).funct3 == 4 || inputs(u).funct3 == 5 then Run(inputs, u).QuotientOut(inputs(u))
       else Run(inputs, u).RemainderOut(inputs(u)))
      == OpResult(inputs(u).funct3, FUNCT7_M, inputs(u).in1, inputs(u).in2)
  {
    hide Run, Completes, Dividing, OpResult, State.QuotientOut, State.RemainderOut, Inputs.SameOperation;
    if Run(inputs, u).Done(inputs(u)) {
      var t := DoneCompletes(inputs, u);
    }
    forall t: nat | Completes(inputs, t, u)
      ensures Run(inputs, u).Done(inputs(u))
      ensures Dividing(Run(inputs, u), inputs(t), 32)
    {
      CompletesDone(inputs, t, u);
    }
    forall t: nat | Completes(inputs, t, u) && inputs(u).SameOperation(inputs(t))
      ensures (if inputs(u).funct3 == 4 || inputs(u).funct3 == 5 then Run(inputs, u).QuotientOut(inputs(u))
               else Run(inputs, u).RemainderOut(inputs(u)))
           == OpResult(inputs(u).funct3, FUNCT7_M, inputs(u).in1, inputs(u).in2)
    {
      CompletesDone(inputs, t, u);
      SameDivision(Run(inputs, u), inputs(t), inputs(u));
      DivisionResult(Run(inputs, u), inputs(u));
    }
  }

  lemma {:induction false} EdgesGrow(inputs: nat -> Inputs, first: nat, last: nat, last': nat)
    requires first <= last <= last'
    ensures DivisionEdges(inputs, first, last) <= DivisionEdges(inputs, first, last')
    decreases last'
  {
    if last < last' {
      EdgesGrow(inputs, first, last, last' - 1);
    }
  }

  /** Each accepting edge completes at most once, and no two complete together. */
  lemma DoneOncePerStart(inputs: nat -> Inputs, t: nat, u: nat, t': nat, u': nat)
    requires Completes(inputs, t, u) && Completes(inputs, t', u')
    ensures t == t' <==> u == u'
  {
    hide Accepts, Inputs.IsDivision;
    if t == t' {
      if u < u' {
        EdgesGrow(inputs, t + 1, u, u' - 1);
      } else if u' < u {
        EdgesGrow(inputs, t + 1, u', u - 1);
      }
    } else if t < t' {
      NotAcceptedMeanwhile(inputs, t, u, t');
    } else {
      NotAcceptedMeanwhile(inputs, t', u', t);
    }
  }

  lemma NotAcceptedMeanwhile(inputs: nat -> Inputs, t: nat, u: nat, v: nat)
    requires Completes(inputs, t, u) && t < v && Accepts(inputs, v)
    ensures v >= u
  {
    hide Dividing, Run, Accepts, Inputs.IsDivision;
    if v < u {
      EdgesGrow(inputs, t + 1, v, u - 1);
      DivisionRuns(inputs, t, v);
      CounterOf(Run(inputs, v), inputs(t), DivisionEdges(inputs, t + 1, v));
      AcceptsWhenIdle(inputs, v);
    }
  }

  ghost predicate Held(inputs: nat -> Inputs, t: nat) {
    forall u | t < u <= t + 33 :: inputs(u).SameOperation(inputs(t))
  }

  lemma {:induction false} HeldEdges(inputs: nat -> Inputs, t: nat, k: nat)
    requires inputs(t).IsDivision() && Held(inputs, t) && k <= 32
    ensures DivisionEdges(inputs, t + 1, t + 1 + k) == k
  {
    if k > 0 {
      HeldEdges(inputs, t, k - 1);
      EdgeStep(inputs, t + 1, t + k);
      assert inputs(t + k).SameOperation(inputs(t));
    }
  }

  /** With operands and operation held after an accepting edge, whatever the run does otherwise, done is low for 32
      cycles and high in the next, and then the outputs are the simulator's result. */
  lemma DoneExactlyOnce(inputs: nat -> Inputs, t: nat)
    requires Accepts(inputs, t) && Held(inputs, t)
    ensures forall u | t < u <= t + 33 :: Run(inputs, u).Done(inputs(u)) <==> u == t + 33
    ensures var s, i := Run(inputs, t + 33), inputs(t);
      (if i.funct3 == 4 || i.funct3 == 5 then s.QuotientOut(i) else s.RemainderOut(i))
      == OpResult(i.funct3, FUNCT7_M, i.in1, i.in2)
  {
    hide Next, OpResult, Run, Dividing, State.QuotientOut, State.RemainderOut, DivisionEdges;
    forall u | t < u <= t + 33
      ensures Dividing(Run(inputs, u), inputs(t), u - t - 1)
      ensures Run(inputs, u).bitctr == t + 33 - u
    {
      HeldEdges(inputs, t, u - t - 1);
      assert u > t + 1 ==> inputs(u - 1).SameOperation(inputs(t));
      DivisionRuns(inputs, t, u);
      CounterOf(Run(inputs, u), inputs(t), u - t - 1);
    }
    RunStep(inputs, t + 32);
    CounterStep(Run(inputs, t + 32), inputs(t + 32));
    DivisionResult(Run(inputs, t + 33), inputs(t));
  }

  lemma SameDivision(s: State, i: Inputs, i': Inputs)
    requires i'.SameOperation(i) && Dividing(s, i, 32)
    ensures Dividing(s, i', 32)
  {
    hide Restore, Pow2;
  }
}
