# kodkod bit-vector integers, binding environments and instances

This project models three pieces of the kodkod relational model finder:

- **`TwosComplementInt`**: the integer encoding the translator uses when it turns
  a relational formula into a boolean circuit. An integer is a
  least-significant-bit-first vector of circuit nodes, at least one and at most
  `bitwidth` of them. Reading a position at or past the width gives the sign
  bit. Each arithmetic, comparison and bitwise operation builds a new vector
  out of full adders and gates:
  - ripple-carry addition and subtraction;
  - shift-and-add multiplication, whose last row is subtracted;
  - non-restoring division on a circular register of `2*bitwidth+1` bits;
  - barrel shifters;
  - pairwise tree reductions for the n-ary sum and product;
  - n-ary gates for the bitwise `and` and `or`.
- **`Environment`**: the persistent chain of variable bindings used while
  translating quantified formulas. Lookup walks from the innermost frame
  outwards, and the first binding found wins.
- **`Instance`**: the map from relations, and from integers, to the tuple sets
  bound to them. Both `add` operations check the tuple set first.

A circuit node is the `Circuit.Node` datatype, and `Circuit.Eval` gives its
meaning under an assignment of truth values to variables. Every theorem about a
constructed vector is stated under EVERY assignment. In each, the vector's
two's-complement reading (`BitVector.EvalInt`) is related to integer arithmetic
on the operands' readings. Results that the code truncates to `bitwidth` bits
are compared through `Arith.Wrap(x, w)`: the one value in
`[-2^(w-1), 2^(w-1))` congruent to `x` modulo `2^w`.

Modules, in dependency order:

- `Results`: the exceptions the code throws, `Result` and `Option`.
- `Arith`: powers of two, unsigned and two's-complement readings of bit strings, `Wrap`.
- `Circuit`: nodes, gates, and the tree-gate accumulator with its short circuit.
- `Adder`: the ripple-carry adder, on nodes and on truth values.
- `BitVector`: the vector, the literal constructor, `bit`, `extend`, `value`, `isConstant`, `twosComplementBits`.
- `Compare`: `eq`, `lte`, `lt`.
- `AddSub`: `plus`, `minus`, `negate`.
- `Multiply`: `addAndCarry` and `multiply`, as written and corrected.
- `Bitwise`: `and`, `or`, `xor`, `not`, `choice`, `abs`, `sgn`.
- `Shift`: `shl`, `shr`, `sha`.
- `Reduce`: both private `apply` reductions and the n-ary `plus`, `multiply` (as written and with the corrected binary multiplication), `and`, `or`.
- `DivisionTheory`: the non-restoring recurrence on integers, and why the final correction is right.
- `RingBuffer`: the circular register, its logical reading and the in-place adder.
- `DivisionCircuit`: one step of the register as a circuit, and what it computes.
- `Division`: `nonRestoringDivision`, `divide`, `modulo`.
- `Environments`: `Environment`.
- `Instances`: `Instance`.

Where the code computes in place on an array, the model is a method that
returns the new sequence. Its loop invariants say what the array holds after
each step. Where a loop only builds a value, the model is a function, and a
lemma states what that value means.

## Model

| member | source | states |
|---|---|---|
| BitVector.Literal | src/kodkod/engine/bool/TwosComplementInt.java:61-68 | the literal is a valid vector of the literal width, and every bit is FALSE or the selector bit |
| BitVector.LiteralWidthMinimal | src/kodkod/engine/bool/TwosComplementInt.java:75-82 | the literal width lies in [1, bitwidth]; the number fits it unless it was clamped to bitwidth; no narrower width holds the number |
| BitVector.Width | src/kodkod/engine/bool/TwosComplementInt.java:120-122 | the width is the number of bits; the value fits that width in two's complement under every assignment, and every index from the width on reads the top bit |
| BitVector.LiteralValue | src/kodkod/engine/bool/TwosComplementInt.java:61-82 | under any assignment, a literal reads as the number wrapped to bitwidth where the selector holds, and as 0 elsewhere |
| BitVector.LiteralRoundTrip | src/kodkod/engine/bool/TwosComplementInt.java:128-140 | value() of a literal selected by TRUE gives back any number that fits the bitwidth |
| BitVector.IsConstant | src/kodkod/engine/bool/TwosComplementInt.java:88-95 | true exactly when every bit is a constant, which is exactly when value() succeeds |
| BitVector.Value | src/kodkod/engine/bool/TwosComplementInt.java:128-140 | succeeds exactly when every bit is constant, and then agrees with the reading under every assignment; otherwise fails with IllegalState |
| BitVector.ConstUnsigned | src/kodkod/engine/bool/TwosComplementInt.java:129-135 | the low bits' weighted sum succeeds exactly on constant bits and equals their unsigned reading under every assignment; otherwise IllegalState |
| BitVector.BitValue | src/kodkod/engine/bool/TwosComplementInt.java:149-151 | bit i, evaluated, is position i of the evaluated bits sign-extended to any width past i, so indices past the width read the sign |
| BitVector.Extend | src/kodkod/engine/bool/TwosComplementInt.java:291-302 | the extended array has the requested length and holds bit i of the vector at every position i |
| BitVector.ExtendBits | src/kodkod/engine/bool/TwosComplementInt.java:291-302 | evaluated, the extended array is the sign extension of the evaluated bits |
| BitVector.ExtendValue | src/kodkod/engine/bool/TwosComplementInt.java:284-302 | extension keeps the integer the vector denotes |
| BitVector.TwosComplementBits | src/kodkod/engine/bool/TwosComplementInt.java:102-113 | the bit list has exactly bitwidth entries and denotes the same integer as the vector |
| BitVector.TwosComplementBitsGet | src/kodkod/engine/bool/TwosComplementInt.java:104-109 | element i exists exactly when 0 <= i < bitwidth and is then entry i of the list; otherwise IndexOutOfBounds |
| Circuit.Add | src/kodkod/engine/bool/TwosComplementInt.java:161-162 | an accumulator becomes short-circuited exactly when it already was or the input is its absorbing constant |
| Circuit.AddAllMeaning | src/kodkod/engine/bool/TwosComplementInt.java:159-164 | a tree gate fed a list of nodes means the conjunction (or disjunction) of those nodes under every assignment |
| Circuit.AddAllStaysShorted | src/kodkod/engine/bool/TwosComplementInt.java:641 | once an accumulator is short-circuited, feeding it more inputs keeps it short-circuited, so stopping early is sound |
| Circuit.AccumulateMeaning | src/kodkod/engine/bool/TwosComplementInt.java:164 | the node an accumulator finalises to means what the accumulator denotes |
| Circuit.Reduce | src/kodkod/engine/bool/TwosComplementInt.java:330 | the gate over a list of nodes evaluates to the conjunction or disjunction of the list |
| Adder.RippleValue | src/kodkod/engine/bool/TwosComplementInt.java:207-213 | the sum bits and the carry out of the ripple adder hold the exact unsigned sum of both inputs and the carry in |
| Adder.AddBitsValue | src/kodkod/engine/bool/TwosComplementInt.java:209-213 | the adder on truth values computes the exact unsigned sum, carry out included |
| Adder.RippleEval | src/kodkod/engine/bool/TwosComplementInt.java:209-213 | the adder circuit, evaluated, is the adder on the evaluated inputs |
| Adder.RippleWrap | src/kodkod/engine/bool/TwosComplementInt.java:204-215 | the sum bits alone read as the two's-complement sum wrapped to the adder's width |
| Compare.Eq | src/kodkod/engine/bool/TwosComplementInt.java:157-165 | the result holds exactly when the operands are equal, and the early FALSE return yields the same node as accumulating every column |
| Compare.IffColumnMeaning | src/kodkod/engine/bool/TwosComplementInt.java:159-163 | all columns agree exactly when the operands denote the same integer |
| Compare.ExtendedEqual | src/kodkod/engine/bool/TwosComplementInt.java:160-161 | at the wider width the sign-extended operands agree bit for bit exactly when their values are equal |
| Compare.Lte | src/kodkod/engine/bool/TwosComplementInt.java:185-197 | the result holds exactly when the first operand is at most the second, under every assignment |
| Compare.LtePosition | src/kodkod/engine/bool/TwosComplementInt.java:191-195 | one loop iteration adds the next position's term and extends the "higher bits agree" node by one position |
| Compare.LteTerms | src/kodkod/engine/bool/TwosComplementInt.java:189-193 | the terms are the sign test followed by one implication per lower position, in the order the loop adds them |
| Compare.LteTermsMeaning | src/kodkod/engine/bool/TwosComplementInt.java:187-196 | every term holds exactly when the extended operands are ordered, sign bit first, then lexicographically |
| Compare.TermsGiveOrder | src/kodkod/engine/bool/TwosComplementInt.java:187-196 | if every term holds, the operands are ordered |
| Compare.OrderGivesTerms | src/kodkod/engine/bool/TwosComplementInt.java:187-196 | if the operands are ordered, every term holds |
| Compare.LteMeaningAll | src/kodkod/engine/bool/TwosComplementInt.java:185-197 | the conjunction of the terms means signed less-or-equal on the values |
| Compare.Lt | src/kodkod/engine/bool/TwosComplementInt.java:171-178 | the result holds exactly when the first operand is less than the second, under every assignment |
| Compare.XorColumnMeaning | src/kodkod/engine/bool/TwosComplementInt.java:173-176 | some column differs exactly when the operands denote different integers |
| AddSub.Plus | src/kodkod/engine/bool/TwosComplementInt.java:204-215 | the sum is a valid vector of width min(max(w1, w2) + 1, bitwidth) |
| AddSub.PlusValue | src/kodkod/engine/bool/TwosComplementInt.java:204-215 | the sum reads as a + b wrapped to bitwidth, and is exact when the result is narrower than bitwidth |
| AddSub.PlusAtSumWidth | src/kodkod/engine/bool/TwosComplementInt.java:206 | the sum reads as a + b wrapped to the result's own width |
| AddSub.Minus | src/kodkod/engine/bool/TwosComplementInt.java:223-234 | the difference is a valid vector of width min(max(w1, w2) + 1, bitwidth) |
| AddSub.MinusValue | src/kodkod/engine/bool/TwosComplementInt.java:223-234 | the difference reads as a - b wrapped to bitwidth, and is exact when the result is narrower than bitwidth |
| AddSub.MinusAtSumWidth | src/kodkod/engine/bool/TwosComplementInt.java:225 | the difference reads as a - b wrapped to the result's own width |
| AddSub.NegatedValue | src/kodkod/engine/bool/TwosComplementInt.java:229 | the complemented subtrahend reads as -b - 1, so the carry in of 1 completes -b |
| AddSub.MinusUndoesPlus | src/kodkod/engine/bool/TwosComplementInt.java:204-234 | (a plus b) minus b reads as a under every assignment |
| AddSub.Negate | src/kodkod/engine/bool/TwosComplementInt.java:543-545 | the negation is a valid vector one bit wider than x, clamped to bitwidth |
| AddSub.NegateValue | src/kodkod/engine/bool/TwosComplementInt.java:543-545 | the negation reads as -x wrapped to bitwidth |
| AddSub.NegateInvolutive | src/kodkod/engine/bool/TwosComplementInt.java:543-545 | negating twice gives back the value, the most negative one included |
| Multiply.AddAndCarry | src/kodkod/engine/bool/TwosComplementInt.java:236-246 | only position index changes, and the new bit plus twice the carry out is the old bit plus the new bit plus the carry in |
| Multiply.PartialProducts | src/kodkod/engine/bool/TwosComplementInt.java:260-274 | after row 0 and the intermediate rows, the array is the partial product of those rows |
| Multiply.AddRow | src/kodkod/engine/bool/TwosComplementInt.java:268-273 | adding row i in place, one full adder per position, equals adding the row at offset i and dropping the carry out |
| Multiply.PartialProductValue | src/kodkod/engine/bool/TwosComplementInt.java:260-274 | after rows 0 .. i-1 the array reads as a's low i bits times b, modulo 2^width |
| Multiply.LastRowStep | src/kodkod/engine/bool/TwosComplementInt.java:276-277 | from width 2 up, adding the complemented last row with carry in 1 completes the product modulo 2^width |
| Multiply.MultiplyAsWritten | src/kodkod/engine/bool/TwosComplementInt.java:254-282 | multiplication as the code does it: correct modulo 2^bitwidth from result width 2 up, and always 0 at result width 1 |
| Multiply.ProductAsWrittenValue | src/kodkod/engine/bool/TwosComplementInt.java:254-282 | the as-written product's bits read as 0 at width 1, and as a * b wrapped to bitwidth from width 2 up |
| Multiply.ProductAsWrittenWrongAtWidthOne | src/kodkod/engine/bool/TwosComplementInt.java:261-277 | at bitwidth 1, -1 times -1 gives 0 as written, where the wrapped product is -1 and the corrected circuit gives -1 |
| Multiply.Multiply | src/kodkod/engine/bool/TwosComplementInt.java:254-282 | the product has width min(w1 + w2, bitwidth) and reads as a * b wrapped to bitwidth at every width |
| Multiply.ProductValue | src/kodkod/engine/bool/TwosComplementInt.java:254-282 | the corrected product's bits read as a * b wrapped to bitwidth |
| RingBuffer.Log | src/kodkod/engine/bool/TwosComplementInt.java:328-331 | logical position k of the register is the slot (o + k) mod n for start slot o and n slots, i.e. (sleft + k) mod (2w+1) in the division |
| RingBuffer.SlotInjective | src/kodkod/engine/bool/TwosComplementInt.java:331 | different logical positions live in different slots |
| RingBuffer.LogShift | src/kodkod/engine/bool/TwosComplementInt.java:337-339 | clearing the top slot and making it the new bottom shifts the logical register left by one, a zero entering at the bottom |
| RingBuffer.AddInPlace | src/kodkod/engine/bool/TwosComplementInt.java:343-349 | the in-place loop over slots adds the row into the logical register at the given offset and leaves every other position alone |
| RingBuffer.CombineLog | src/kodkod/engine/bool/TwosComplementInt.java:330 | the OR over the physical slots is the OR over the logical register |
| DivisionCircuit.StepValue | src/kodkod/engine/bool/TwosComplementInt.java:333-349 | one step on the register computes the next partial remainder: doubled, then 2^w * d subtracted or added by the sign test |
| DivisionCircuit.StateValue | src/kodkod/engine/bool/TwosComplementInt.java:328-350 | the register after i steps reads as the i-th partial remainder of the recurrence |
| DivisionCircuit.QNodeValue | src/kodkod/engine/bool/TwosComplementInt.java:333-335 | the quotient bit of step i is the recurrence's digit: the partial remainder's sign equals the divisor's |
| DivisionCircuit.OrValue | src/kodkod/engine/bool/TwosComplementInt.java:330 | some bit of the register is set exactly when the partial remainder is non-zero |
| DivisionCircuit.QuotientValue | src/kodkod/engine/bool/TwosComplementInt.java:365-367 | shifting the quotient bits up and setting bit 0 gives the recurrence's digits as a w-bit two's-complement number |
| DivisionCircuit.HighPartValue | src/kodkod/engine/bool/TwosComplementInt.java:352 | the top w+1 bits of a register reading 2^w * r read as r |
| DivisionTheory.RemRange | src/kodkod/engine/bool/TwosComplementInt.java:341-349 | every partial remainder stays in [-2^w * abs(d), 2^w * abs(d)) and hits the bottom exactly when some earlier one was zero |
| DivisionTheory.NonRestoringCorrect | src/kodkod/engine/bool/TwosComplementInt.java:304-399 | after w steps and the correction, the quotient is a / d truncated toward zero and the remainder is Java's a % d |
| DivisionTheory.RegisterCorrection | src/kodkod/engine/bool/TwosComplementInt.java:355-361 | the correction may test the final register in place of the scaled remainder |
| DivisionTheory.CorrectionCases | src/kodkod/engine/bool/TwosComplementInt.java:369-392 | with the remainder's bounds, the +1, -1 or 0 adjustment turns the digits into the truncated quotient and remainder |
| DivisionTheory.QuotUnique | src/kodkod/engine/bool/TwosComplementInt.java:407-420 | truncated division is the only split of a into d * q + r with abs(r) < abs(d) and r zero or of a's sign |
| DivisionTheory.JRemBounds | src/kodkod/engine/bool/TwosComplementInt.java:417-420 | the remainder is smaller than the divisor in magnitude and is zero or of the dividend's sign |
| Division.DivStep | src/kodkod/engine/bool/TwosComplementInt.java:329-349 | one pass of the main loop: the new start slot, the register stepped once, the quotient bit and the zero test of the old register |
| Division.Advance | src/kodkod/engine/bool/TwosComplementInt.java:329-350 | one iteration keeps the loop's state: start slot 2w+1-i, register after i steps, quotient slots and zero tests written |
| Division.Iterate | src/kodkod/engine/bool/TwosComplementInt.java:328-353 | after w steps the start slot satisfies (sleft + w) mod (2w+1) == 0, each quotient slot holds its step's bit and the register holds the w-th partial remainder |
| Division.QuotientSlotsStep | src/kodkod/engine/bool/TwosComplementInt.java:335 | step i writes q[w-i-1] and leaves the slots already written alone |
| Division.AddAtBottom | src/kodkod/engine/bool/TwosComplementInt.java:374-392 | both correction loops (the quotient's and the remainder's over positions 0 .. width): the low positions become the ripple sum of the row with the carry in, and the positions above keep their bits |
| Division.Flags | src/kodkod/engine/bool/TwosComplementInt.java:355-361 | incorrect holds when some partial remainder was zero or the remainder is non-zero with the wrong sign; corrector when its sign is the divisor's |
| Division.ZeroTestsValue | src/kodkod/engine/bool/TwosComplementInt.java:358 | the zero tests are all set exactly when no partial remainder before the last was zero |
| Division.CorrectQuotient | src/kodkod/engine/bool/TwosComplementInt.java:363-380 | the corrected quotient reads as a / d truncated toward zero, wrapped to w bits, for every non-zero divisor |
| Division.CorrectRemainder | src/kodkod/engine/bool/TwosComplementInt.java:381-397 | the corrected remainder reads as Java's a % d for every non-zero divisor |
| Division.SignRowValue | src/kodkod/engine/bool/TwosComplementInt.java:369-378 | the quotient's correction row with its carry in reads as the adjustment due: -1 when incorrect and not corrector, +1 when incorrect and corrector, 0 otherwise |
| Division.CorrectionRowValue | src/kodkod/engine/bool/TwosComplementInt.java:383-392 | the remainder's correction row with its carry in reads as -(d times that adjustment), so adding it subtracts d when the quotient was incremented and adds d when it was decremented |
| Division.NonRestoringDivision | src/kodkod/engine/bool/TwosComplementInt.java:314-399 | bitwidth bits, reading as the wrapped truncated quotient or as the remainder, for every non-zero divisor |
| Division.Divide | src/kodkod/engine/bool/TwosComplementInt.java:407-410 | a / d truncated toward zero, wrapped to bitwidth, for every non-zero divisor |
| Division.Modulo | src/kodkod/engine/bool/TwosComplementInt.java:417-420 | Java's a % d for every non-zero divisor |
| Division.QuotientTimesDivisorPlusRemainder | src/kodkod/engine/bool/TwosComplementInt.java:407-420 | quotient times divisor plus remainder gives back the dividend in w-bit arithmetic, the wrapping MIN / -1 included |
| Division.RemainderFits | src/kodkod/engine/bool/TwosComplementInt.java:417-420 | the remainder always fits the bitwidth |
| Bitwise.Bitwise | src/kodkod/engine/bool/TwosComplementInt.java:442-480 | the gate applied per position is a valid vector of the wider operand's width |
| Bitwise.BitwiseBits | src/kodkod/engine/bool/TwosComplementInt.java:442-480 | every bit of the result, past the width included, is the gate on the operands' bits at that position |
| Bitwise.And | src/kodkod/engine/bool/TwosComplementInt.java:442-450 | the wider operand's width; under every assignment each result bit, past the width included, holds iff both operands' bits there hold |
| Bitwise.Or | src/kodkod/engine/bool/TwosComplementInt.java:457-465 | the wider operand's width; under every assignment each result bit, past the width included, holds iff either operand's bit there holds |
| Bitwise.Xor | src/kodkod/engine/bool/TwosComplementInt.java:472-480 | the wider operand's width; under every assignment each result bit, past the width included, holds iff exactly one operand's bit there holds |
| Bitwise.Not | src/kodkod/engine/bool/TwosComplementInt.java:552-559 | the complement keeps the width and reads as -x - 1 |
| Bitwise.NotAndIsOrNot | src/kodkod/engine/bool/TwosComplementInt.java:442-559 | the complement of a conjunction reads as the disjunction of the complements |
| Bitwise.Choice | src/kodkod/engine/bool/TwosComplementInt.java:427-435 | the choice is a valid vector of the wider width |
| Bitwise.ChoiceValue | src/kodkod/engine/bool/TwosComplementInt.java:427-435 | the choice reads as the first operand where the condition holds and as the second elsewhere |
| Bitwise.ChoiceBits | src/kodkod/engine/bool/TwosComplementInt.java:431-433 | evaluated, the choice's bits are the chosen operand sign-extended to the wider width |
| Bitwise.Abs | src/kodkod/engine/bool/TwosComplementInt.java:566-568 | the absolute value is a valid vector one bit wider than x, clamped to bitwidth |
| Bitwise.AbsValue | src/kodkod/engine/bool/TwosComplementInt.java:566-568 | non-negative values are kept, negative ones are negated modulo 2^bitwidth |
| Bitwise.Sgn | src/kodkod/engine/bool/TwosComplementInt.java:575-580 | the sign has width 2 |
| Bitwise.SgnValue | src/kodkod/engine/bool/TwosComplementInt.java:575-580 | the sign reads as 1, 0 or -1 as x is positive, zero or negative |
| Bitwise.ZeroIffNoBitSet | src/kodkod/engine/bool/TwosComplementInt.java:577 | a value is zero exactly when none of its bits is set |
| Shift.ShlStep | src/kodkod/engine/bool/TwosComplementInt.java:494-496 | the in-place top-down pass computes one shifter stage, each position reading its not-yet-overwritten source |
| Shift.ShrStep | src/kodkod/engine/bool/TwosComplementInt.java:513-515 | the in-place bottom-up pass computes one right-shifter stage |
| Shift.ShlValue | src/kodkod/engine/bool/TwosComplementInt.java:487-500 | the left shifter reads as a times 2^K wrapped to bitwidth, K the amount's low bits read unsigned |
| Shift.ShrValue | src/kodkod/engine/bool/TwosComplementInt.java:505-527 | the zero-filling right shifter reads as a's low bitwidth bits, unsigned, divided by 2^K |
| Shift.ShaValue | src/kodkod/engine/bool/TwosComplementInt.java:505-536 | the sign-filling right shifter reads as a divided by 2^K, rounded down |
| Shift.ShiftAmountValue | src/kodkod/engine/bool/TwosComplementInt.java:491-493 | a non-negative amount is read as itself; a negative one as itself plus 2^bitwidth, which is at least bitwidth |
| Shift.Shl | src/kodkod/engine/bool/TwosComplementInt.java:487-500 | width bitwidth; a * 2^k wrapped for k >= 0, and 0 for a negative amount |
| Shift.ShlMeaning | src/kodkod/engine/bool/TwosComplementInt.java:487-500 | the shifter's bits mean a * 2^k wrapped for k >= 0, and 0 for a negative amount |
| Shift.ShiftRight | src/kodkod/engine/bool/TwosComplementInt.java:505-518 | the shared right shifter is a valid vector of the bitwidth stages' bits |
| Shift.Shr | src/kodkod/engine/bool/TwosComplementInt.java:525-527 | width bitwidth; the unsigned bit pattern shifted right for k >= 0, and 0 for a negative amount |
| Shift.ShrMeaning | src/kodkod/engine/bool/TwosComplementInt.java:505-527 | the zero-filling shifter's bits mean the unsigned pattern shifted right, and 0 for a negative amount |
| Shift.Sha | src/kodkod/engine/bool/TwosComplementInt.java:534-536 | width bitwidth; floor(a / 2^k) for k >= 0, and all sign bits for a negative amount |
| Shift.ShaMeaning | src/kodkod/engine/bool/TwosComplementInt.java:505-536 | the sign-filling shifter's bits mean floor(a / 2^k), and -1 or 0 by a's sign for a negative amount |
| Reduce.Pairs | src/kodkod/engine/bool/TwosComplementInt.java:602-604 | combining the pairs below part into the low slots leaves the upper slots alone and keeps the wrapped total of the first part slots; with the code's multiplication at bitwidth 1, slot 0 reads 0 instead |
| Reduce.Round | src/kodkod/engine/bool/TwosComplementInt.java:600-607 | one round halves the live prefix, rounding up, with the odd entry moved down; it keeps the wrapped total, or, with the code's multiplication at bitwidth 1, leaves a slot 0 that reads 0 |
| Reduce.ApplyArith | src/kodkod/engine/bool/TwosComplementInt.java:597-610 | the pairwise reduction reads as the sum (or product) of all operands wrapped to bitwidth; with the code's multiplication at bitwidth 1, any product of two or more operands reads 0 |
| Reduce.PairValue | src/kodkod/engine/bool/TwosComplementInt.java:603 | one pairwise step stays in the factory and reads as the wrapped sum or product, except that the code's multiplication at bitwidth 1 reads 0 |
| Reduce.Combined | src/kodkod/engine/bool/TwosComplementInt.java:603 | the step the code takes, `plus` or the binary `multiply` as written, is the pair function, and reads as the wrapped sum or product, or 0 for the product at bitwidth 1 |
| Reduce.PairStep | src/kodkod/engine/bool/TwosComplementInt.java:603 | replacing two neighbours by their wrapped combination keeps the wrapped total |
| Reduce.PlusAll | src/kodkod/engine/bool/TwosComplementInt.java:617 | the n-ary sum reads as the sum of all operands wrapped to bitwidth |
| Reduce.MultiplyAll | src/kodkod/engine/bool/TwosComplementInt.java:624 | the n-ary product as the code forms it: the product of all operands wrapped to bitwidth from bitwidth 2 up, and 0 at bitwidth 1 once there are two operands |
| Reduce.MultiplyAllIntended | src/kodkod/engine/bool/TwosComplementInt.java:624 | with the corrected binary multiplication, the n-ary product reads as the product of all operands wrapped to bitwidth at every bitwidth |
| Reduce.ProductAllWrongAtWidthOne | src/kodkod/engine/bool/TwosComplementInt.java:603 | at bitwidth 1 the code's step on -1 and -1 reads 0, while the wrapped product of the two is -1 |
| Reduce.GateColumn | src/kodkod/engine/bool/TwosComplementInt.java:638-644 | stopping at the short circuit yields the same node as feeding the whole column, which means op over the column |
| Reduce.ShortedIsFinal | src/kodkod/engine/bool/TwosComplementInt.java:641 | a short-circuited accumulator is the one feeding the rest of the column would give |
| Reduce.ApplyGate | src/kodkod/engine/bool/TwosComplementInt.java:630-646 | width of the widest operand; each bit is op over that position of every operand |
| Reduce.ColumnsPastWidth | src/kodkod/engine/bool/TwosComplementInt.java:630-646 | past the widest width every position still means op over that position of every operand |
| Reduce.AndAll | src/kodkod/engine/bool/TwosComplementInt.java:653 | every bit of the n-ary and holds exactly when that bit of every operand holds |
| Reduce.OrAll | src/kodkod/engine/bool/TwosComplementInt.java:660 | every bit of the n-ary or holds exactly when that bit of some operand holds |
| Environments.IsEmpty | src/kodkod/engine/fol2sat/Environment.java:122-124 | an environment is the empty one exactly when it binds no variable |
| Environments.EmptyEnv | src/kodkod/engine/fol2sat/Environment.java:51-60 | the empty environment is empty and resolves every variable to null |
| Environments.Parent | src/kodkod/engine/fol2sat/Environment.java:82-88 | the empty environment is its own parent; any other's parent is a strictly shorter chain |
| Environments.VariableOf | src/kodkod/engine/fol2sat/Environment.java:101-107 | the variable is null exactly for the empty environment |
| Environments.ValueOf | src/kodkod/engine/fol2sat/Environment.java:109-115 | the empty environment's value is null |
| Environments.Bindings | src/kodkod/engine/fol2sat/Environment.java:126-133 | the reference map binds exactly the variables some frame binds |
| Environments.Extend | src/kodkod/engine/fol2sat/Environment.java:90-99 | the new frame's parent is the receiver, with the given variable and value; the variable now resolves to the value, shadowing outer bindings, and every other variable resolves as before |
| Environments.Lookup | src/kodkod/engine/fol2sat/Environment.java:126-143 | the walk up the chain returns the innermost binding's value, and null for a variable bound nowhere |
| Environments.ExtendCommutes | src/kodkod/engine/fol2sat/Environment.java:126-143 | binding two different variables in either order resolves every variable alike |
| Instances.NewInstance | src/kodkod/instance/Instance.java:60-71 | a null universe is a NullPointerException; otherwise the instance has that universe, binds no relation and no integer, and satisfies the class invariant |
| Instances.ContainsAfterAdd | src/kodkod/instance/Instance.java:87-89 | after a successful add, the instance contains exactly the relations it contained before plus the added one |
| Instances.ContainsIntAfterAddInt | src/kodkod/instance/Instance.java:96-98 | after a successful add, the instance contains exactly the integers it contained before plus the added one |
| Instances.Relations | src/kodkod/instance/Instance.java:101-107 | exactly the relations the instance contains |
| Instances.Ints | src/kodkod/instance/Instance.java:111-117 | exactly the integers the instance contains |
| Instances.Tuples | src/kodkod/instance/Instance.java:154-161 | non-null exactly when the instance contains the relation |
| Instances.TuplesInt | src/kodkod/instance/Instance.java:172-179 | non-null exactly when the instance contains the integer |
| Instances.Add | src/kodkod/instance/Instance.java:120-134 | refused for a foreign universe first, then for an arity mismatch; otherwise the relation is bound to s, every other binding is unchanged, the relations grow by that one, and a valid instance stays valid |
| Instances.AddGuardsValid | src/kodkod/instance/Instance.java:44 | on a valid instance, add refuses a binding exactly when binding it anyway would break the invariant that each relation's tuples have its arity and the instance's universe |
| Instances.AddInt | src/kodkod/instance/Instance.java:136-152 | refused for a foreign universe, then for arity not 1, then for size not 1, in that order; otherwise the integer is bound to s, nothing else changes, and a valid instance stays valid |
| Instances.AddIntGuardsValid | src/kodkod/instance/Instance.java:45 | on a valid instance, the integer add refuses a binding exactly when binding it anyway would break the invariant that each integer's tuples are one unary tuple of the instance's universe |
| Instances.Clone | src/kodkod/instance/Instance.java:198-208 | the copy has the same universe and the same bindings for every relation and integer, and is valid exactly when the original is |
| Instances.LastWriteWins | src/kodkod/instance/Instance.java:133 | adding twice under one relation leaves the second binding, as if only it were added |
| Instances.LastWriteWinsInt | src/kodkod/instance/Instance.java:151 | adding twice under one integer leaves the second binding |

## Left out

- Boolean factory internals are not part of this model: node creation, hash-consing, caching and simplification. The gates fold only when every input is a constant, and this is what makes `isConstant` and `value()` work on literals. Full adders are the standard sum (three-way exclusive or) and carry (majority).
- The accumulator is a list of inputs plus a short-circuit flag. The tree shape of the gate it builds is left out, because only its meaning matters here.
- `validate` is in the superclass, which is not part of this model. It becomes the precondition that both operands share a factory.
- `toString` in all three classes, and the commented-out debug prints in `multiply`.
- Java `int` and `long` arithmetic is left out: widths, indices and shift amounts are unbounded integers. In `value()`, `1 << i` is exact here, which agrees with Java for bitwidths up to 32. The literal constructor's bit test `number & (1 << i)` becomes bit i of the number, which agrees for i up to 31. The model does not bound the bitwidth.
- Division by zero: the circuit computes something, but the code promises nothing. Its value is left unspecified.
- Division.Divide, Division.Modulo, Division.NonRestoringDivision: state the result only for a non-zero divisor, for the reason above.
- The quotient array starts as Java nulls. Each slot is written before it is read, so the model starts it at FALSE and proves each slot written.
- The assertion `(sleft + width) % extended == 0` after the division loop is proved (Division.Iterate) rather than checked.
- `System.arraycopy` and the shifts of whole arrays become sequence slices.
- `Environment.extend` asserts a non-null variable. In the model variables are values and cannot be null. `isEmpty` compares by reference with `EMPTY`; in the model this is the `Empty` constructor.
- Instances.Clone: an instance is an immutable value, so "later adds on the clone leave the original alone" holds by construction, and the model states nothing about aliasing. Instances.CloneAddsAlike states only that a clone answers every add like the original.
- `Instance.unmodifiableView`, `relationTuples`, `intTuples` and `universe()` return views or fields. Mutation through a view (UnsupportedOperationException) is not modelled, because instances are values.
- `TupleSet` and `Universe` are not part of this model. A tuple set is a record of universe, arity and size, and the defensive copy `add` stores is the tuple set itself. A null tuple set (NullPointerException) is not modelled.
- Bitwise.Sgn: states only the width of 2. Its value is stated in Bitwise.SgnValue. At bitwidth 1 the result is still two bits wide, as in the code.

## Findings

| source | as written | input that shows it | evidently intended | confidence | as-written member | corrected member |
|---|---|---|---|---|---|---|
| src/kodkod/engine/bool/TwosComplementInt.java:254-282 | at result width 1, `last` is 0. Row 0 is written into bit 0 by the first loop, and the last-row step adds its complement plus 1 into the same bit, so bit 0 always ends up FALSE | bitwidth 1, multiplying -1 (one TRUE bit) by itself: the result reads 0 | the product modulo 2: -1 at bitwidth 1, i.e. skip the last-row step when `last` is 0 | not executed | Multiply.MultiplyAsWritten, Multiply.ProductAsWrittenWrongAtWidthOne | Multiply.Multiply, Multiply.ProductValue |
| src/kodkod/engine/bool/TwosComplementInt.java:603 | the n-ary product combines pairs with the binary `multiply` above, so at bitwidth 1 every pairwise product reads 0, and so does the result of two or more operands | bitwidth 1, the n-ary product of -1 and -1: the result reads 0, the wrapped product is -1 | the product of all operands wrapped to bitwidth, which the corrected binary multiplication gives | not executed | Reduce.MultiplyAll, Reduce.ProductAllWrongAtWidthOne | Reduce.MultiplyAllIntended |

The code and the usual description of the correction step differ. The quotient
and the remainder are corrected not only when the final remainder's sign
differs from the dividend's. They are also corrected when SOME intermediate
partial remainder was zero, which the zero tests `svalues` record. The model
follows the code (Division.Flags, DivisionTheory.NonRestoringCorrect).

The class invariant of `Instance` (`Instances.Valid`) also asks that an
integer's tuple set come from the instance's universe. The documented invariant
at `Instance.java:45` names only arity 1 and size 1, but the integer `add`
checks the universe first, so every instance the code builds satisfies the
stronger form.
