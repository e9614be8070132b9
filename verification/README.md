# Models and proofs for a RISC-V proving system

This project models the exact-arithmetic core of the prover over the Mersenne field 2^31 - 1 and
proves that it computes what it is meant to compute. Each part follows the form of its source:
objects that update their fields are classes, in-place algorithms work on arrays, loops carry
invariants, and expressions are functions. Independent definitions stand beside the code: evaluation
of polynomials under an assignment, the RISC-V Unprivileged ISA (version 20191213), bit reversal as a
recursion on bits, the ring of Gaussian integers, and RFC 7693.

- **Constraint algebra** (`constraint_*.dfy`). Terms and constraints with their normal form,
  arithmetic, splitting, solving and substitution, up to the compiler pass that removes linearly
  defined variables. The normal form is canonical; every operation preserves the meaning under every
  assignment; where an operation panics or is wrong, the exact condition is proved.
- **M extension** (`muladd_chain.dfy`, `rv32m_spec.dfy`, `mext_*.dfy`). The carry chain, the
  constraints of a MUL or DIV/REM row as polynomials modulo p, and the witness functions in their
  order. Rows that satisfy the constraints hold the result of the standard, and the witness
  functions fill such rows, for all operands. The sign-extension argument is proved over 32 bits and
  in the field, which the solver script beside `mul_div.rs` leaves open.
- **Shifts and branches** (`shift_*.dfy`, `conditional_row.dfy`). The same in both directions for
  rows built from lookup tables.
- **Tables and driver** (`lookup_tables.dfy`, `tuple_tables.dfy`, `table_contents.dfy`,
  `table_driver.dfy`). Closed-form indices against enumeration for any list of key widths, the
  created tables against the lookups of the circuit, and the absolute index of every key and row
  against its place in the driver's dump.
- **Bit reversal, batch inversion, power tables** (`bit_reverse*.dfy`, `field_*.dfy`,
  `worker_geometry.dfy`). Serial forms, and parallel forms over every schedule.
- **Fields** (`mersenne31*.dfy`, `fermat.dfy`, `complex*.dfy`, `gaussian.dfy`, `avx512.dfy`). The
  redundant zero, inverses, square roots, the complex extension and its two-adic domains, and the
  vector forms. Primality of 2^31 - 1 is proved, not assumed: the repository's own generator has
  order 2^31, which leaves no room for a proper divisor.
- **Hash and chain** (`blake2s_*.dfy`, `transcript.dfy`, `chain_encoding.dfy`). BLAKE2s, the
  transcripts that drive it, and the recursion chain; known answers tie the hash to the standard.

## What the proofs found

- Solving for a variable is wrong when the variable also stands in a quadratic term: no expression
  free of it would do. The exact condition is `ExpressExact`.
- The elimination pass skips constraints in which the variable is squared, yet drops its definition.
  `LoseDefinition` runs it on such a system. Over whole runs a removed variable is gone from the last
  system if and only if it had no square when it was removed (`TraceSettled`), and if none remains
  every solution extends back (`LastSystemRecovers`). The equivalence with definitions,
  `TraceExact`, holds always.
- The pass restarts its outer loop without any change when a variable to be placed is a placeholder
  substitution, and then never ends: it ends if and only if no given variable is one
  (`RemoveLinearVariables`, with the input of `NeverEnds`).
- The rejection of rewritten constraints above degree two in the pass cannot be reached.
- Parallel batch inversion panics on an empty input, which the serial form accepts.
- Serial batch inversion accepts a buffer of another length than the input and then pairs wrong
  elements: it inverts all inputs if and only if the lengths agree (`LengthsExactly`). The parallel
  form is right for every longer buffer; a shorter one that ends with a chunk silently leaves the
  rest of the input as it was.
- The parallel power table cuts the exponent of a chunk start to 32 bits. It is the serial table
  if and only if what every start drops acts as one (`SerialExactly`), as for every domain generator;
  it is not for the powers of two in the base field (`NotSerial`).
- A chain over a zero base differs between the incremental and the one-go computation, and no other
  does (`TranscriptExactly`).
- The generation functions of some tables assert less than the ranges of their keys: the shift table
  and the byte contributions nothing, the truncation of shift amounts only the byte. A key outside
  such a table is looked up without a panic, and the position returned is not its own
  (`LookupValuesAndGetIndex`, `TupleKeysGuarded`, with the input of `UncheckedDirection`).
- Looking up a row compares the values only in tables without an index function of their own; the
  table of one zero row does not compare anything (`LookupRow`, `CreateZeroTable`).
- The reduction of a negative 64-bit number is exact if and only if its magnitude is below 2^62.
- Comments that disagree with the code, where the model follows the code: the id column of a dumped
  table comes right after the row and not always in the fourth place; the product counts given for
  bits 32 to 48 of the multiplication are those of the other column.

Every `.dfy` file is part of one Dafny 4.11 project; `dafny verify dfyconfig.toml` covers it.

## Model

| member | source | states |
|---|---|---|
| ConstraintNormalize.Normalize | cs/src/constraint.rs:538-579 | returns exactly when no monomial of degree above two keeps a nonzero coefficient; the result denotes the same polynomial, with reduced nonzero coefficients, quadratic terms first, then linear ones, then at most one constant, and within a degree by the first variable, then by the second |
| ConstraintNormalize.NormTermSettles | cs/src/constraint.rs:148-163 | normalising a term sorts its variables and leaves its contribution to every monomial unchanged |
| ConstraintNormalize.CombinedAdds | cs/src/constraint.rs:167-245 | combining two like terms adds their contributions modulo p, and leaves the zero constant when they cancel |
| ConstraintNormalize.MergeInto | cs/src/constraint.rs:545-560 | one merge step keeps the polynomial, the degrees and the shape in which a second like term can only be a left-over zero |
| ConstraintNormalize.MergeAll | cs/src/constraint.rs:544-560 | merging a sorted list keeps the polynomial and leaves like terms merged even when monomials cancel on the way |
| ConstraintNormalize.SettleTerms | cs/src/constraint.rs:539-540 | settling every term keeps the polynomial and changes nothing on settled terms |
| ConstraintNormalize.SortStrict | cs/src/constraint.rs:57-92 | sorted terms with distinct monomials stand longer ones first, and at equal length by the smaller variable at the first difference |
| ConstraintNormalize.NormalInOrder | cs/src/constraint.rs:57-92 | every normal form is written in that order |
| ConstraintNormalize.DegreeCheck | cs/src/constraint.rs:566-567 | the degree assertion passes exactly when the merged polynomial is at most quadratic |
| ConstraintTerms.SamePolySameValue | cs/src/constraint.rs:538-579 | equal polynomials have equal values modulo p under every assignment |
| ConstraintTerms.SamePolySameCoef | cs/src/constraint.rs:538-579 | equal polynomials have equal coefficients modulo p at every monomial |
| ConstraintCanonical.Canonical | cs/src/constraint.rs:57-92 | over an odd prime field two normal constraints agree on every assignment if and only if they are the same list of terms |
| ConstraintCanonical.ZeroIsEmpty | cs/src/constraint.rs:538-579 | a normal constraint vanishes on every assignment if and only if it is empty |
| ConstraintCanonical.NormalFormsDecide | cs/src/constraint.rs:538-579 | two constraints of degree at most two agree on every assignment if and only if their normal forms are equal |
| ConstraintCanonical.NormalFormUnique | cs/src/constraint.rs:538-579 | a polynomial has one normal form |
| ConstraintCanonical.NormalizeTwice | cs/src/constraint.rs:538-579 | normalising a normalised constraint returns it unchanged |
| ConstraintCanonical.CoefsDetermine | cs/src/constraint.rs:57-92 | a normal list is determined by its coefficients |
| ConstraintCanonical.EvalOnProbe | cs/src/constraint.rs:57-92 | what a normal constraint is worth on an assignment with two nonzero variables, by its six coefficients |
| ConstraintOps.EvalScaled | cs/src/constraint.rs:485-496 | scaling multiplies the value under every assignment |
| ConstraintOps.Add | cs/src/constraint.rs:712-718 | defined exactly when the sum is at most quadratic; the value is the sum of the values under every assignment |
| ConstraintOps.Sub | cs/src/constraint.rs:725-737 | the value is the difference of the values under every assignment |
| ConstraintOps.TermProductValue | cs/src/constraint.rs:888-965 | the product of two terms has the product of their values |
| ConstraintOps.EvalProducts | cs/src/constraint.rs:818-827 | multiplying every term of a constraint by a term multiplies its value |
| ConstraintOps.MulByTerm | cs/src/constraint.rs:818-827 | returns exactly when every partial sum stays at most quadratic, with the normal form of the product |
| ConstraintOps.Mul | cs/src/constraint.rs:746-752 | returns exactly when no partial product exceeds degree two, with the normal form of the product |
| ConstraintOps.MulValue | cs/src/constraint.rs:746-752 | the product of two constraints has the product of their values under every assignment |
| ConstraintOps.MulDefinedExactly | cs/src/constraint.rs:746-752 | for nonempty normal constraints the product is defined if and only if the degrees add up to at most two |
| ConstraintSplit.SplitMaxQuadratic | cs/src/constraint.rs:438-482 | the quadratic, linear and constant parts put together again are the normal form of the constraint |
| ConstraintSplit.GetValue | cs/src/constraint.rs:687-704 | a value is missing exactly when a variable of the normal form has none; otherwise it is the value of the constraint |
| ConstraintSplit.SumQuadratic | cs/src/constraint.rs:690-695 | the loop over the quadratic part adds up its value, or stops exactly at a missing variable |
| ConstraintSplit.SumLinear | cs/src/constraint.rs:697-701 | the loop over the linear part adds up its value, or stops exactly at a missing variable |
| ConstraintSplit.Constraint.Normalize | cs/src/constraint.rs:538-579 | the in-place form: same outcome and same order, and a normal constraint is left alone |
| ConstraintSplit.Constraint.Scale | cs/src/constraint.rs:485-496 | the in-place form of scaling |
| ConstraintSplit.Constraint.AddTerm | cs/src/constraint.rs:769-771 | pushing a term adds its value |
| ConstraintSplit.Constraint.SubTerm | cs/src/constraint.rs:778-811 | pushing a negated term subtracts its value |
| ConstraintEliminate.ExpressVariable | cs/src/constraint.rs:606-630 | panics exactly when x is absent or squared, its last prefactor is zero, or the remaining terms are not at most quadratic; otherwise the normal result is free of x and solves the equation made of the last prefactor and the terms without x |
| ConstraintEliminate.DropVariable | cs/src/constraint.rs:610-619 | keeps the terms without x in order and the coefficient of the last term with it |
| ConstraintEliminate.ExpressSound | cs/src/constraint.rs:606-630 | when x occurs in one term only, alone, the constraint holds if and only if x equals the expression, under every assignment |
| ConstraintEliminate.ExpressExact | cs/src/constraint.rs:606-630 | for a normal constraint the returned expression is equivalent to it on all assignments if and only if x is in no quadratic term |
| ConstraintEliminate.QuadraticNotSolvable | cs/src/constraint.rs:606-630 | when x is multiplied by another variable, every expression free of x fails on some assignment, which is given |
| ConstraintEliminate.FreeNormal | cs/src/constraint.rs:538-579 | normalising never brings a variable back |
| ConstraintEliminate.DegreeNotRaised | cs/src/constraint.rs:538-579 | normalising never raises the degree |
| ConstraintSubstitute.SubstituteVariable | cs/src/constraint.rs:636-683 | under every assignment the result is worth what the constraint is worth with x set to the value of the expression; x is gone when the expression does not mention it |
| ConstraintSubstitute.SubstitutableExactly | cs/src/constraint.rs:636-683 | on normal arguments it returns if and only if x has power exactly one and either the expression is linear or x is in no quadratic term |
| ConstraintSubstitute.ReplaceTerm | cs/src/constraint.rs:643-670 | one term with x becomes a constraint of the substituted value, or panics exactly when the product is too high |
| ConstraintSubstitute.ReplaceTerms | cs/src/constraint.rs:640-674 | kept terms and replacements add up to the substituted constraint |
| ConstraintSubstitute.AddAll | cs/src/constraint.rs:675-682 | adding the replacements one by one keeps the value, the degree bound and the absence of x |
| EliminationPass.EliminateFrom | cs/src/constraint.rs:606-683 | if x occurs in one term of c1, alone, then c1 and c2 hold together if and only if x equals the expression and the rewritten c2 holds, and x is in neither; solving panics exactly on a zero coefficient or a rest of too high degree |
| EliminationPass.SolveDefinition | cs/src/one_row_compiler/compile_layout.rs:1565-1573 | solving a linear defining constraint never panics and gives exactly what it says of x |
| EliminationPass.SubstituteDefinition | cs/src/one_row_compiler/compile_layout.rs:1598-1625 | substituting a linear definition never panics and never exceeds degree two, so the rejection branch is dead |
| EliminationPass.DefiningConstraints | cs/src/one_row_compiler/compile_layout.rs:1484-1499 | collects exactly the unprotected constraints of degree at most one that mention x, in order |
| EliminationPass.Occurrences | cs/src/one_row_compiler/compile_layout.rs:1518-1526 | collects exactly the constraints in which x has power one |
| EliminationPass.FindCandidate | cs/src/one_row_compiler/compile_layout.rs:1472-1538 | the first variable to be placed that is removable, after none that is removable or a placeholder, with its definitions and its occurrences; it is stuck exactly at such a first placeholder |
| EliminationPass.Replacements | cs/src/one_row_compiler/compile_layout.rs:1593-1626 | every occurrence other than the definition is rewritten |
| EliminationPass.Replace | cs/src/one_row_compiler/compile_layout.rs:1653-1678 | drops the definition and puts every replacement in its place |
| EliminationPass.RemoveVariable | cs/src/one_row_compiler/compile_layout.rs:1558-1684 | one round of the pass: the last defining constraint is used and dropped, every other occurrence is rewritten |
| EliminationPass.RemovalExact | cs/src/one_row_compiler/compile_layout.rs:1640-1684 | on every assignment, the system before a removal holds if and only if the one after it holds and x equals its definition |
| EliminationPass.GoneExactly | cs/src/one_row_compiler/compile_layout.rs:1520-1526 | x is gone from the system after a removal if and only if it had no square before |
| EliminationPass.RemovalRecovers | cs/src/one_row_compiler/compile_layout.rs:1640-1684 | without a square, every solution after the removal becomes one before it by computing x from its definition |
| EliminationPass.DefinitionLost | cs/src/one_row_compiler/compile_layout.rs:1520-1526 | with a square the definition is lost: removing x by its last definition leaves a system with a solution that no value of x repairs |
| EliminationPass.LoseDefinition | cs/src/one_row_compiler/compile_layout.rs:1465-1703 | the whole pass on that system, with x to place, ends with x removed, and its result has such a solution |
| EliminationPass.NeverEnds | cs/src/one_row_compiler/compile_layout.rs:1502-1506 | the whole pass on no constraints, with a placeholder to place, does not end and removes nothing |
| EliminationPass.ReplayKeeps | cs/src/one_row_compiler/compile_layout.rs:1465-1703 | computing removed variables back leaves the others alone |
| EliminationPass.TraceExact | cs/src/one_row_compiler/compile_layout.rs:1469-1689 | after any run of rounds, on every assignment, the given system holds if and only if the last one holds and every removed variable equals its definition |
| EliminationPass.TraceRecovers | cs/src/one_row_compiler/compile_layout.rs:1469-1689 | if no variable had a square when it was removed, every solution of the last system becomes one of the given system by computing the removed variables back |
| EliminationPass.RemoveLinearVariables | cs/src/one_row_compiler/compile_layout.rs:1465-1703 | the whole pass is such a run; in every round the variable removed is the first removable one of those left, which lose it and keep their order; it ends if and only if no given variable is a placeholder, none removed is protected, and when it ends nothing more can be removed |
| EliminationTrace.SteadyFree | cs/src/constraint.rs:538-579 | a normal constraint whose value does not depend on a variable does not mention it |
| EliminationTrace.CurveIs | cs/src/constraint.rs:538-579 | the second difference of a normal constraint in a variable is twice the coefficient of its square |
| EliminationTrace.DefinitionFree | cs/src/one_row_compiler/compile_layout.rs:1565-1573 | the definition a constraint gives mentions only variables the constraint mentions |
| EliminationTrace.EntryKeeps | cs/src/one_row_compiler/compile_layout.rs:1598-1625 | substituting for x an expression without y keeps the absence of y and keeps its square |
| EliminationTrace.RoundKeeps | cs/src/one_row_compiler/compile_layout.rs:1558-1684 | once a variable is absent from or squared in every constraint, a round removes another one, by a definition without it, and neither brings it back nor makes it go away |
| EliminationTrace.TraceSettled | cs/src/one_row_compiler/compile_layout.rs:1469-1689 | over any run, a removed variable is never removed again, no later definition mentions it, and it is gone from the last system if and only if it had no square when it was removed |
| EliminationTrace.TraceGoneExactly | cs/src/one_row_compiler/compile_layout.rs:1469-1689 | no removed variable remains in the last system if and only if none had a square when it was removed |
| EliminationTrace.LastSystemRecovers | cs/src/one_row_compiler/compile_layout.rs:1469-1689 | if the last system mentions no removed variable, every solution of it becomes one of the given system by computing the removed variables back |
| EliminationTrace.RoundProtects | cs/src/one_row_compiler/compile_layout.rs:1484-1499 | a round drops one unprotected linear constraint and keeps all other flags in order |
| EliminationTrace.TraceProtects | cs/src/one_row_compiler/compile_layout.rs:1469-1689 | no run loses a protected constraint, and each round removes one constraint |
| MulAddChain.Sound | cs/src/devices/optimization_context.rs:1211-1808 | in-range carries that satisfy the four field equations make the 64-bit multiply-add relation hold over the integers |
| MulAddChain.Complete | cs/src/devices/optimization_context.rs:1286-1808 | if the 64-bit relation holds, the generated carries fit 9, 10, 11 and 11 bits and satisfy the four equations |
| MulAddChain.Exact | cs/src/devices/optimization_context.rs:1211-1808 | carries that satisfy the four equations exist if and only if op1 * op2 + addend equals the result modulo 2^64, signs extended |
| MulAddChain.FieldStepsAreExact | cs/src/devices/optimization_context.rs:1446-1808 | every equation stays below the modulus, so that zero in the field is zero over the integers |
| MulAddChain.ColumnsAreProduct | cs/src/devices/optimization_context.rs:1240-1800 | the four byte columns with sign extension add up to the signed product modulo 2^64 |
| MulAddChain.LeftoverBounds | cs/src/devices/optimization_context.rs:1240-1800 | the bounds of the four intermediate sums |
| Rv32m.DivisionSound | cs/src/machine/ops/mul_div.rs:584-691 | any quotient and remainder that meet the 64-bit equation, the sign rules, the size rule and the zero-divisor rule are those of section 7.2 of the RISC-V standard, overflow included |
| Rv32m.DivisionComplete | cs/src/machine/ops/mul_div.rs:584-691 | the results of the standard meet those rules, for every pair of operands |
| Rv32m.TruncUnique | cs/src/machine/ops/mul_div.rs:584-691 | a remainder smaller than the divisor with the sign of the dividend determines the truncating quotient and remainder |
| Rv32m.EquationExact | cs/src/machine/ops/mul_div.rs:614-628 | the 64-bit equation cannot wrap |
| MExtension.DivRemSound | cs/src/machine/ops/mul_div.rs:417-714 | every row that satisfies all field constraints of DIV, DIVU, REM or REMU writes the register the standard prescribes |
| MExtension.MulSound | cs/src/machine/ops/mul_div.rs:129-187 | every row that satisfies all field constraints of MUL, MULH, MULHSU or MULHU writes the register the standard prescribes |
| MExtension.Compare | cs/src/machine/ops/mul_div.rs:643-663 | the flag network is set if and only if the remainder is smaller than the divisor in absolute value, in all four sign cases |
| MExtension.AddSubRelation | cs/src/devices/utils.rs:6-80 | two limb equations in the field are one 32-bit addition with carry |
| MExtension.ZeroTestFlag | cs/src/cs/circuit.rs:603-637 | the flag of the zero test is set if and only if the register is zero |
| MExtension.Signs | cs/src/machine/ops/mul_div.rs:421-436 | the sign variables of a row are the signs the division rules speak of |
| MExtensionWitness.DivOutputsCorrect | cs/src/machine/ops/mul_div.rs:457-571 | the chain of selections computes quotient and remainder of the standard, zero divisor and overflow included |
| MExtensionWitness.RowWitness.constructor | prover/full_machine_with_delegation_generated.rs:1 | a row with its operands and nothing else filled |
| MExtensionWitness.RowWitness.EvalMulSigns | prover/full_machine_with_delegation_generated.rs:1 | eval_fn_30 to 32: which factors are read as negative |
| MExtensionWitness.RowWitness.EvalMulOutputs | prover/full_machine_with_delegation_generated.rs:1 | eval_fn_33: the halves of the wide product, on a multiplication row only |
| MExtensionWitness.RowWitness.EvalOperandSigns | prover/full_machine_with_delegation_generated.rs:1 | eval_fn_35 to 37: the signs of dividend and divisor |
| MExtensionWitness.RowWitness.EvalDivOutputs | prover/full_machine_with_delegation_generated.rs:1 | eval_fn_38: quotient and remainder of the standard, on a division row only |
| MExtensionWitness.RowWitness.EvalSignXor | prover/full_machine_with_delegation_generated.rs:1 | eval_fn_39 to 41: sign difference, extension word and output choice |
| MExtensionWitness.RowWitness.EvalZeroTests | prover/full_machine_with_delegation_generated.rs:1 | eval_fn_62 to 70: exact zero tests of masked quotient, remainder and divisor |
| MExtensionWitness.RowWitness.EvalChainOperands | prover/full_machine_with_delegation_generated.rs:1 | eval_fn_74 to 86: the factors and terms of the relation stand for rs1 times rs2 on a multiplication, and for divisor times quotient plus remainder on a division |
| MExtensionWitness.RowWitness.EvalResultSigns | prover/full_machine_with_delegation_generated.rs:1 | eval_fn_96 to 100: signs of quotient and remainder |
| MExtensionWitness.RowWitness.EvalCompare | prover/full_machine_with_delegation_generated.rs:1 | eval_fn_101 to 105: the masked 32-bit addition or subtraction with its overflow |
| MExtensionWitness.RowWitness.EvalInequality | prover/full_machine_with_delegation_generated.rs:1 | eval_fn_106 to 111: the size condition, its reversal and the output register |
| MExtensionWitness.RowWitness.EvalUpperHalf | prover/full_machine_with_delegation_generated.rs:1 | eval_fn_128 to 131: the remaining carries of the chain |
| MExtensionWitness.RowWitness.EvalLowCarries | prover/full_machine_with_delegation_generated.rs:1 | eval_fn_87 and 88: for every relation with this lower half that holds, the two carries are in range and make the lower steps exact |
| MExtensionWitness.RowWitness.EvalOutputs | prover/full_machine_with_delegation_generated.rs:1 | eval_fn_30 to 38 together: signs and results of both families |
| MExtensionWitness.RowWitness.EvalZeros | prover/full_machine_with_delegation_generated.rs:1 | eval_fn_39 to 70 together |
| MExtensionWitness.RowWitness.EvalFactors | prover/full_machine_with_delegation_generated.rs:1 | eval_fn_74 to 88 together |
| MExtensionWitness.RowWitness.EvalThroughSigns | prover/full_machine_with_delegation_generated.rs:1 | eval_fn_30 to 100 together, none disturbing what an earlier one filled |
| MExtensionWitness.RowWitness.EvalComparison | prover/full_machine_with_delegation_generated.rs:1 | eval_fn_101 to 123 together, with the carry between the limbs |
| MExtensionWitness.OverflowingAdd | cs/src/devices/optimization_context.rs:571-700 | limbs and overflow bit of a 32-bit sum |
| MExtensionWitness.OverflowingSub | cs/src/devices/optimization_context.rs:571-700 | limbs and borrow bit of a 32-bit difference |
| MExtensionWitness.TestZero | cs/src/cs/circuit.rs:609-637 | the zero-test witness satisfies its constraints and its flag is exact |
| MExtensionComplete.ComputedSatisfies | cs/src/machine/ops/mul_div.rs:80-716 | whatever the witness functions compute satisfies every constraint of the row |
| MExtensionComplete.EvaluateRow | prover/full_machine_with_delegation_generated.rs:1 | running the witness functions in their order fills a row that satisfies every constraint |
| MExtensionComplete.Execute | prover/full_machine_with_delegation_generated.rs:1 | for all 32-bit operands and all eight instructions the register of the filled row is the result of the standard |
| ShiftTables.LeftCorrect | cs/src/tables.rs:1633-1674 | for all halves and all amounts, the left-shift entries never carry into each other and make up the 32-bit shift |
| ShiftTables.RightCorrect | cs/src/tables.rs:1633-1674 | the same for the right-shift entries |
| ShiftTables.FillerMask | cs/src/tables.rs:1223-1263 | the filler has exactly the top bits set |
| ShiftTables.ArithmeticFromLogical | cs/src/tables.rs:1223-1263 | for negative words the filler added to the logical shift is the arithmetic shift |
| ShiftRows.SelectedCorrect | cs/src/machine/ops/shift.rs:127-259 | the selected halves of a row that satisfies the constraints make up the logical shift by the low five bits of rs2 |
| ShiftRows.NoCarry | cs/src/tables.rs:1223-1263 | adding the filler never overflows a half |
| ShiftRows.FilledSum | cs/src/machine/ops/shift.rs:127-259 | logical shift plus filler is the result the instruction asks for |
| ShiftRows.ShiftSound | cs/src/machine/ops/shift.rs:127-259 | every row that satisfies the constraints and lookups holds the result of SLL, SRL or SRA |
| ShiftRows.AmountLooksUp | cs/src/tables.rs:1758-1778 | the truncation table gives the low five bits |
| ShiftRows.Witness.constructor | prover/full_machine_with_delegation_generated.rs:1 | a shift row with its operands |
| ShiftRows.Witness.EvalAmount | prover/full_machine_with_delegation_generated.rs:1 | eval_fn_45: the shift amount |
| ShiftRows.Witness.EvalHalves | prover/full_machine_with_delegation_generated.rs:1 | eval_fn_133 and 134: what stays of one half and leaves the other make up the shifted word |
| ShiftRows.Witness.EvalFiller | prover/full_machine_with_delegation_generated.rs:1 | eval_fn_135: the halves of the mask of the vacated bits, or zero |
| ShiftRows.Witness.EvalResult | prover/full_machine_with_delegation_generated.rs:1 | eval_fn_157, 158, 167 and 168: the sums that make up the result |
| ShiftRows.Witness.Evaluate | prover/full_machine_with_delegation_generated.rs:1 | filling a shift row satisfies every constraint and lookup |
| ShiftRows.Execute | prover/full_machine_with_delegation_generated.rs:1 | for every pair of words the filled row holds SLL, SRL or SRA |
| ConditionalRows.BorrowCompares | cs/src/devices/utils.rs:6-80 | the borrow of the subtraction is the unsigned comparison, and the limbs are those of the wrapped difference |
| ConditionalRows.ZeroTestExact | cs/src/cs/circuit.rs:603-637 | the constraints force the flag to be a bit, set if and only if the difference is zero |
| ConditionalRows.TableDecides | cs/src/tables.rs:1265-1407 | with the right flags the table decides all six branches and both set-less-than comparisons as sections 2.4 and 2.5 of the RISC-V standard say, and nothing for the other funct3 values |
| ConditionalRows.ConditionalSound | cs/src/machine/ops/conditional.rs:94-256 | every row that satisfies the constraints resolves branch and comparison correctly |
| ConditionalRows.Witness.constructor | prover/full_machine_with_delegation_generated.rs:1 | a conditional row with its operands |
| ConditionalRows.Witness.EvalDifference | prover/full_machine_with_delegation_generated.rs:1 | eval_fn_42: the wrapping subtraction satisfies the limb equations |
| ConditionalRows.Witness.EvalZeroTest | prover/full_machine_with_delegation_generated.rs:1 | eval_fn_62 to 64: the zero test of the difference |
| ConditionalRows.Witness.EvalConditions | prover/full_machine_with_delegation_generated.rs:1 | eval_fn_112: the packed key and its table entry |
| ConditionalRows.Witness.Evaluate | prover/full_machine_with_delegation_generated.rs:1 | filling a conditional row satisfies every constraint |
| ConditionalRows.Execute | prover/full_machine_with_delegation_generated.rs:1 | for every pair of words and every funct3 the filled row decides the condition |
| LookupTables.EnumerateRows | cs/src/tables.rs:192-226 | panics exactly when a key fails an assertion of the generation function; row i of the content is key i followed by its values |
| LookupTables.LogicalKeysDiffer | cs/src/tables.rs:308-350 | building the caches succeeds exactly when no two logical keys coincide |
| LookupTables.CreateTable | cs/src/tables.rs:192-244 | creation succeeds exactly when every key passes the assertions and the logical keys differ, with the enumerated content |
| LookupTables.RowFacts | cs/src/tables.rs:192-244 | a row of a created table has both indices at its position and the generated values behind its key |
| LookupTables.TableSize | cs/src/tables.rs:187-189 | the rows differ, so the size reported from the cache is their number |
| LookupTables.LookupValuesAndGetIndex | cs/src/tables.rs:394-435 | panics exactly on an empty or full-width key and where the generation function does; the key of any row gives its position and values; a key found stands at its position if and only if the table has it; if the assertions of the table are complete, exactly its keys are found |
| LookupTables.LookupRow | cs/src/tables.rs:439-502 | any row of the table gives its position; returns exactly for the rows that pass the assertions of the index function, the bound and, without an index function of its own, the comparison of values; if these admit only keys of the table, the position is that of the key, and without an own function exactly the rows are accepted |
| LookupTables.ContinuousKeysSerial | cs/src/tables.rs:1497-1521 | the serial loop and the positional generator produce the same list |
| LookupTables.ContinuousIndexed | cs/src/tables.rs:861-863 | a key is its own position for the whole range if and only if the range stays below the characteristic |
| LookupTables.ContinuousTable | cs/src/tables.rs:1490-1521 | for every range below the characteristic, every bound above it and every value function the table is indexed by its first key |
| LookupTables.IndexedDiffer | cs/src/tables.rs:308-350 | tables with a position index have different keys |
| TupleTables.TuplesSerial | cs/src/tables.rs:1458-1470 | nested loops over any list of bit widths produce the tuples in the order of their positions |
| TupleTables.PositionIndexed | cs/src/tables.rs:902-908 | the mixed-radix index of the tuple at a position is that position, for any list of widths |
| TupleTables.TuplePositioned | cs/src/tables.rs:902-908 | and the tuple at the index of a tuple in range is that tuple, so every one is enumerated |
| TupleTables.PairAt | cs/src/tables.rs:1471-1484 | the positional generator cuts a position into the same pair |
| TupleTables.IndexBound | cs/src/tables.rs:902-908 | the index of a tuple in range is below the table size |
| TupleTables.OrDisjoint | cs/src/tables.rs:902-908 | the bitwise or of a shifted number and one below the shift is their sum |
| TupleTables.ShiftOrIndex | cs/src/tables.rs:902-908 | the index computed by shift and or is the mixed-radix index of every tuple in range |
| TupleTables.PairIndex | cs/src/tables.rs:866-887 | the index of a pair, written out |
| TupleTables.TripleIndex | cs/src/tables.rs:1069-1111 | the index of a triple, written out |
| TupleTables.TupleTable | cs/src/tables.rs:861-908 | for every list of widths, all values and all assertions that the tuples pass, both index functions are the position, for keys and for rows |
| TupleTables.CreateTupleTable | cs/src/tables.rs:192-244 | creation succeeds, with every tuple in range once, at its index, with its values; lookups find exactly keys of the table if and only if the assertions imply the ranges |
| TupleTables.TupleKeysGuarded | cs/src/tables.rs:394-435 | only keys of the table are looked up if and only if the generation function asserts every range |
| TupleTables.TupleRowsGuarded | cs/src/tables.rs:439-502 | the same for rows, where an index below the size of the table is asserted as well |
| TupleTables.TupleRow | cs/src/tables.rs:439-502 | a key and values form a row if and only if the key is in range and the values are its own |
| TupleTables.CreateBinaryTable | cs/src/tables.rs:910-1037 | and, or, xor and and-not tables of every width; exactly the pairs in range are looked up, by key and by row |
| TupleTables.CreateTruncateShiftTable | cs/src/tables.rs:1710-1756 | a byte and a direction give the amount, indexed with one bit for the direction; rows are looked up exactly in range, keys whenever the first is a byte |
| TupleTables.AmountsComplement | cs/src/tables.rs:1710-1756 | the amount to the right is the low five bits of the byte, and both directions add up to 32 |
| TupleTables.CreateSourceContributionTable | cs/src/tables.rs:1848-1893 | a half-word and an address bit give the stored byte in its place; rows are looked up exactly in range, keys always |
| TupleTables.CreateExistingContributionTable | cs/src/tables.rs:1895-1940 | a half-word and an address bit give the byte that stays; rows are looked up exactly in range, keys always |
| TupleTables.StoredByte | cs/src/tables.rs:1848-1940 | the source entry of one half-word and the existing entry of another, for the same address bit, add up to the other with the addressed byte replaced |
| TupleTables.UncheckedDirection | cs/src/tables.rs:1710-1756 | looking up the byte 0 with the direction 2 returns the position of another key |
| TupleTables.CreateDecoderTables | cs/src/tables.rs:1039-1118 | the 4x4x4 and 7x3x6 decoders hold exactly the triples in range, at their index through the generation function, and exactly these are looked up |
| TupleTables.CreateRangeCheckTables | cs/src/tables.rs:1538-1631 | range checks of one, two and three columns hold exactly what fits, at its index, and exactly this is looked up |
| TupleTables.CreateZeroTable | cs/src/tables.rs:889-900 | the table of one zero row accepts every row of three numbers, at position zero |
| TupleTables.UnusedColumns | cs/src/tables.rs:1557-1631 | key columns of width zero hold zero and leave the index to the others |
| TableContents.CreateContinuous | cs/src/tables.rs:192-244 | a table over a continuous range lists every key below its size once, in order, with its entry; rows are looked up exactly by these keys, and keys also if and only if the generation function bounds them |
| TableContents.LookupExact | cs/src/tables.rs:439-502 | a key, reduced in the field, and two values form a row if and only if some key of the range matches |
| TableContents.CreateShiftTable | cs/src/tables.rs:1633-1674 | the created shift table has a row if and only if the lookup of the circuit holds; its generation function takes every key |
| TableContents.CreateFillerTable | cs/src/tables.rs:1223-1263 | the same for the sign filler, which takes exactly its keys |
| TableContents.CreateLowerFiveTable | cs/src/tables.rs:1758-1778 | the same for the truncation of shift amounts |
| TableContents.CreateConditionTable | cs/src/tables.rs:1265-1407 | the created condition table has a row if and only if the condition of the circuit is resolved by it, and takes exactly its keys |
| TableDriver.Driver.constructor | cs/src/tables.rs:2029-2035 | all slots empty, all offsets zero |
| TableDriver.Driver.UpdateOffsets | cs/src/tables.rs:2037-2048 | every offset is the total size of the tables before it, and the closing assertion holds |
| TableDriver.Driver.AddTable | cs/src/tables.rs:2052-2067 | accepted exactly for an initialized table with the matching id; a type already loaded keeps its table; the invariant of offsets and total is kept |
| TableDriver.Driver.DumpTables | cs/src/tables.rs:2186-2197 | the dump is as long as the recorded total; row r of slot i stands at the offset of the slot plus r, with the row in its first columns, i right behind it, and zeros up to four |
| TableDriver.Driver.LookupValuesAndGetAbsoluteIndex | cs/src/tables.rs:2124-2140 | panics exactly on an unknown or empty slot, a wrong key length or a failed assertion of the generation function; for the key of any row, key and values stand at the returned position of the dump; with complete assertions exactly the keys of the table are found |
| TableDriver.Driver.EnforceValuesAndGetAbsoluteIndex | cs/src/tables.rs:2144-2160 | for any row of the table the returned index is its position in the dump; where the assertions admit only keys of the table, the dump has a row with the key of the given row there, and the row itself if the table has no index function of its own |
| TableDriver.Driver.AddTables | cs/src/tables.rs:2052-2067 | a sequence of additions to a fresh driver leaves the slots of the whole sequence and keeps the invariant |
| TableDriver.DumpedLength | cs/src/tables.rs:2186-2197 | the dump of the first slots is as long as the sum of their sizes |
| TableDriver.DumpedAt | cs/src/tables.rs:2186-2197 | row r of slot i stands at the offset of the slot plus r, whatever follows |
| TableDriver.AddedSum | cs/src/tables.rs:2052-2067 | adding a table raises by its size exactly the offsets behind it |
| TableDriver.AddAllAt | cs/src/tables.rs:2052-2067 | after any sequence of additions a slot holds a table added for it, and is empty exactly if there was none |
| TableDriver.OrderIrrelevant | cs/src/tables.rs:2052-2067 | order and repetition of the additions do not matter when each type has one table |
| TableDriver.DumpInto | cs/src/tables.rs:516-527 | one table row by row: the row in the first columns, the table id right behind it, zeros up to four |
| BitReverse.RevInvolution | fft/src/utils.rs:335-338 | reversing the bits of an index twice gives it back |
| BitReverse.RevConcat | fft/src/utils.rs:145-206 | a concatenation of two bit fields reverses into the reversed fields in the other order |
| BitReverse.RevShift | fft/src/utils.rs:41-86 | reversing in a wider word and shifting down is reversing the low bits |
| BitReverse.BuildTable | fft/src/utils.rs:40-86 | every entry of the three lookup tables is the reversal of its index |
| BitReverse.ReverseByBytes | fft/src/utils.rs:145-231 | swapping bytes and reversing each through the table reverses the word |
| BitReverseInPlace.ReversedTwice | fft/src/utils.rs:88-103 | the permutation is its own inverse |
| BitReverseInPlace.VisitMixed | fft/src/utils.rs:105-231 | visiting an index swaps its pair exactly when it leads it, in any visiting order |
| BitReverseInPlace.AllVisited | fft/src/utils.rs:105-231 | once every index is visited the sequence is bit-reversed |
| BitReverseInPlace.ViaLookup | fft/src/utils.rs:105-143 | both table variants leave the element of the reversed index at every position |
| BitReverseInPlace.ReverseIndex | fft/src/utils.rs:180-222 | the byte-table computation of an index is its reversal |
| BitReverseInPlace.Optimized | fft/src/utils.rs:145-205 | the two-level variant bit-reverses every length it accepts |
| BitReverseInPlace.Simple | fft/src/utils.rs:207-230 | the byte-table variant bit-reverses every length it accepts |
| BitReverseInPlace.BitReverseEnumeration | fft/src/utils.rs:88-103 | accepts exactly the empty input and powers of two up to 2^31, and bit-reverses what it accepts |
| BitReverseInPlace.BitReverseIndexIsRev | fft/src/utils.rs:335-338 | the word-reversal expression is the reversal of the low bits, whatever lies above them |
| BitReverseParallel.DisjointFootprints | fft/src/utils.rs:250-333 | two tasks that swap touch four different cells |
| BitReverseParallel.StepKeeps | fft/src/utils.rs:250-333 | the state of every pair is kept by any single load or store of any task |
| BitReverseParallel.RunKeeps | fft/src/utils.rs:250-333 | and by every interleaving |
| BitReverseParallel.FinishedReversed | fft/src/utils.rs:250-333 | when all tasks are finished the cells are bit-reversed |
| BitReverseParallel.EverySchedule | fft/src/utils.rs:233-333 | every interleaving that lets all tasks finish gives the sequential result |
| WorkerGeometry.Geometry.Partition | worker/src/lib.rs:22-60 | every position belongs to exactly one chunk |
| WorkerGeometry.OrdinarySize | worker/src/lib.rs:385-425 | the even share or a power of two less than 32 above it, or what the exact fallbacks give; the last chunk is nonempty |
| WorkerGeometry.NextIsLeast | worker/src/lib.rs:385-390 | the next power of two is the least one at or above a number |
| WorkerGeometry.GeometryForCores | worker/src/lib.rs:369-436 | panics exactly on no work; otherwise the chunks cover the work, are of one size if it divides, and no assertion fails; the last chunk is not larger than the others unless it is smaller than the number of cores; the sizes are exactly those of the heuristics |
| FieldBatch.StepBack | fft/src/field_utils.rs:151-179 | one backward step of the trick gives the inverse of the element and restores the running product |
| FieldBatch.Forward | fft/src/field_utils.rs:157-162 | the buffer holds the prefix products as far as input and buffer are paired |
| FieldBatch.Backward | fft/src/field_utils.rs:172-178 | the paired elements are overwritten from the end |
| FieldBatch.GrandCancels | fft/src/field_utils.rs:151-179 | with equal lengths prefix product and running inverse cancel at every step |
| FieldBatch.AlignedInverts | fft/src/field_utils.rs:151-179 | with equal lengths every element becomes its inverse |
| FieldBatch.LengthsExactly | fft/src/field_utils.rs:151-179 | all zero-free inputs are inverted whatever the buffer holds if and only if the lengths agree |
| FieldBatch.BaseLengths | fft/src/field_utils.rs:151-179 | the same in the base field |
| FieldBatch.LongerBuffer | fft/src/field_utils.rs:172-178 | a longer buffer brings a stale entry in |
| FieldBatch.ShorterBuffer | fft/src/field_utils.rs:172-178 | a shorter buffer leaves the front as it was |
| FieldBatch.PairChunks | worker/src/lib.rs:216-233 | how many chunks of the input find one in the buffer, or the panic of a split |
| FieldBatch.BatchInverseRange | fft/src/field_utils.rs:151-179 | on slices of any lengths: the exact panic condition, the exact values left, and nothing outside the slices changed |
| FieldBatch.BatchInverseInPlace | fft/src/field_utils.rs:151-179 | for a buffer of any length, the exact panic condition and the exact values left; with equal lengths those are the inverses |
| FieldBatch.BatchInverseWithBuffer | fft/src/field_utils.rs:181-214 | the growable-buffer form: panics exactly on a nonempty buffer or a zero, and gives the buffer back empty |
| FieldBatch.FlatAt | fft/src/field_utils.rs:216-256 | where an element of a slice stands in the concatenation |
| FieldBatch.ForwardProducts | fft/src/field_utils.rs:226-234 | the buffer holds the prefix products of the concatenation |
| FieldBatch.InvertAt | fft/src/field_utils.rs:244-255 | the backward loop inverts one more element of the concatenation |
| FieldBatch.BatchInverseSlices | fft/src/field_utils.rs:216-256 | panics exactly on a wrong buffer length, an empty first slice or a zero; otherwise inverts the concatenation |
| FieldBatch.InvertChunk | fft/src/field_utils.rs:263-272 | one thread inverts its chunk and leaves the others alone |
| FieldBatch.BatchInverseParallel | fft/src/field_utils.rs:258-273 | with a buffer at least as long the serial result for every number of cores and order of chunks; a shorter one panics unless it ends with a chunk, and then exactly its length is inverted; the empty input panics |
| FieldPowers.PowersSerial | fft/src/field_utils.rs:20-52 | entry i is the i-th power, or the one after it |
| FieldPowers.FillChunk | fft/src/field_utils.rs:101-108 | a chunk is filled from its own start, cut to 32 bits, and nothing else is |
| FieldPowers.PowersParallel | fft/src/field_utils.rs:81-115 | refuses exactly the sizes that are not powers of two; otherwise every entry of every chunk, for every number of cores and order |
| FieldPowers.SerialExactly | fft/src/field_utils.rs:81-115 | at any size the chunked table is the serial one if and only if every chunk start is harmless: what its exponent drops acts as one, or everything is zero |
| FieldPowers.SerialAtSize | fft/src/field_utils.rs:81-115 | so it is up to 2^32 entries, and at every size if 2^32 steps make one |
| FieldPowers.TwoAtCut | fft/src/field_utils.rs:81-115 | in the base field 2 to the power 2^32 is 16 |
| FieldPowers.NotSerial | fft/src/field_utils.rs:81-115 | so the table of 2^33 powers of two that two cores fill is not the serial one |
| FieldPowers.ChunkExactly | fft/src/field_utils.rs:101-108 | a chunk is right at all its positions exactly if it is at its first |
| FieldPowers.ParallelIsSerial | fft/src/field_utils.rs:117-149 | started with one or with the step, the chunked table is the serial one |
| FieldPowers.DistributePowers | fft/src/field_utils.rs:5-18 | element i, of the field or of an extension, is scaled by initial times step to the i |
| FieldOps.InverseUnique | field/src/field.rs:20-41 | an element with product one is the inverse |
| FieldOps.ProductZero | field/src/field.rs:20-41 | a product vanishes if and only if a factor does |
| FieldOps.PowAdd | field/src/field.rs:43-56 | powers add up |
| FieldOps.PowOf | field/src/field.rs:43-56 | square and multiply computes the power |
| FieldOps.BaseFieldLawful | field/src/base.rs:394-470 | residues modulo 2^31 - 1 satisfy the laws the generic code relies on |
| Mersenne31Prime.PIsPrime | field/src/base.rs:24 | 2^31 - 1 is prime, certified by the repository's own two-adic generator |
| Mersenne31Prime.GeneratorHalfOrder | field/src/complex.rs:37-40 | the generator raised to 2^30 is minus one |
| Fermat.LittleTheorem | field/src/base.rs:205-242 | Fermat's little theorem, on which the inverse rests |
| Mersenne31.ToReduced | field/src/base.rs:45-58 | the reduced representative of a stored word |
| Mersenne31.AddMod | field/src/ops.rs:68-75 | the folded sum is in range and congruent to the sum |
| Mersenne31.SubMod | field/src/ops.rs:79-86 | the folded difference is in range and congruent to the difference |
| Mersenne31.MulMod | field/src/ops.rs:90-95 | the folded product is in range and congruent to the product |
| Mersenne31.FmaMod | field/src/ops.rs:100-108 | the folded product and sum is in range and congruent |
| Mersenne31.Negate | field/src/base.rs:339-348 | negation, for both representations of zero |
| Mersenne31.Double | field/src/base.rs:368-377 | doubling |
| Mersenne31.FromNonReduced | field/src/base.rs:67-76 | the residue of any 32-bit word |
| Mersenne31.ExpPowerOf2 | field/src/base.rs:197-203 | squaring k times multiplies the exponent by 2^k |
| Mersenne31.Inverse | field/src/base.rs:205-242 | none exactly for zero; otherwise the product with the result is one, the addition chain having exponent p - 2 |
| Mersenne31.InverseByPower | field/src/base.rs:205-242 | a power p - 2 is the inverse |
| Mersenne31.InverseOrZero | cs/src/cs/circuit.rs:609-637 | the reduced inverse stored beside a zero test, zero for zero |
| Mersenne31.Pow | field/src/field.rs:43-56 | square and multiply, for every 32-bit exponent |
| Mersenne31.Sqrt | field/src/base.rs:244-256 | a returned value is a root, and none is returned only for non-squares |
| Mersenne31.Mul2Exp | field/src/base.rs:84-91 | rotation multiplies by a power of two, for every exponent |
| Mersenne31.Div2Exp | field/src/base.rs:94-101 | the opposite rotation divides by it |
| Mersenne31.FromNegativeExact | field/src/base.rs:104-118 | reduces the signed 64-bit value if and only if its magnitude is below 2^62 |
| Complex.MinusOneNonResidue | field/src/complex.rs:236-258 | no square is minus one |
| Complex.NormZero | field/src/complex.rs:236-258 | a sum of two squares vanishes if and only if both do |
| Complex.Mersenne31Complex.MulAssign | field/src/complex.rs:121-141 | the three-multiplication product is the complex product |
| Complex.Mersenne31Complex.MulAssignSchoolbook | field/src/complex.rs:145-166 | the four-multiplication product is the complex product |
| Complex.Mersenne31Complex.Square | field/src/complex.rs:170-193 | the square |
| Complex.Mersenne31Complex.SquareSchoolbook | field/src/complex.rs:197-218 | the square, for the other target |
| Complex.Mersenne31Complex.Inverse | field/src/complex.rs:236-258 | none exactly for zero; otherwise the product with the result is one |
| Complex.Mersenne31Complex.Equals | field/src/complex.rs:263-265 | equality of stored pairs is equality of field elements |
| ComplexDomain.GeneratorOrder | field/src/complex.rs:43-56 | the generator squared 31 - k times has order exactly 2^k |
| ComplexDomain.PowersOfDomain | fft/src/field_utils.rs:20-52 | the first 2^k powers of such an element are pairwise different |
| ComplexDomain.BuildGenerators | field/src/complex.rs:43-56 | entry k of the table generates the domain of size 2^k and has order exactly 2^k |
| ComplexDomain.PowerOf | field/src/field.rs:43-56 | square and multiply in the extension |
| ComplexDomain.SquareTimes | field/src/field.rs:58-62 | repeated squaring of the generator |
| ComplexDomain.OneExactlyAtEnd | fft/src/field_utils.rs:55-79 | the squarings of the generator reach one exactly after 31 of them, so the assertions hold |
| ComplexDomain.DomainGeneratorForSize | fft/src/field_utils.rs:55-79 | no assertion fails, and the result has order exactly the domain size |
| ComplexDomain.SameGenerator | fft/src/field_utils.rs:55-79 | the computed generator equals the table entry |
| ComplexField.ComplexLawful | field/src/complex.rs:288-345 | the extension satisfies the laws the generic code relies on |
| ComplexField.PowReduced | field/src/field.rs:43-56 | powers of stored elements are the reduced powers |
| ComplexField.DomainTable | fft/src/field_utils.rs:40-79 | the power table of a domain generator has no entry twice, and the next power is one again |
| ComplexField.DomainTableAnySize | fft/src/field_utils.rs:81-115 | for the generator of any domain the chunked table is the serial one at every size |
| Avx512.Add | field/src/avx_512_impl.rs:128-134 | every lane stays in range and is the sum modulo p |
| Avx512.Sub | field/src/avx_512_impl.rs:138-144 | every lane stays in range and is the difference modulo p |
| Avx512.Mul | field/src/avx_512_impl.rs:148-189 | every lane stays in range and is the product modulo p, the masked moves putting even and odd halves together |
| Avx512.MulLanes | field/src/avx_512_impl.rs:176-189 | in every lane low and high halves of the doubled product add up to the product |
| Avx512.MulComplexInterleaved | field/src/avx_512_impl.rs:193-209 | all sixteen interleaved complex products |
| Avx512.KaratsubaLane | field/src/avx_512_impl.rs:193-209 | one lane of the three-multiplication product |
| ChainEncoding.ComputeChainEncoding | execution_utils/src/lib.rs:360-375 | the loop over layers computes the chain value, skipping a layer equal to the one before |
| ChainEncoding.CreateInitial | execution_utils/src/lib.rs:327-337 | the chain state over the base layer alone |
| ChainEncoding.Continue | execution_utils/src/lib.rs:339-358 | turns the state over any layers into the state over those and one more |
| ChainEncoding.IncrementalShape | execution_utils/src/lib.rs:339-358 | the state always holds the hash of its preimage and the last layer in its second half |
| ChainEncoding.IncrementalIsChain | execution_utils/src/lib.rs:327-375 | from a nonzero base the incremental chain equals the one computed in one go, for every layer sequence |
| ChainEncoding.IncrementalExactly | execution_utils/src/lib.rs:327-375 | they agree on all layer sequences if and only if the base is nonzero or the hash of two zero digests is zero |
| ChainEncoding.TranscriptExactly | execution_utils/src/lib.rs:327-375 | for the hash of the transcripts they agree on all layer sequences if and only if the base is nonzero |
| ChainEncoding.ChainIgnoresRepeats | execution_utils/src/lib.rs:360-375 | a list without its consecutive repeats is repeat-free and has the same chain value |
| ChainEncoding.ChainCollision | execution_utils/src/lib.rs:360-375 | for every hash, two different repeat-free chains with one value give a collision among the preimages hashed along them, or one that hashes to the start value |
| ChainEncoding.ChainInjective | execution_utils/src/lib.rs:360-375 | so the value determines a repeat-free chain wherever the hash does neither on what the two chains hash |
| ChainEncoding.LayersAreIncremental | tools/cli/src/prover_utils.rs:702-752 | the preimage handed to a layer is the incremental one over all layers before it |
| ChainEncoding.FirstLayer | tools/cli/src/prover_utils.rs:547-585 | stops at the first run with at most 2 proofs and delegation counts at most 1, or 5 and 2, by strategy, or before any run when the layer is skipped, with the state over that many repetitions of the first verifier |
| ChainEncoding.SwitchIsSmall | execution_utils/src/recursion.rs:39-62 | the switch to the second layer happens at exactly those counts |
| ChainEncoding.SecondLayer | tools/cli/src/prover_utils.rs:638-673 | ends after exactly one run that left one proof, or at the first later run with at most one proof and delegation counts at most 1; fails exactly when the one run left another number; with the state over that many more repetitions |
| ChainEncoding.FinishIsSmall | execution_utils/src/recursion.rs:64-94 | the decision of the second layer, with its assertions, is exactly that |
| ChainEncoding.RunMatchesPublished | execution_utils/src/recursion.rs:152-183 | any permitted numbers of repetitions give the published chain value |
| ChainEncoding.Recurse | tools/cli/src/prover_utils.rs:529-676 | finishes or fails exactly at these counts; whatever counts it met, a finished recursion ends with the published program and chain value |
| Blake2sSpec.MixRoundTrip | blake2s_u32/src/mixing_function.rs:7-24 | G is a bijection of its four words |
| Blake2sSpec.RoundsBijective | blake2s_u32/src/mixing_function.rs:112-134 | for a fixed block any number of rounds is a bijection of the sixteen words |
| Blake2sSpec.ColumnsMixed | blake2s_u32/src/mixing_function.rs:27-65 | the first four mixings of a round mix the columns of the work vector, each with its message words |
| Blake2sSpec.DiagonalsMixed | blake2s_u32/src/mixing_function.rs:66-110 | the last four mix its diagonals |
| Blake2sVectors.MatrixRound | blake2s_u32/src/mixing_function.rs:27-110 | a round is a round of the four by four matrix |
| Blake2sVectors.KnownAnswer | blake2s_u32/src/lib.rs:35-46 | the words 0 to 15 hash to the digest of RFC 7693, which depends on the whole schedule |
| Blake2sVectors.KnownReducedAnswer | blake2s_u32/src/lib.rs:35-46 | the same words with seven rounds |
| Blake2sVectors.KnownZeroAnswer | blake2s_u32/src/lib.rs:35-46 | sixteen zero words with seven rounds, not hashed to zero |
| Blake2sHash.G | blake2s_u32/src/mixing_function.rs:7-24 | the in-place update is G at four positions |
| Blake2sHash.MixingFunction | blake2s_u32/src/mixing_function.rs:27-110 | columns and diagonals of one round |
| Blake2sHash.RoundFunction | blake2s_u32/src/mixing_function.rs:112-134 | seven or ten rounds with their message schedule |
| Blake2sHash.ExtendedIsWork | blake2s_u32/src/baseline.rs:105-122 | the extended state as written is the work vector of section 3.2 of RFC 7693 below 2^32 bytes |
| Blake2sHash.Blake2sState.constructor | blake2s_u32/src/baseline.rs:54-60 | parameter block folded into the first word, counter zero |
| Blake2sHash.Blake2sState.Reset | blake2s_u32/src/baseline.rs:74-80 | back to the initial state |
| Blake2sHash.Blake2sState.RunInto | blake2s_u32/src/baseline.rs:98-134 | one compression, folded into the destination |
| Blake2sHash.Blake2sState.Absorb | blake2s_u32/src/baseline.rs:138-173 | one full block |
| Blake2sHash.Blake2sState.AbsorbFinalBlock | blake2s_u32/src/baseline.rs:177-216 | the final block into the destination, the state untouched |
| Blake2sHash.Blake2sState.RunRoundFunctionWithByteLen | blake2s_u32/src/baseline.rs:98-134 | one block from the internal buffer, of any byte length |
| Blake2sHash.HashByAbsorbing | blake2s_u32/src/baseline.rs:138-216 | absorbing block by block gives the unkeyed 32-byte hash of section 3.3 of RFC 7693, for every message below 2^32 bytes |
| Blake2sHash.HashByBuffer | blake2s_u32/src/baseline.rs:85-134 | so does filling the buffer and running the round function, to the byte |
| Blake2sHash.CompressTwoToOne | blake2s_u32/src/baseline.rs:220-254 | the one-call form is the digest of one full block |
| Transcripts.Copy | blake2s_u32/src/lib.rs:125-147 | words copied behind the first ones of the buffer, which stay |
| Transcripts.ZeroFrom | blake2s_u32/src/lib.rs:100-122 | the rest of the buffer cleared, the front kept |
| Transcripts.AfterBlocksPrefix | transcript/src/lib.rs:81-126 | words behind the first k blocks do not matter to the state after them |
| Transcripts.CommitInner | transcript/src/lib.rs:81-126 | the block loop takes all of the input behind whatever is pending and keeps the final block back |
| Transcripts.Flush | transcript/src/lib.rs:128-131 | the closing block gives the digest of everything absorbed |
| Transcripts.CommitInitial | transcript/src/lib.rs:26-35 | the first seed is the digest of the message |
| Transcripts.CommitWithSeed | transcript/src/lib.rs:37-47 | the next seed is the digest of seed and message together |
| Transcripts.RunAbsorb | transcript/src/lib.rs:310-317 | compresses a full buffer as a block that is not the last |
| Transcripts.BufferingTranscript.constructor | transcript/src/lib.rs:271-276 | nothing absorbed |
| Transcripts.BufferingTranscript.Absorb | transcript/src/lib.rs:282-307 | the absorbed words grow by the given ones, however they fall on the blocks |
| Transcripts.BufferingTranscript.Pad | transcript/src/lib.rs:323-333 | as if zero words up to the end of the block had been absorbed |
| Transcripts.BufferingTranscript.FinalizeReset | transcript/src/lib.rs:353-374 | the digest of everything absorbed, and a fresh start |
| Transcripts.Stream | transcript/src/lib.rs:282-351 | however a message is cut into pieces, the seed is the digest of the whole |

## Left out

- Mersenne31Complex.MulAssign: the two operands are different objects, as the borrow rules of the source guarantee.
- FirstLayer, SecondLayer, Recurse: proof counts are inputs; that the loops end is not claimed, since it depends on those counts.
- ChainInjective: nothing is claimed about collisions of BLAKE2s itself; a collision is what two chains of one value would give away.
- CreateRangeCheckTables: keys are numbers, as the reduced forms of field elements; the reduction of a key above the characteristic is stated for one-key tables only.
- HashByAbsorbing, HashByBuffer: messages are 32-bit words, the last one zero-padded by the caller; the little-endian packing of bytes is not modelled.
- The machine variants without signed support, and the minimal machine: their rows are special cases with easier constraints.
- The boolean and register gadgets behind the circuit trait: each is modelled by the polynomial it adds.
- Placeholder variables, which pad the fixed array of a term: a modelled term holds as many variables as its degree.
- Cyclic shifts, which the modelled machine does not enable.
- Memory, decoding, delegation and CSR rows, and the value functions of the one-key tables they use: their keys and indices are those of the range tables shown.
- The recursion constants for the non-universal verifier: the driver loops use the universal one only.
- The quartic extension, the ARM vector forms, twiddle multiplication and rotations of the vector code.
- Drawing randomness and proof of work in the transcript, and the single-round specialisation of the hasher.
- Rayon, the mutex-guarded table cache and thread creation: parallel code is modelled as any schedule of its tasks.
- Proof generation, FRI, memory arguments, file and JSON handling, GPU code, inline assembly and custom instructions.
- Machine word overflow of counters and lengths, except where a member states it: sizes are unbounded integers.
