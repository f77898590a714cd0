# Verified models of gmpxx, the GMP inlines, obstack and argz

The repository ships a target root file system whose headers carry executable
code: the expression templates of `gmpxx.h`, the inline limb arithmetic of
`gmp-32.h`, the object-stack macros of `obstack.h` and the argz iterator of
`argz.h`. This project models that code in Dafny and proves what it is for.

`dafny verify dfyconfig.toml` checks everything.

## What is proved

**Expression evaluation (`MpzExpr`, `MpzExprLaws`, `MixedExpr`, `MixedExprLaws`).** An mpz
variable is an object with a value, a tree holds references to variables, and
`Eval(e, p)` writes into `p` as the C++ code does. For every tree and every
destination, including one that occurs any number of times in the tree, `p`
ends up with the value of the tree in the state before the call, and no other
existing variable changes. A trap (division by zero, or the C division
`LONG_MIN / -1`) happens exactly when the meaning says so. The number of
temporaries is given exactly: one per node with two compound operands, plus one
if `p` is met as the plain operand along the operands evaluated in place. A
program of assignments and compound assignments reaches exactly the store that
its meaning prescribes. The rational evaluator handles integer subtrees whose
leaves may be the numerator or denominator of the destination itself; results
are exact and in lowest terms, and its temporaries are counted exactly too.

**Function objects (`MpzOps`, `MpqOps`, `Words`, `Rationals`).** All width,
sign and power-of-two shortcuts give the mathematical result, whether or not
the compiler sees a constant. Division is the truncating division of section
6.5.5 of ISO C99, which is shown to have one solution.

**Limb arithmetic (`LimbValue`, `MpnInlines`, `MpnLaws`, `MpzStruct`).**
Addition, subtraction, comparison and negation are specified by positional
value in any base over any length. Operands are addresses in one flat memory
and may overlap as far as the library allows. The plain and the nails layouts
are both covered.

**Object stacks (`ObstackState`, `ObstackSteps`, `ObstackMacros`,
`ObstackRuns`).** Along every run of grow, blank, finish and free from a fresh
stack, the script alone fixes how many objects there are, how long each is and
every byte put into it. An object that fits is never moved. Finished objects keep address and contents until freed,
in memory and at every step; they never overlap and are aligned. Replacing a
chunk never drops one that holds a live object.

**Argz (`Argz`).** Both documented loops enumerate the entries; the strings put
into a vector are the strings read back.

## Properties that fail, with the exact condition

- The for-loop iteration style documented in `argz.h` visits the entries if and
  only if the vector is non-empty or its pointer is null; otherwise it visits
  one address that is no entry (`Argz.ForStyle`).
- `mpz_fits_ulong_p` is right for every number if and only if two limbs cover a
  word (`MpzStruct.FitsUlongExactlyWhen`); `MpzStruct.FitsExactlyWhen` gives the
  condition for a general maximum.
- `mpz_get_ui` yields the low word of every number if and only if the nail
  factor divides the limb base (`MpzStruct.LowWordExactlyWhen`).
- A long divided by a big number that fits a long traps for `LONG_MIN / -1`,
  and only there beside a zero divisor (`MpzOps.SiDiv`, `MpzOps.QuotRepresentable`).
- A floor shift is the truncated quotient if and only if the number is
  non-negative or divisible (`Words.FloorAgreesExactlyWhen`), which is why
  division by a power of two must not use the right shift.

## Modelling choices

- A library call such as `mpz_add(z, w, v)` is one assignment to the value of
  `z`, so `z` may be a source, as GMP documents. `mpq_add` and its kin store
  the result in lowest terms.
- `mpn_add_n`, `mpn_sub_n` and `mpn_com` are declared, not defined, in
  `gmp-32.h`; they are written here as ripple loops.
- `_obstack_newchunk` and the out-of-line `obstack_free` are declared only;
  they follow the header's description: a larger chunk receives the growing
  object at its aligned start, the old chunk goes if the object was alone in it
  and no empty object may lie there, the flag is reset for a new chunk and set
  when freeing returns to an older one. The chunk function returns any block of
  the requested size apart from the chunks in use.
- A size or alignment of 0 asks for the default, and freeing the null pointer
  frees everything, as the GNU C Library manual documents for obstacks.
- `long` has 32 bits, as on the target of `gmp-32.h`. Whether the compiler
  knows a literal or its sign (`__builtin_constant_p`) is a parameter.
- A rational that is read and the rational that is written are the same object
  or share no part, as two `mpq_t` do. Integer operands may be the parts of
  either (`MixedExpr.WholeOrApart`, `MpqOps.SameOrApart`). Rational operands are
  in lowest terms, as GMP asks of its callers.
- Addresses, sizes and limb counts are unbounded integers.

## Model

| member | source | states |
|---|---|---|
| MpzExpr.Eval | rootfs/usr/include/gmpxx.h:2178-2578 | for every tree and destination, also one that is a leaf: p gets the value on the pre-state, no other variable changes, traps exactly when undefined, temporaries made and alive at once exactly counted; per node, each operator by its law (a difference plus its right operand is its left operand, a right shift is a floor), operands in written order |
| MpzExpr.EvalLeafLeft | rootfs/usr/include/gmpxx.h:2390-2402 | variable op compound: direct into p unless p is the variable, then exactly one temporary more; same guarantee |
| MpzExpr.EvalLeafRight | rootfs/usr/include/gmpxx.h:2425-2437 | compound op variable, same guarantee |
| MpzExpr.EvalBoth | rootfs/usr/include/gmpxx.h:2564-2569 | compound op compound: right operand to a temporary first, same guarantee |
| MpzExpr.SetExpr | rootfs/usr/include/gmpxx.h:2055-2064 | assignment of any tree, plain variables copied |
| MpzExpr.EvalNode | rootfs/usr/include/gmpxx.h:2178-2578 | one node by the shape of its operands: value on the pre-state, traps, temporaries |
| MpzExpr.NodeMeans | rootfs/usr/include/gmpxx.h:2178-2578 | what each node delivers from its operands, operator by operator |
| MpzExpr.DefinedMeans | rootfs/usr/include/gmpxx.h:2378-2569 | exact trap condition of each node: a zero divisor, or LONG_MIN against -1, or an operand that traps |
| MpzExpr.LiteralAsVariable | rootfs/usr/include/gmpxx.h:2269-2303 | a literal on either side means the same as a variable that holds it |
| MpzExpr.FreshDestination | rootfs/usr/include/gmpxx.h:2138-2147 | a destination outside the tree never causes an aliasing temporary |
| MpzExprLaws.TempsExact | rootfs/usr/include/gmpxx.h:2378-2446 | temporaries = doubly compound nodes, plus one if p is met on the spine, however often p occurs |
| MpzExprLaws.NoTempsExactlyWhen | rootfs/usr/include/gmpxx.h:2378-2446 | no temporary if and only if no doubly compound node and p not met on the spine |
| MpzExprLaws.TempsBounded | rootfs/usr/include/gmpxx.h:2552-2569 | at most one temporary per binary node with a compound operand |
| MpzExprLaws.DepthBelowHeight | rootfs/usr/include/gmpxx.h:2138-2147 | fewer temporaries alive at once than the height of the tree |
| MpzExprLaws.OpAssign | rootfs/usr/include/gmpxx.h:2942-2950 | x op= e is old x op value of e on the pre-state, x inside e or not; temporaries made, and alive at once, exactly |
| MpzExprLaws.OpAssignLit | rootfs/usr/include/gmpxx.h:2952-2960 | x op= literal, traps included |
| MpzExprLaws.ValueInIsValue | rootfs/usr/include/gmpxx.h:2159-2167 | meaning of a tree on a store equals its meaning on the heap the store mirrors |
| MpzExprLaws.Run | rootfs/usr/include/gmpxx.h:1534-1536 | a whole program of assignments reaches exactly the store its meaning prescribes, traps exactly when it does, and changes only assigned variables; a single statement leaves the value of e, or old x op that value, with its exact trap condition |
| MpzExprLaws.ExecComposes | rootfs/usr/include/gmpxx.h:1534-1536 | running p then q is running q from the store p leads to; variables not assigned keep their value |
| MixedExpr.EvalQ | rootfs/usr/include/gmpxx.h:2159-2762 | rational trees with integer subtrees: exact value on the pre-state, lowest terms, traps exactly when undefined, temporaries exactly counted; integer leaves may be parts of the destination; per node, each operator by its law (new q plus right operand is left operand, new q times divisor is dividend), operands in written order |
| MixedExpr.EvalQNode | rootfs/usr/include/gmpxx.h:2178-2762 | one node by kind and shape of its operands: value on the pre-state, traps, temporaries |
| MixedExpr.QNodeMeans | rootfs/usr/include/gmpxx.h:2308-2758 | what each node delivers from its operands, operator by operator |
| MixedExpr.QDefinedMeans | rootfs/usr/include/gmpxx.h:2308-2758 | exact trap condition of each node |
| MixedExpr.QLiteralAsVariable | rootfs/usr/include/gmpxx.h:2269-2303 | a literal on either side means the same as a rational variable that holds it |
| MixedExpr.IntegerAsVariable | rootfs/usr/include/gmpxx.h:2308-2758 | an integer operand on either side means the same as a rational variable that holds its value |
| MixedExpr.EvalQBin | rootfs/usr/include/gmpxx.h:2378-2569 | rational op rational in all four shapes, with the temporaries of each shape |
| MixedExpr.EvalQBoth | rootfs/usr/include/gmpxx.h:2552-2569 | both compound: right operand to a temporary first |
| MixedExpr.EvalAddSubZ | rootfs/usr/include/gmpxx.h:2608-2758 | rational +- integer without converting the integer, four shapes, with the temporaries of each |
| MixedExpr.EvalAddSubBoth | rootfs/usr/include/gmpxx.h:2737-2758 | both compound: integer to a temporary, rational in place |
| MixedExpr.EvalZAddSub | rootfs/usr/include/gmpxx.h:2590-2735 | integer +- rational, four shapes, with the temporaries of each |
| MixedExpr.EvalBothAddSub | rootfs/usr/include/gmpxx.h:2713-2735 | both compound: integer to a temporary, rational in place |
| MixedExpr.EvalMulDivZ | rootfs/usr/include/gmpxx.h:2308-2513 | rational op integer with the integer converted in the destination or in a temporary: exact, canonical, aliasing allowed |
| MixedExpr.EvalZMulDiv | rootfs/usr/include/gmpxx.h:2343-2541 | integer op rational likewise |
| MixedExpr.SetQFromZ | rootfs/usr/include/gmpxx.h:2080-2090 | rational := integer tree, also when the tree reads the numerator or denominator being replaced; temporaries counted |
| MixedExpr.SetQ | rootfs/usr/include/gmpxx.h:2092-2101 | rational := rational tree |
| MixedExpr.SetZFromQ | rootfs/usr/include/gmpxx.h:2066-2071 | integer := rational tree is the value truncated toward zero, less than 1 away and no farther from zero; one mpq temporary for a compound tree |
| MixedExpr.OpAssignZ | rootfs/usr/include/gmpxx.h:2320-2332 | z op= rational truncates the operand first, then applies the integer operation; temporaries counted |
| MixedExpr.OpAssignQ | rootfs/usr/include/gmpxx.h:2942-2950 | q op= rational tree in which q may occur; a compound tree always goes through a temporary |
| MixedExpr.OpAssignQFromZ | rootfs/usr/include/gmpxx.h:2942-2950 | q op= integer tree that may mention the parts of q; temporaries counted |
| MixedExpr.QFreshDestination | rootfs/usr/include/gmpxx.h:2138-2147 | a destination outside the tree never causes an aliasing temporary |
| MixedExprLaws.QTempsExact | rootfs/usr/include/gmpxx.h:2308-2758 | temporaries = what the shape demands, plus one exactly if q is met on the spine, or its numerator is met in an integer operand converted in q |
| MixedExprLaws.MixedTempsExact | rootfs/usr/include/gmpxx.h:2590-2758 | the same count for one node with a rational and an integer operand, in either order |
| MixedExprLaws.QNoTempsExactlyWhen | rootfs/usr/include/gmpxx.h:2308-2758 | no temporary if and only if the shape demands none and the destination is not met |
| MixedExprLaws.QDepthWithinHeight | rootfs/usr/include/gmpxx.h:2308-2758 | never more temporaries alive than the tree is high |
| MpzOps.ApplyUn | rootfs/usr/include/gmpxx.h:163-180 | copy, negation (sum with the operand 0), complement (sum -1), magnitude (non-negative, the operand or its negation); destination may be the source |
| MpzOps.ApplyVV | rootfs/usr/include/gmpxx.h:182-185 | binary operators on two variables under any aliasing; traps exactly for a zero divisor |
| MpzOps.BinLaws | rootfs/usr/include/gmpxx.h:182-763 | the operators by their laws: difference plus subtrahend, truncated quotient with its remainder bound and sign |
| MpzOps.ApplyVL | rootfs/usr/include/gmpxx.h:187-788 | variable op literal agrees with the mathematical operator for every operator and literal |
| MpzOps.ApplyLV | rootfs/usr/include/gmpxx.h:302-799 | literal op variable likewise; traps exactly for a zero divisor or LONG_MIN against -1 |
| MpzOps.Lshift | rootfs/usr/include/gmpxx.h:434-444 | product with a power of two |
| MpzOps.Rshift | rootfs/usr/include/gmpxx.h:458-468 | z * 2^l <= w < (z + 1) * 2^l; differs from the truncated quotient exactly for a negative w that is not divisible |
| MpzOps.ShiftLaws | rootfs/usr/include/gmpxx.h:434-468 | the same for the meaning used in trees |
| MpzOps.AddSi | rootfs/usr/include/gmpxx.h:200-206 | exact sum for every long, LONG_MIN included |
| MpzOps.SubSi | rootfs/usr/include/gmpxx.h:311-317 | exact difference |
| MpzOps.SiSub | rootfs/usr/include/gmpxx.h:318-327 | exact difference, in place too |
| MpzOps.MulUi | rootfs/usr/include/gmpxx.h:487-505 | zero and power-of-two shortcuts equal general multiplication |
| MpzOps.MulSi | rootfs/usr/include/gmpxx.h:508-519 | signed wrapper equals general multiplication |
| MpzOps.DivUi | rootfs/usr/include/gmpxx.h:611-628 | truncated quotient, shortcuts included, trap exactly for 0 |
| MpzOps.DivSi | rootfs/usr/include/gmpxx.h:650-659 | truncated quotient by a signed literal |
| MpzOps.UiDiv | rootfs/usr/include/gmpxx.h:629-649 | truncated quotient of a word by any big number, z equal to w allowed |
| MpzOps.SiDiv | rootfs/usr/include/gmpxx.h:660-670 | truncated quotient of a signed word by any big number; fails exactly for 0 and LONG_MIN / -1 |
| MpzOps.BeyondLong | rootfs/usr/include/gmpxx.h:664-669 | outside the long range quotient and remainder are 0 and l, except -1 and 0 for LONG_MIN under 2^31 |
| MpzOps.QuotRepresentable | rootfs/usr/include/gmpxx.h:662-663 | a quotient of longs is a long except for LONG_MIN / -1 |
| MpzOps.UiMod | rootfs/usr/include/gmpxx.h:767-784 | truncated remainder of a word |
| MpzOps.SiMod | rootfs/usr/include/gmpxx.h:789-799 | truncated remainder of a signed word; fails exactly for 0 and LONG_MIN against -1 |
| MpzOps.ModAbs | rootfs/usr/include/gmpxx.h:765-788 | truncated remainder by the magnitude of a literal, trap exactly for 0 |
| Words.AbsUi | rootfs/usr/include/gmpxx.h:151-155 | magnitude of a long, exact for LONG_MIN |
| Words.QuotRemTruncate | rootfs/usr/include/gmpxx.h:606-670 | quotient and remainder satisfy the equations of ISO C99 |
| Words.TruncationUnique | rootfs/usr/include/gmpxx.h:606-670 | nothing else satisfies them |
| Words.FloorAgreesExactlyWhen | rootfs/usr/include/gmpxx.h:617-623 | a floor shift truncates if and only if the number is non-negative or divisible |
| Words.PowerTestExact | rootfs/usr/include/gmpxx.h:491-499 | l & (l-1) == 0 selects exactly zero and the powers of two; ctz recovers the exponent |
| Rationals.AddInteger | rootfs/usr/include/gmpxx.h:217-258 | n + k*d over d is in lowest terms again and has value r + k |
| Rationals.LowestRight | rootfs/usr/include/gmpxx.h:214-215 | lowest terms keep the value |
| Rationals.CanonicalMeans | rootfs/usr/include/gmpxx.h:217-258 | positive denominator, no common divisor above 1 |
| Rationals.LowestTermsUnique | rootfs/usr/include/gmpxx.h:217-258 | equal values in lowest terms have equal numerators and denominators |
| Rationals.QuotTruncates | rootfs/usr/include/gmp-32.h:1854-1858 | numerator over denominator truncates the value |
| Rationals.TruncateMeans | rootfs/usr/include/gmp-32.h:1854-1858 | truncation is toward zero and less than 1 away |
| MpqOps.AddSubZ | rootfs/usr/include/gmpxx.h:246-256 | rational +- mpz is exact and canonical without canonicalisation; z may be part of q or r |
| MpqOps.AddSubUi | rootfs/usr/include/gmpxx.h:217-234 | rational +- unsigned, in place or not |
| MpqOps.AddSubSi | rootfs/usr/include/gmpxx.h:356-362 | rational +- signed, LONG_MIN included |
| MpqOps.AddSubFromZ | rootfs/usr/include/gmpxx.h:381-382 | mpz +- rational |
| MpqOps.NegateInPlace | rootfs/usr/include/gmp-32.h:1886-1892 | negation keeps lowest terms |
| MpqOps.ApplyQUn | rootfs/usr/include/gmpxx.h:163-174 | copy, negation (sum with the operand 0), magnitude; lowest terms |
| MpqOps.QShift | rootfs/usr/include/gmpxx.h:445-477 | left: value times 2^l; right: value over 2^l, exactly |
| MpqOps.QBinLaws | rootfs/usr/include/gmpxx.h:182-709 | the four operators by their laws over the reals; None exactly for a zero divisor |
| MpqOps.SameValueSameParts | rootfs/usr/include/gmpxx.h:217-258 | two rational variables of equal value agree in numerator and denominator |
| MpqOps.Step | rootfs/usr/include/gmpxx.h:1055-1069 | increment and decrement are exact and canonical |
| MpqOps.QMulUi | rootfs/usr/include/gmpxx.h:530-550 | product with a word, shortcuts included |
| MpqOps.QMulSi | rootfs/usr/include/gmpxx.h:553-567 | product with a signed word |
| MpqOps.QDivUi | rootfs/usr/include/gmpxx.h:679-690 | quotient by a word, trap exactly for 0 |
| MpqOps.QDivSi | rootfs/usr/include/gmpxx.h:693-707 | quotient by a signed word |
| MpqOps.ApplyQL | rootfs/usr/include/gmpxx.h:217-707 | rational op literal for all four operators |
| MpqOps.ApplyLQ | rootfs/usr/include/gmpxx.h:354-709 | literal op rational for all four operators: exact, canonical, q may be r, trap exactly for a zero divisor |
| MpnInlines.AorsN | rootfs/usr/include/gmp-32.h:1469-1470 | equal lengths: val(w) +- c*b^n = val(x) +- val(y), carry 0 or 1, rest of memory untouched |
| MpnInlines.LimbStepRight | rootfs/usr/include/gmp-32.h:1979-2063 | all three carry tests (masked, wrap-around compare, nail bits) are right |
| MpnInlines.PropagateCarry | rootfs/usr/include/gmp-32.h:1926-1939 | carry loop: stops at the limb that absorbs the carry, value equation kept |
| MpnInlines.CopyRest | rootfs/usr/include/gmp-32.h:2104-2116 | copies exactly the upper limbs |
| MpnInlines.CopyTail | rootfs/usr/include/gmp-32.h:1940-1942 | without a pending carry, copying the rest completes the sum |
| MpnInlines.AorsLong | rootfs/usr/include/gmp-32.h:1913-1952 | mpn_add and mpn_sub for all xsize >= ysize >= 0, w identical to or separate from x and y |
| MpnInlines.AorsOne | rootfs/usr/include/gmp-32.h:1979-2063 | mpn_add_1 and mpn_sub_1 in the plain and in the nails layout, in place or not |
| MpnInlines.Cmp | rootfs/usr/include/gmp-32.h:2069-2089 | positive, negative or 0 exactly as val(x) is above, below or limb for limb equal to y; size 0 included |
| MpnInlines.ZeroP | rootfs/usr/include/gmp-32.h:2170-2179 | true exactly for value 0 |
| MpnInlines.SkipZeros | rootfs/usr/include/gmp-32.h:2215-2221 | stops at the lowest nonzero limb, zeros written below it |
| MpnInlines.Complement | rootfs/usr/include/gmp-32.h:1553-1554 | mpn_com: every limb replaced by b - 1 minus it, in place or not, nothing else changed |
| MpnInlines.BorrowComplements | rootfs/usr/include/gmp-32.h:2225-2226 | under a pending borrow, complementing the upper limbs completes the subtraction from zero |
| MpnInlines.Neg | rootfs/usr/include/gmp-32.h:2212-2229 | the subtraction 0 - u with its borrow, in place or not |
| MpnLaws.ResultUnique | rootfs/usr/include/gmp-32.h:1913-1952 | value equation and limb range determine every limb and the carry, so all layouts agree |
| MpnLaws.CarryEquation | rootfs/usr/include/gmp-32.h:1913-1952 | limbs below the base, carry 0 or 1, val(w) + b^n c = val(x) + y, or val(w) + y = val(x) + b^n c |
| MpnLaws.InverseRestores | rootfs/usr/include/gmp-32.h:1947-1952 | subtraction undoes addition limb for limb, borrow equals carry, and conversely |
| MpnLaws.CarryMeansOverflow | rootfs/usr/include/gmp-32.h:2157-2192 | borrow if and only if val(x) < y; carry if and only if the sum needs another limb |
| MpnLaws.OneLimbAgrees | rootfs/usr/include/gmp-32.h:2060-2063 | adding a limb equals adding the one-limb vector |
| MpnLaws.NegValue | rootfs/usr/include/gmp-32.h:2212-2229 | val(r) = c*b^n - val(u), c = 0 exactly for u = 0 |
| MpnLaws.NegIsAdditiveInverse | rootfs/usr/include/gmp-32.h:2212-2229 | u plus its negation is n zero limbs with carry c |
| MpnLaws.ComplementValue | rootfs/usr/include/gmp-32.h:1553-1554 | the complement of u is b^n - 1 - u, and complementing twice gives u back |
| MpnLaws.AddThenSub | rootfs/usr/include/gmp-32.h:2131-2192 | x + y into w, then y subtracted from w: w holds x again, borrow equals carry; in place, all of memory is restored |
| MpnLaws.NegThenAdd | rootfs/usr/include/gmp-32.h:2170-2229 | negate into r, then add u to it: r is all zeros, and the zero test on u foretells the carry |
| MpnLaws.CmpThenSub | rootfs/usr/include/gmp-32.h:2157-2192 | mpn_cmp is negative exactly when mpn_sub borrows |
| MpzStruct.FitsExactlyWhen | rootfs/usr/include/gmp-32.h:1716-1727 | the fits test equals 0 <= z <= maxval for all normalised z if and only if maxval fits a limb, or nails are present and maxval + 1 is a whole number of limbs below b^2 |
| MpzStruct.MisjudgedIsWrong | rootfs/usr/include/gmp-32.h:1716-1727 | a concrete number misjudged for every other maxval |
| MpzStruct.FitsUlongExactlyWhen | rootfs/usr/include/gmp-32.h:1744-1748 | for ULONG_MAX: exact if and only if two limbs cover a word |
| MpzStruct.GetUiExact | rootfs/usr/include/gmp-32.h:1766-1787 | a number that fits is returned unchanged |
| MpzStruct.GetUiIsLowWord | rootfs/usr/include/gmp-32.h:1766-1787 | any number, any sign: its magnitude modulo the word |
| MpzStruct.LowWordExactlyWhen | rootfs/usr/include/gmp-32.h:1780-1786 | this holds for all numbers if and only if the nail factor divides the base |
| MpzStruct.SafeNumber | rootfs/usr/include/gmpxx.h:85-94 | the stored fields are the normalised number l |
| MpzStruct.Mpz.SetUiSafe | rootfs/usr/include/gmpxx.h:85-94 | normalised, exact value, one or two limbs |
| MpzStruct.Mpz.SetSiSafe | rootfs/usr/include/gmpxx.h:96-106 | normalised, exact value, most negative long included |
| MpzStruct.Mpz.Neg | rootfs/usr/include/gmp-32.h:1805-1811 | value negated, in place or not |
| MpzStruct.Mpz.AbsOf | rootfs/usr/include/gmp-32.h:1707-1713 | magnitude, in place or not |
| MpzStruct.SetThenGet | rootfs/usr/include/gmpxx.h:85-94 | set, test and get return the word in every layout |
| ObstackState.PtrAligned | rootfs/usr/include/obstack.h:119-134 | the bit trick yields an aligned address less than one unit above |
| ObstackState.PtrAlignIsLeast | rootfs/usr/include/obstack.h:119-134 | and the least such address |
| ObstackState.NextPlaceIsLeast | rootfs/usr/include/obstack.h:388-401 | where the next object starts: the least aligned address in the chunk not below the end, or the end of the chunk if there is none |
| ObstackState.EndsBefore | rootfs/usr/include/obstack.h:388-401 | in a chunk, earlier objects end before later ones start |
| ObstackState.ObjectsDisjoint | rootfs/usr/include/obstack.h:87-98 | no two objects share a byte, across chunks too |
| ObstackState.ObjectsAligned | rootfs/usr/include/obstack.h:388-401 | every start is aligned or the chunk's end; non-empty objects are aligned despite the clamp |
| ObstackState.FlagProtects | rootfs/usr/include/obstack.h:173-176 | base at the aligned start with a live object in the chunk implies the flag |
| ObstackState.OneChunkHolds | rootfs/usr/include/obstack.h:403-409 | an object address belongs to one chunk only, adjacent chunks included |
| ObstackState.EmptyExactlyWhen | rootfs/usr/include/obstack.h:288-294 | with one chunk left, the emptiness test holds exactly when every object is empty |
| ObstackSteps.AppendKeeps | rootfs/usr/include/obstack.h:296-304 | growing keeps the invariant and appends exactly the bytes |
| ObstackSteps.ResizeKeeps | rootfs/usr/include/obstack.h:359-366 | blanking and shrinking keep the invariant, change the length by exactly n and keep the common prefix |
| ObstackSteps.FinishKeeps | rootfs/usr/include/obstack.h:388-401 | finishing keeps the invariant and records the object with its bytes |
| ObstackSteps.CutKeeps | rootfs/usr/include/obstack.h:403-409 | freeing keeps the invariant for everything before the object |
| ObstackSteps.DroppedIsBare | rootfs/usr/include/obstack.h:173-176 | a chunk that is dropped holds no finished object |
| ObstackSteps.MoveKeeps | rootfs/usr/include/obstack.h:78-81 | moving to a new chunk keeps the invariant and the growing bytes |
| ObstackSteps.FreedPlaceReused | rootfs/usr/include/obstack.h:403-409 | after a free, the next object that fits starts at the freed address; earlier ones are intact |
| ObstackMacros.Obstack.constructor | rootfs/usr/include/obstack.h:228-246 | a fresh stack of one chunk satisfies the invariant, with the default size or alignment where 0 is passed |
| ObstackMacros.Obstack.Begin | rootfs/usr/include/obstack.h:234-236 | the first chunk of a stack that has none, of the requested size, with an empty object at its aligned start |
| ObstackMacros.Obstack.NewChunk | rootfs/usr/include/obstack.h:78-81 | room for the request in a chunk of at least the preferred size, growing bytes and finished objects kept, old chunk dropped exactly when the object was alone in it and the flag is clear |
| ObstackMacros.Obstack.MakeRoom | rootfs/usr/include/obstack.h:280-286 | room without visible change; nothing at all changes if there was room |
| ObstackMacros.Obstack.Grow | rootfs/usr/include/obstack.h:296-304 | appends the bytes, finished objects unchanged; what fits is not moved, what does not starts a new chunk |
| ObstackMacros.Obstack.Grow0 | rootfs/usr/include/obstack.h:306-315 | appends the bytes and a zero; what fits is not moved |
| ObstackMacros.Obstack.Grow1 | rootfs/usr/include/obstack.h:317-323 | appends one byte; what fits is not moved |
| ObstackMacros.Obstack.Blank | rootfs/usr/include/obstack.h:359-366 | lengthens or shortens by exactly n, keeping the common prefix; what fits is not moved |
| ObstackMacros.Obstack.BlankFast | rootfs/usr/include/obstack.h:256 | the same without the room test, changing next_free only |
| ObstackMacros.Obstack.Finish | rootfs/usr/include/obstack.h:388-401 | returns the base, records exactly the grown bytes, sets the flag exactly for an empty object, starts the next one aligned or at the chunk end; chunks untouched |
| ObstackMacros.Obstack.Copy | rootfs/usr/include/obstack.h:374-378 | the new object holds what was growing followed by the bytes, at the old base if it fits; earlier objects unchanged |
| ObstackMacros.Obstack.Alloc | rootfs/usr/include/obstack.h:368-372 | the new object is n bytes longer than what was growing and starts with it, at the old base if it fits; earlier objects unchanged |
| ObstackMacros.Obstack.Free | rootfs/usr/include/obstack.h:403-409 | fast or slow path: exactly object i and all later ones go, the stack continues at its address in its chunk, the flag is set if chunks went |
| ObstackMacros.Obstack.SlowFree | rootfs/usr/include/obstack.h:192-197 | the stack is cut at the object wherever its chunk is in the chain |
| ObstackMacros.Obstack.Unwind | rootfs/usr/include/obstack.h:192-197 | releases the newest chunks back to the one that holds the address, never further, and all of them if none does; sets the flag exactly if one went |
| ObstackMacros.Obstack.FreeAll | rootfs/usr/include/obstack.h:403-409 | freeing the null pointer leaves no chunk and no object |
| ObstackMacros.Obstack.EmptyP | rootfs/usr/include/obstack.h:288-294 | one chunk left and every object empty |
| ObstackRuns.Perform | rootfs/usr/include/obstack.h:296-409 | each operation has exactly its visible effect on objects and addresses and keeps the invariant |
| ObstackRuns.Run | rootfs/usr/include/obstack.h:71-98 | every script from a fresh stack is a run; at every step the invariant holds of the memory behind what the client sees, and what fits stays in place |
| ObstackRuns.ObjectPersists | rootfs/usr/include/obstack.h:27-32 | a finished object keeps address, chunk and bytes until freed |
| ObstackRuns.RunRealisesPlan | rootfs/usr/include/obstack.h:71-98 | every run of all operations, at every step: number, length and every specified byte of all objects are what the script alone prescribes |
| ObstackRuns.FinishedHoldsWhatWasBuilt | rootfs/usr/include/obstack.h:296-401 | an object built by any mix of grow, blank, shrink and make-room, then finished, has the exact length, and every byte put there, at every later step until freed |
| ObstackRuns.FinishedHoldsWhatWasGrown | rootfs/usr/include/obstack.h:71-81 | without blanks, the object is the concatenation of what was grown into it, at every later step |
| ObstackRuns.MemoryHoldsObject | rootfs/usr/include/obstack.h:71-76 | along a run, memory read at any later step at the address an object was given yields its bytes; it is aligned unless empty, and no other object shares a byte with it |
| ObstackRuns.BuiltInPlace | rootfs/usr/include/obstack.h:71-76 | along a run, an object whose every extension fits is finished at the address where it was begun |
| ObstackRuns.StoreAll | rootfs/usr/include/obstack.h:374-378 | any list of strings copied onto a fresh stack is found in memory, each at the address returned for it |
| Argz.StrEnd | rootfs/usr/include/argz.h:138-139 | the first NUL at or after the pointer |
| Argz.StepToNext | rootfs/usr/include/argz.h:136-142 | from a start, the remaining starts are those after its NUL |
| Argz.NextVisits | rootfs/usr/include/argz.h:133-145 | one call moves to the next entry, or to null after the last |
| Argz.VisitFrom | rootfs/usr/include/argz.h:112-125 | the loop visits every later start once, in order, and ends |
| Argz.WhileStyle | rootfs/usr/include/argz.h:116-118 | the while style visits exactly the entries, for empty and unterminated vectors too |
| Argz.ForStyle | rootfs/usr/include/argz.h:120-125 | the for style visits the same if and only if the vector is non-empty or null |
| Argz.AsManyAsNuls | rootfs/usr/include/argz.h:51-53 | as many entries as NUL bytes in a terminated vector |
| Argz.ListedExactly | rootfs/usr/include/argz.h:112-114 | an address is visited if and only if an entry starts there |
| Argz.StartsAscend | rootfs/usr/include/argz.h:112-114 | no entry twice, in address order |
| Argz.EncodeThenIterate | rootfs/usr/include/argz.h:35-39 | the addresses visited over a vector made of given strings hold exactly those strings, each ended by its NUL |

## Left out

- `add.c`, `hello.c`: console programs around one addition or one print.
- `mpf` arithmetic, double operands, `hypot`: rounding and precision live in a library that is not part of this model.
- The and, or, xor, gcd, lcm and sqrt function objects: each is one library call; they would only add easy members to the evaluator.
- Comparison objects, stream and string conversion, exceptions, random-state classes and `numeric_limits` of `gmpxx.h`.
- Mixed trees with `mpf` operands, and C++ overload selection: a tree here is already typed.
- MpzOps.SiDiv: the value of the C division `LONG_MIN / -1` is undefined, so the model stops there instead of giving a result.
- MpzStruct.Mpz.SetUiSafe: covers layouts where a word takes at most two limbs, which the two stores in the source presuppose; SetSiSafe and SetThenGet likewise.
- MpzStruct.Mpz.Set: allocation failure of `mpz_set` is not modelled.
- ObstackMacros.Obstack.Free: the abort on an address that no chunk holds is not modelled; the null pointer is `FreeAll`.
- ObstackMacros.Obstack.constructor: asks for chunks that can hold their own header and an aligned start; the default size and alignment are parameters, since the code that fixes them is not part of this model.
- `obstack_ptr_grow`, `obstack_int_grow`, `obstack_copy0`, size and room queries: variants of the operations covered.
- Word-size overflow of addresses and of `int` lengths in `obstack.h`.
- `argz_create`, `argz_insert`, `argz_replace` and the other argz functions: declarations only.
- The prototype-only part of `gmp-32.h`.
