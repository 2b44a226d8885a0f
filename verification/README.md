# Proofs about the core of Ruby: bignums, arrays, classes and control flow

This project models four parts of the Ruby interpreter and proves what they are for.

* **bignum.c** - multi-precision arithmetic on digit arrays: carries and borrows, the multiplication tower
  (schoolbook, squaring, balancing, Karatsuba, Toom-3 and the dispatchers between them), long division by a
  trial digit, Newton's square root, printing and parsing in every radix through a cache of powers, bitwise
  operations on sign-magnitude numbers, and packing into buffers of words.
* **array.c** - arrays that share buffers and copy on write, and the loops of `flatten`, `combination` and
  `permutation`.
* **class.c** - the metaclass tower.
* **compile.c** - code generation for control flow, stack depths, and the two-pass assembler.

## How the model is built

**Digits and memory.** A digit is a number below `BIGRAD`, of which only two facts are used: it is a power of two and at
least 2^16. `Memory` is one address space of digits; an operand is a pointer and a length, so operands may share
cells as they do in C, and every contract says which cells may change (`Keeps`, `Keeps2`). `V(m, p, n)` is the number in
`n` digits at `p`. Accumulators are integers with their ranges proved (`FitsDouble`, `FitsSigned`). Where the source joins
disjoint bits with `|`, the model adds.

**Arrays.** A `Store` maps references to array objects (embedded, owning a buffer, a slice of a shared root, or a root
with its count) and buffers to elements. `Inv` says, among other things, that a root's count is exactly the number of
arrays using it and of those freed while they did: freeing a sharer does not decrement, and the model notes how many there
were (`lost`). `View` is what a program can see.

**Classes.** A `Graph` of class objects with class, superclass and attached object, where included modules stand
between a class and its superclass. `Tower` says that wherever a class has a metaclass of its own, so has
its superclass, and the metaclass's superclass is the superclass's metaclass.

**Code.** Trees are built from opaque expressions, constants, `and`/`or`, `if`/`unless`, `while`/`until` and sequences.
An oracle says what each opaque expression returns, given all calls before it, so the trace of calls is the
observable effect. Values have the words of the build with flonums. `Eval` gives up a loop after `fuel` rounds; every theorem covers all amounts of fuel, and an
evaluation that never ends is matched by code that never ends.

**Findings.** Places where a property fails, each with its exact condition:

* `rb_ary_store` to index `ARY_MAX_SIZE - 1` computes a capacity that does not hold the index, exactly when the array has
  to grow for it; growing holds every smaller index (`ArrayOps.StoreRoom`, `ArrayOps.ArrayHeap.StoreAt`).
* `unshift` of one or more elements changes a frozen array exactly when the array is the only slice of a shared root with
  room to spare (`ArrayOps.ArrayHeap.Unshift`); two shifts of an array of 17 or more lead there
  (`ArrayOps.FrozenUnshift`).
* The two passes of the assembler disagree on code indexes exactly when a restoring ADJUST stands before an emitting one,
  with only instructions between, and the depth it restores calls for other pops than the depth there was
  (`FixDepth.PassesAgree`, with a list that fix_sp_depth accepts in `FixDepth.PassesCanDisagree`).
* A list that fix_sp_depth accepts can still be refused by the second pass, but only at an emitting ADJUST to a label that
  had no depth yet and gets one above the depth there (`FixDepth.NoAdjustBugs`, with a list in `FixDepth.AcceptedCanFail`).
* Bit reference reads a zero with the negative flag as all ones above its digits; normalised numbers have no such zero
  (`BitOps.BitRef`).

## Model

| member | source | states |
|---|---|---|
| `AddSub.Addc` | bignum.c:1378-1422 | sum of two operands of any lengths plus a carry, with the carry out; z may be x or y |
| `AddSub.Subb` | bignum.c:1315-1364 | difference less a borrow, with the borrow out; z may be x or y |
| `AddSub.AddOne` | bignum.c:1430-1440 | increment with carry out |
| `Shifts.TwosComp` | bignum.c:453-472 | negation modulo the power of the base that the digits hold, and the zero flag exactly for zero |
| `Shifts.SmallLshift` | bignum.c:404-417 | product by a power of two, the bits pushed out returned |
| `Shifts.SmallRshift` | bignum.c:419-433 | quotient by a power of two with digits coming in from above; what is dropped is the low bits |
| `Schoolbook.MulAdd1xN` | bignum.c:1454-1487 | z + digit * y with the carry out, the accumulator never overflowing |
| `Schoolbook.MulNormal` | bignum.c:1529-1540 | schoolbook product is the product |
| `Schoolbook.ShortMul` | bignum.c:2301-2313 | the choice for short operands is the product |
| `Squaring.SqFast` | bignum.c:1557-1609 | fast squaring is the square for every length |
| `Squaring.SqBounds` | bignum.c:1579-1589 | its accumulator never exceeds a double digit, tight because the low half of twice a digit is even |
| `Squaring.TopIsSmall` | bignum.c:1590-1608 | the top digits that its unchecked additions touch hold at most 1 |
| `EasyProducts.Precheck` | bignum.c:2328-2424 | either the product is done, or trimmed operands remain whose product, moved up, is the product |
| `SignedOps.SignedSub` | bignum.c:2123-2134 | signed difference by sign flags and magnitudes |
| `Toom3Steps.Evaluate` | bignum.c:2014-2046 | an operand's three parts evaluated at 1, -1 and -2 with signs |
| `Toom3Steps.Third` | bignum.c:2123-2135 | the division by 3 leaves no remainder |
| `Toom3Steps.Half` | bignum.c:2137-2149 | the first halving drops no bit |
| `Toom3Steps.LastCoeff` | bignum.c:2164-2185 | the second halving drops no bit, and the coefficient is exact |
| `Toom3Steps.Interpolate` | bignum.c:2113-2217 | the three inner coefficients are recovered exactly from five values |
| `Toom3Steps.Assemble` | bignum.c:2219-2238 | adding the coefficients at their places, by sign, gives the polynomial at the base |
| `Toom3Steps.ConvolveAtBase` | bignum.c:1980-2008 | the convolution coefficients at the base are the product |
| `FastMul.Toom3` | bignum.c:1864-2246 | Toom-3 is the product for all lengths its asserts allow, squaring included, within its work area |
| `FastMul.KaratsubaEven` | bignum.c:1712-1826 | the partial products, sign, borrow and carries recombine to the product, though they overwrite one another in z and w |
| `FastMul.KCarries` | bignum.c:1814-1826 | the three carries go where they belong, modulo the room in z |
| `FastMul.TopDigit` | bignum.c:1839-1845 | the digit left over from an odd length is multiplied in |
| `FastMul.Karatsuba` | bignum.c:1682-1849 | Karatsuba is the product for odd and even lengths and for squares |
| `FastMul.Balance` | bignum.c:1622-1668 | cutting the longer operand in slices gives the product |
| `FastMul.KaratsubaBranch` | bignum.c:2426-2454 | whichever way the sparsity tests fall, the product |
| `FastMul.KaratsubaStart` | bignum.c:2456-2463 | the same with operands to trim first |
| `FastMul.Toom3Branch` | bignum.c:2465-2479 | the choice between Toom-3, balancing and Karatsuba gives the product |
| `FastMul.Toom3Start` | bignum.c:2481-2488 | the same with operands to trim first; all of these terminate on the sum of lengths |
| `FastMul.BaryMul` | bignum.c:2490-2514 | multiplication is the product for all lengths and nothing but the result changes |
| `DigitDivision.DivMulSub` | bignum.c:1489-1513 | window less digit * y, with the signed carry out |
| `DigitDivision.MulSub1xN` | bignum.c:1515-1527 | the same with a borrow flag |
| `DigitDivision.DivSingle1` | bignum.c:2564-2587 | quotient and remainder by one digit, in place or not |
| `DigitDivision.DivSingle` | bignum.c:2589-2593 | the same with nothing above |
| `Division.TrialBounds` | bignum.c:2537-2542 | the trial digit is never below the true one, at most 2 above, and the partial remainder never below -B^yn |
| `Division.AddBack` | bignum.c:2543-2549 | adding back restarts from carry-1, runs at most twice and ends with 0 <= r < y |
| `Division.QuotientDigit` | bignum.c:2537-2552 | one exact quotient digit |
| `Division.DivRem1` | bignum.c:2522-2555 | the dividend is overwritten by quotient and remainder, exactly |
| `Division.Restoring` | bignum.c:2595-2632 | the same when low zero digits of the divisor are skipped |
| `Division.DivmodNormal` | bignum.c:2634-2693 | normalising, dividing and shifting back gives quotient and remainder of the original numbers, with either result or none asked for, the result areas serving as work areas |
| `Division.Divmod` | bignum.c:2823-2866 | quotient and remainder for all operands; fails, changing nothing, exactly for a zero divisor |
| `Isqrt.Cmp` | bignum.c:386-402 | comparison of numbers with any leading zeros |
| `Isqrt.NeverBelow` | bignum.c:6857-6872 | a Newton step never goes below the root |
| `Isqrt.NewtonStep` | bignum.c:6866-6871 | the mean of x and n/x is taken without losing the carry of the sum |
| `Isqrt.Newton` | bignum.c:6857-6875 | from any start not below the root the loop ends at exactly floor(sqrt(n)) |
| `Isqrt.RootUnique` | bignum.c:6857-6875 | there is one such root, so the loop's result is determined |
| `PowerCache.MaxPow` | bignum.c:331-363 | the largest power of the radix below a double digit |
| `PowerCache.Table.GetPower` | bignum.c:4634-4676 | every cached entry is maxpow^(2^level), however the table was filled; older entries stay |
| `RadixText.PlainUnique` | bignum.c:4698-4735 | digits without a leading zero are determined by their number |
| `RadixText.Split` | bignum.c:4738-4858 | dividing by a power of the radix splits the digits, zeros padded in the low part |
| `RadixText.DigitPrinted` | bignum.c:38 | the characters printed are the 36 of the table, in its order |
| `RadixText.DigitRead` | util.c:63-81 | digits and letters of either case read as their digits |
| `RadixText.OthersUnread` | util.c:63-81 | no other character reads as a digit |
| `Printing.Printer.TwoDigits` | bignum.c:4698-4735 | a double digit is printed without leading zeros if it is the first, else with all of them |
| `Printing.FindLevel` | bignum.c:4783-4801 | the level descended to bounds the number from both sides |
| `Printing.DivideInPlace` | bignum.c:4821-4850 | scaling, dividing and scaling back in the work area gives quotient and remainder |
| `Printing.Karatsuba` | bignum.c:4737-4858 | each call writes exactly numdigits*2^level characters, or fewer without leading zero when it is the first |
| `Printing.ChooseLevel` | bignum.c:4921-4942 | the chosen power level always bounds the number |
| `Printing.Big2Str` | bignum.c:4897-4972 | the text is the sign and the digits of the number, "0" for zero, an error for a bad radix |
| `Parsing.TimesPlus` | bignum.c:3826-3842 | one character: number * base + digit, the used length growing only when needed |
| `Parsing.DigitsOfConcat` | bignum.c:3823-3825 | the digits of a text are those of its parts, in order |
| `Parsing.DigitsOfOne` | bignum.c:3823-3825 | a character gives its digit, or none |
| `Parsing.Str2BigNormal` | bignum.c:3804-3846 | schoolbook parsing gives the positional value, underscores skipped |
| `Parsing.FillGroups` | bignum.c:3877-3900 | the digits are grouped from the right into double digits |
| `Parsing.JoinAll` | bignum.c:3902-3914 | one round of joining neighbours keeps the number and squares the power |
| `Parsing.Str2BigKaratsuba` | bignum.c:3848-3929 | divide-and-conquer parsing gives the same positional value |
| `Parsing.RoomEnough` | bignum.c:4193-4195 | the digits allotted always hold the number |
| `Parsing.Parse` | bignum.c:4188-4216 | whichever parser is chosen, the positional value |
| `Parsing.RoundTrip` | bignum.c:3804-3929 | the digits of x in a radix, as text, read as x |
| `Parsing.PrintAndParse` | bignum.c:4897-4972 | printing a number and parsing the digits printed, in the same radix, gives the magnitude and the sign back |
| `TwosComplement.BitsDecide` | bignum.c:6317-6346 | an integer is determined by its infinite two's-complement bits |
| `TwosComplement.OpUnique` | bignum.c:6317-6346 | the bits of an operation's result determine it, so a result so described is the result |
| `TwosComplement.OpSums` | bignum.c:6336-6341 | x + y is (x or y) + (x and y), and (x xor y) + 2 (x and y), for all integers |
| `TwosComplement.AndSelf` | bignum.c:6336-6341 | x and x is x, x and its complement is 0 |
| `TwosComplement.OpSelf` | bignum.c:6455-6551 | or and xor of x with itself and with its complement |
| `TwosComplement.BitIs` | bignum.c:6641-6660 | bit k of x is the parity of x divided by 2^k, rounded down |
| `TwosComplement.OpDigits` | bignum.c:6336-6342 | an operation digit by digit is the operation on the integers, signs included |
| `TwosComplement.OpShort` | bignum.c:6330-6337 | the high digits may be left out when the shorter operand's sign absorbs them |
| `TwosComplement.BitNeg` | bignum.c:6653-6660 | a bit of -x is the bit of x inverted unless all lower bits of x are zero |
| `BitOps.Abs2TwoComp` | bignum.c:3036-3055 | two's complement digits of the number, the operand untouched |
| `BitOps.TwoComp2Abs` | bignum.c:3057-3064 | back to a magnitude, with the extra digit when re-complementing overflows |
| `BitOps.BitOp` | bignum.c:6317-6346 | and, or, xor of bignums of all signs and lengths are the bitwise operations on the infinite two's-complement view, for which the laws of TwosComplement.OpSums and OpSelf hold |
| `BitOps.ShiftRight` | bignum.c:4542-4564 | right shift by any number of bits is floor division by that power of two, for every sign and for zero with either flag |
| `BitOps.ShiftLeft` | bignum.c:4529-4541 | left shift by any number of bits is multiplication by that power of two |
| `BitOps.BitRef` | bignum.c:6641-6660 | bit reference is the two's-complement bit for all signs, 0 for negative indices, and wrong exactly above the digits of a zero with the negative flag |
| `Packing.Format.PosApart` | bignum.c:527-590 | no two bytes of a format share a place, in any word and byte order |
| `PackLayout.WordSpelled` | bignum.c:527-590 | a word is the low bits of the number its bytes spell, above which the nails lie |
| `PackLayout.LaidAt` | bignum.c:574-590 | the byte at a place, from the words reversed and the bytes of each word reversed as the format asks |
| `PackLayout.BufferSpelled` | bignum.c:527-590 | a buffer of any word size, nails and orders is the number spelled by its words, put in order |
| `PackLayout.PlainBuffer` | bignum.c:527-590 | without nails it is the number of the bytes as they lie, of the bytes in reverse, of the words in reverse order, or of each word reversed |
| `Packing.FillDd` | bignum.c:592-603 | refilling the bit accumulator keeps the number left to take |
| `Packing.TakeBits` | bignum.c:605-613 | the low bits taken and what is left make up the number |
| `Packing.PackWords` | bignum.c:855-881 | the words hold the low bits of the magnitude, nails zero, and the accumulator the rest |
| `Packing.SingleBit` | bignum.c:887-901 | between two powers of two, the single-bit test recognises exactly the lower one |
| `Packing.Overflow` | bignum.c:882-902 | the overflow tests give the documented code, minus a power of two included |
| `Packing.Flip` | bignum.c:905-953 | the complement pass negates the buffer modulo 2^bits and leaves the nails alone |
| `Packing.Pack` | bignum.c:810-958 | generic packing: the buffer spells, in the orders PackLayout gives, the low bits of the magnitude or of the two's complement, nails zero, and the result is exactly the documented sign and overflow code |
| `PackCopy.Bytes2Comp` | bignum.c:615-628 | bytes negated modulo 256^len, zero reported exactly for zero |
| `PackCopy.PackByCopy` | bignum.c:730-761 | the little-endian copy meets the same contract |
| `PackCopy.CopyAgrees` | bignum.c:730-761 | and so leaves the same bytes: equal numbers in little-endian buffers are equal buffers |
| `Unpacking.NumDigitsSmall` | bignum.c:960-968 | digits and padding bits make up the bits of the buffer |
| `Unpacking.NumDigitsAgree` | bignum.c:970-1050 | the computation with small intermediate numbers agrees with the direct one |
| `Unpacking.PushBits` | bignum.c:1052-1062 | bits pushed go to their place in the digits |
| `Unpacking.UnpackWords` | bignum.c:1210-1248 | the digits hold the number in the buffer, nails ignored |
| `Unpacking.UnpackInternal` | bignum.c:1197-1281 | generic importing: digits and sign give the integer the flags ask for; -2 exactly when one more digit is needed |
| `Unpacking.Unpack` | bignum.c:3614-3684 | the imported integer, with sign extension or assumed high bits |
| `Unpacking.PlainBack` | bignum.c:3498-3526 | importing the magnitude with its sign gives x back exactly when the code reports no loss |
| `Unpacking.NegativeBack` | bignum.c:3498-3526 | a negative x comes back from two's complement exactly when the code is -1 |
| `Unpacking.ExtendBack` | bignum.c:3593-3610 | sign extension gives x back exactly when it fits with its sign bit |
| `Unpacking.PackUnpack` | bignum.c:3528-3684 | packing and importing gives the number back exactly when no overflow was reported |
| `SharedArrays.OccupiedAlone` | array.c:366-383 | an array on a root with count 1 is its only user |
| `SharedArrays.LetGo` | array.c:263-276 | leaving a root keeps the invariant and everyone's contents, and frees the buffer only when nobody uses it |
| `SharedArrays.StealKeeps` | array.c:333-343 | taking the whole buffer over from a root only it uses |
| `SharedArrays.AttachKeeps` | array.c:845-871 | a new slice of a root |
| `SharedArrays.SelfRoot` | array.c:599-604 | a frozen array becoming its own root |
| `ArrayOps.ArrayHeap.ResizeCapa` | array.c:203-235 | contents kept, capacity at least as asked, for every change of representation |
| `ArrayOps.ArrayHeap.Modify` | array.c:318-354 | afterwards the array has its elements to itself; a frozen one is refused |
| `ArrayOps.ArrayHeap.EnsureRoomForPush` | array.c:356-396 | room in place or after copying, and the two errors |
| `ArrayOps.ArrayHeap.Cat` | array.c:924-944 | push and cat append to this array and to no other |
| `ArrayOps.ArrayHeap.StoreAt` | array.c:815-843 | storing at any index, negative ones too: the element there, nil at each place of the gap, every other element as it was, and the two errors exactly |
| `ArrayOps.ArrayHeap.Pop` | array.c:968-984 | last element removed and returned |
| `ArrayOps.ArrayHeap.PopN` | array.c:1004-1017 | the last n as a new array |
| `ArrayOps.ArrayHeap.Shift` | array.c:1019-1048 | first element removed and returned, in place or by sharing |
| `ArrayOps.ArrayHeap.ShiftN` | array.c:1073-1107 | the first n as a new array |
| `ArrayOps.ArrayHeap.Unshift` | array.c:1109-1195 | elements put in front, in the free space of a root or after making it; a frozen array takes them exactly when it alone occupies a root with room |
| `ArrayOps.ArrayHeap.MakeShared` | array.c:589-620 | a root holding the contents, the array itself when frozen |
| `ArrayOps.ArrayHeap.MakePartial` | array.c:845-871 | a new array with a slice of the contents, embedded or shared |
| `ArrayOps.ArrayHeap.Subseq` | array.c:1231-1247 | element i of the slice is element beg + i, cut at the end, or nil exactly outside |
| `ArrayOps.ArrayHeap.Replace` | array.c:3459-3497 | contents of another array, copied or shared |
| `ArrayOps.ArrayHeap.Clear` | array.c:3509-3524 | emptied, sharers untouched |
| `ArrayOps.ArrayHeap.Collect` | array.c:558-568 | freeing any object nothing refers to, shared roots too, frees nothing another array uses |
| `ArrayOps.StoreRoom` | array.c:248-261 | growing for an index leaves room for it exactly when it is not the last one allowed |
| `ArrayOps.FrozenUnshift` | array.c:1109-1128 | a run that changes a frozen array: new, shift, shift, freeze, unshift |
| `ArrayRuns.Exec` | array.c:815-1195 | one operation on shared arrays is the same operation on independent sequences, with the same element, new array or exception as its answer |
| `ArrayRuns.StepEach` | array.c:815-843 | on the independent sequences, what a store and a slice do element by element |
| `ArrayRuns.Run` | array.c:263-396 | in every run, with variables dropped and objects collected at any time, each of any number of arrays answers and reads as an independent sequence given the same operations |
| `Flatten.FlattenArray` | array.c:4616-4672 | the loop with its explicit stack and memo is the recursion, level limit included; it always ends |
| `Flatten.RaisesWhen` | array.c:4630-4656 | with any level or none it raises exactly when a walk of at most that many steps comes to an array again |
| `Flatten.LevelMeans` | array.c:4630-4636 | with a level, what does not raise is plain recursion down to that level |
| `Flatten.FlattenMeans` | array.c:4616-4672 | without a level it raises exactly when a reachable array lies on a cycle, and otherwise is plain recursive flattening |
| `Combinations.CombosAll` | array.c:5253-5272 | the specification holds exactly the rising index sequences |
| `Combinations.CombosOrdered` | array.c:5253-5272 | in lexicographic order |
| `Combinations.RisingIs` | array.c:5253-5272 | rising means within bounds and each smaller than all behind |
| `Combinations.BeforeIs` | array.c:5253-5272 | the order is that of the first difference |
| `Combinations.OrderedOnce` | array.c:5253-5272 | so nothing comes twice |
| `Combinations.CombosCount` | array.c:5253-5272 | as many as the binomial coefficient |
| `Combinations.Combinate` | array.c:5253-5272 | the loop yields exactly those, in that order, and stops |
| `Combinations.Binomial` | array.c:5156-5176 | the binomial coefficient, each division exact |
| `Combinations.PermsAll` | array.c:5100-5133 | the specification holds exactly the arrangements of r distinct indices |
| `Combinations.PermsOrdered` | array.c:5100-5133 | in lexicographic order, so each once |
| `Combinations.PermsTotal` | array.c:5100-5133 | as many as the falling factorial |
| `Combinations.Permute` | array.c:5100-5133 | the loop yields exactly those, in that order, and stops |
| `Combinations.DescendingFactorial` | array.c:5139-5154 | the falling factorial |
| `Metaclasses.StartKeeps` | class.c:489-500 | the half-made state keeps the invariant, and fewer classes at the level lack a metaclass |
| `Metaclasses.SetKlassKeeps` | class.c:498-502 | so does setting the class of the new metaclass |
| `Metaclasses.FinishKeeps` | class.c:504-506 | setting the superclass completes it |
| `Metaclasses.Hierarchy.MakeMetaclass` | class.c:485-511 | the recursion ends, the class gets its metaclass, existing ones stay |
| `Metaclasses.Hierarchy.EnsureEigenclass` | class.c:461-473 | the class's own metaclass, made only when missing |
| `Metaclasses.Hierarchy.constructor` | class.c:545-563 | the boot hierarchy has a proper tower |
| `Metaclasses.Hierarchy.DefineClass` | class.c:598-608 | a class with a metaclass parallel to its superclass's; a TypeError exactly for a singleton class or Class |
| `Metaclasses.Hierarchy.SingletonClass` | class.c:1689-1697 | the metaclass of a class, which itself gets a metaclass |
| `Metaclasses.Hierarchy.IncludeModule` | class.c:883-943 | modules put between a class and its superclass leave the tower |
| `Metaclasses.MetaAncestors` | class.c:441-511 | n steps up from a metaclass is the metaclass of n steps up from the class |
| `Metaclasses.SuperChain` | class.c:504-506 | superclass chains are finite |
| `Metaclasses.MetaChain` | class.c:485-511 | the chain of a metaclass runs beside that of its class to the end, and then comes to Class |
| `Metaclasses.Run` | class.c:545-608 | every sequence of definitions, singleton requests and includes from boot keeps the tower, and every superclass chain ends |
| `CodeShape.CondTidy` | compile.c:3367-3423 | a condition defines only fresh labels, each once, and branches only to them or the two given |
| `CodeShape.GenTidy` | compile.c:5401-5411 | a tree's code defines each of its labels once and branches only to them |
| `CodeMeaning.GenCondMeets` | compile.c:3367-3423 | running a condition arrives at the label its value calls for, with the same calls; that label is then referred to |
| `CodeMeaning.IfMeets` | compile.c:4508-4580 | code of an if does what it evaluates to, although unreferenced branches are left out |
| `CodeMeaning.LoopMeets` | compile.c:4787-4883 | code of a while or until, tested first or last, does what it evaluates to, and runs on when it does |
| `CodeMeaning.ShortMeets` | compile.c:5492-5511 | code of and, or has the value and calls of the operation |
| `CodeMeaning.GenMeets` | compile.c:5401-5511 | the same for every tree |
| `CodeDepth.RunFits` | compile.c:1718-1824 | where the depths agree, every run has at each place the depth computed |
| `CodeDepth.FitsMost` | compile.c:1718-1824 | and never more than the maximum |
| `FixDepth.FixSpDepth` | compile.c:1718-1824 | the depths before every element are the ones the list determines; the answer is -1 exactly when a label named is not placed, an instruction goes below 0, or an emitting ADJUST starts strictly below its goal, else the largest depth behind an instruction, reached there or 0; labels get the depth of their first reference or placement |
| `FixDepth.DepthsExist` | compile.c:1718-1824 | every list has such depths |
| `FixDepth.DepthsUnique` | compile.c:1718-1824 | and only those |
| `CodeBalance.CondBalance` | compile.c:3367-3423 | a condition leaves the depth it found at both labels |
| `CodeBalance.GenBalance` | compile.c:5401-5511 | a tree adds 1 to the depth, 0 when popped, with one depth per label |
| `CodeBalance.CondRefers` | compile.c:4532-4573 | a condition refers to at least one of its labels |
| `Compiler.Generator.CompileBranchCondition` | compile.c:3367-3423 | the list built in place is the specified code, and reference counts are its references |
| `Compiler.Generator.CompileIf` | compile.c:4508-4580 | the same for if, where the counts decide which branch is emitted |
| `Compiler.Generator.CompileLoop` | compile.c:4787-4883 | the same for loops and their catch entries |
| `Compiler.Generator.CompileShort` | compile.c:5492-5511 | the same for and, or |
| `Compiler.Generator.CompileBlock` | compile.c:5435-5445 | the same for sequences, all but the last popped |
| `Compiler.Generator.CompileEach` | compile.c:5401-5411 | the same for every tree |
| `FixDepth.PassesAgree` | compile.c:1877-2107 | both passes give every element the same index exactly when no restoring ADJUST changes the pops of an emitting one right behind it, said of the list and the labels' depths alone |
| `FixDepth.SeparatedAgree` | compile.c:1906-1919 | so they agree when a label stands between a restoring ADJUST and the next emitting one |
| `FixDepth.PassesCanDisagree` | compile.c:2065-2101 | a list that fix_sp_depth accepts and on which they end at different indexes |
| `FixDepth.NoAdjustBugs` | compile.c:1802-1816 | on an accepted list the second pass finds an adjust bug only at an emitting ADJUST to a label that had no depth yet, exactly when that starts below the label's depth |
| `FixDepth.AcceptedCanFail` | compile.c:2089-2098 | an accepted list on which it does |
| `Assembler.PlaceLabels` | compile.c:1877-1922 | first pass: every label at its index, and the size |
| `Assembler.EmitWords` | compile.c:1935-2107 | second pass: the buffer filled exactly with the words InsnLies, OffsetLands and AdjustLies describe, an error exactly when an ADJUST would have to push |
| `Assembler.InsnLies` | compile.c:1949-1984 | every instruction stands at its index with its opcode and every word operand behind it, and takes no more room |
| `Assembler.OffsetLands` | compile.c:1960-1966 | every branch offset leads exactly to its label's position |
| `Program.AdjustLies` | compile.c:2065-2101 | an emitting ADJUST is nothing, a pop, or one adjuststack of the difference |
| `Program.AdjustRuns` | compile.c:2065-2101 | run, its words take exactly the values above the goal off the stack |
| `Program.TruthyWord` | include/ruby/ruby.h:406-450 | the test of branch instructions on words is the one of the trees on values |
| `Program.TreeMeans` | compile.c:5401-5511 | the words of a tree end if and only if its evaluation does, with its calls, order and value |
| `Program.TreeBounded` | compile.c:1718-1824 | no run of the tree's code leaves the list or the computed stack maximum |
| `Program.TreeWordsBounded` | compile.c:1935-2107 | no run of the assembled words lacks an operand, leaves the words or exceeds the computed maximum, and it stops only at their end |
| `Program.CompileTree` | compile.c:1865-2121 | generating, fixing depths and assembling any tree gives words that mean the tree, and a maximum that bounds every run of the list and of the words |

## Left out

- GMP multiplication, division, parsing and printing, which are calls into a library.
- Floating point: conversions, quotients, and the first estimate of a square root, which is a parameter assumed not below the root.
- Modular power and plain power of integers.
- Interrupting a division from another thread: division runs to its end.
- Choosing between fixnum and bignum results (bignorm), and the variants of bitwise operations with a fixnum operand.
- Printing and parsing in radixes that are powers of two by shifting, and the scanning of signs, prefixes and invalid characters before parsing.
- The range errors for numbers too large for a `long` count of digits or characters.
- The other shortcuts of packing and importing (one word, whole digits with byte swapping, importing by copying).
- `bary_sparse_p`, whose random sample is modelled as any answer.
- Squaring and multiplying entry points that only choose by length (bigsq, bigmul0), and the general signed operators on top of them.
- `splice`, `sort!`, `uniq` and the other array methods; elements that convert themselves with `to_ary`; blocks that change the receiver.
- Moving memory in array.c is a change of the buffer's elements; reallocation failures, write barriers and object flags other than frozen are not modelled.
- `combination` and `permutation` of 0 or 1 elements, which the callers handle without these loops, and the copy the loops read from.
- Singleton classes of objects that are not classes, `prepend`, method tables, naming and `inherited`.
- `break`, `next`, `redo`, `rescue`, `ensure`, arguments, multiple assignment; catch table entries appear only as references that keep labels.
- Trace events, line numbers, coverage and the peephole optimizer.
- Instructions of expressions that are not control flow, which stand as one instruction that asks the oracle.
- ArrayOps.ArrayHeap.StoreAt: does not cover index `ARY_MAX_SIZE - 1` when the array has to grow for it, where the source writes behind its buffer; see ArrayOps.StoreRoom.
- ArrayRuns.Run: does not cover storing at index `ARY_MAX_SIZE - 1` beyond the length, and lets an unshift to a frozen array answer either way, since which depends on sharing; ArrayOps.ArrayHeap.Unshift says when.
- Isqrt.Newton: takes a start that is not below the root, as the estimate is floating point.
- Parsing.Str2BigKaratsuba: keeps its work area, which the source gives back.
- PackCopy.PackByCopy: takes a digit to be a whole number of bytes, as it is in every build.
- Assembler.EmitWords: takes lists on which the passes agree; see FixDepth.PassesAgree.
- Metaclasses.Hierarchy.IncludeModule: does not model the search for modules already included, nor the error for a module that would include itself; it puts a module at any place among those a class has.
