# Pi by Archimedes' polygons, and cube roots, over exact reals

This project models the numeric core of a collection of Python scripts
that approximate pi with Archimedes' doubling of regular polygons, and
compute cube roots with several iterative methods. The Python `decimal`
arithmetic is modelled over exact reals.

- **Decimal traps.** The traps of the default Decimal context that the
  scripts' operations can reach on exact values are kept as faults of a
  `Result` (the exponent-range signals are not; see "Left out"):
  - `x / 0` raises DivisionByZero;
  - `0 / 0`, the square root of a negative number and a fractional power
    of a negative number raise InvalidOperation;
  - a variable read before any assignment gives UnboundLocal (in the
    scripts, the UnboundLocalError or NameError of a `for` loop that ran
    no pass, or of an unknown method number);
  - `range` with a zero step raises ValueError.
- **Roots are a parameter.** The square root and the cube root are a
  `Roots` value whose `Valid()` predicate states their defining equations.
  Every function that needs one takes it and requires `Valid()`.
- **Loops become recursion.** Each `for i in range(0, iteration + 1)`
  loop is a recursion over the pass index, where pass 0 copies the start
  values. Next to it sits a reference definition that applies the passes
  one after the other, and a lemma equates the two. The module-level
  scripts are functions of the radius `r` and the iteration count, with
  the scripts' own counts given as `const`s. Means.ScriptsAtTheirCounts
  and Aitken.ScriptAtItsCount apply the scripts to those counts with
  `r = 1`.
- **`while True` loops** of the cube-root collection are recursions
  bounded by a `fuel` parameter. Running out of fuel is its own outcome.

The modules follow the scripts:

- `Exact`: the Decimal stand-in.
- `Text`: whitespace stripping, chunking, the three `correct_digits`.
- `Prediction`: `init_values`.
- `Recurrence`: the harmonic–geometric pass, Gregory's reversed pass, Dörrie's refinement, the start values.
- `Means`: the five closing means, `archimedes_constant`, `calculate_pi`, and the Snellius, refined and Gregory scripts.
- `Aitken`: the Δ² accelerated scripts.
- `Polygons`: the triangle scripts, the guarded inner polygon, the outer polygon.
- `Edges`: the edge-doubling script.
- `CubicRoot`: `cubic_root_v0` … `cubic_root_v10`.

## Model

| member | source | states |
|---|---|---|
| Exact.Div | Python_Scripts/new_approaches/dec/archimedes_netz_lto.py:525 | a Decimal quotient is defined exactly when the divisor is non-zero, and then times the divisor gives the dividend; 0/0 is InvalidOperation and x/0 with x ≠ 0 is DivisionByZero |
| Exact.Sqrt | Python_Scripts/new_approaches/dec/archimedes_netz_lto.py:526 | `.sqrt()` is defined exactly for non-negative arguments and gives the non-negative root whose square is the argument; a negative argument is InvalidOperation |
| Exact.Cbrt | Python_Scripts/new_approaches/dec/archimedes_netz_lto.py:455 | `x ** (1/3)` is defined exactly for non-negative bases and gives the non-negative number whose cube is x; a negative base is InvalidOperation |
| Text.KeepSpec | Python_Scripts/new_approaches/dec/archimedes_netz_lto.py:294 | the reference filter leaves none of `\n`, `\r`, `\t`, space, and keeps the count of every other character |
| Text.RemoveWhitespacesIsKeep | Python_Scripts/new_approaches/dec/archimedes_netz_lto.py:291-299 | the four successive `replace` calls equal the order-preserving filter of the four whitespace characters |
| Text.RemoveWhitespacesSpec | Python_Scripts/new_approaches/dec/archimedes_netz_lto.py:291-299 | the stripped string is the filter of the input, never longer, free of whitespace, with every other character kept as often as in the input |
| Text.RemoveWhitespacesIdempotent | Python_Scripts/new_approaches/dec/archimedes_aitken_script_dec.py:49-58 | stripping twice gives the same as stripping once |
| Text.RemoveWhitespacesAppend | Python_Scripts/new_approaches/dec/archimedes_netz_dec.py:38-47 | stripping a concatenation is the concatenation of the stripped parts |
| Text.ChunkList | Python_Scripts/new_approaches/dec/archimedes_netz_lto.py:307 | a positive width yields ⌈len/width⌉ chunks |
| Text.ChunkString | Python_Scripts/new_approaches/dec/archimedes_netz_lto.py:304-307 | width 0 raises ValueError (zero `range` step), a negative width yields no chunks, and nothing else fails |
| Text.ChunksConcatenate | Python_Scripts/new_approaches/dec/archimedes_netz_lto.py:304-307 | joining the chunks gives back the input |
| Text.ChunkSizes | Python_Scripts/new_approaches/dec/archimedes_netz_lto.py:304-307 | ⌈len/width⌉ chunks, none for the empty string; every chunk but the last has exactly `width` characters, the last 1 to `width` |
| Text.CommonPrefixLength | Python_Scripts/new_approaches/dec/archimedes_netz_lto.py:337-358 | reference: a length within both strings on which they agree, followed by a difference or the end of one of them (the longest common prefix) |
| Text.ScanReferenceIsAgreement | Python_Scripts/new_approaches/dec/archimedes_netz_lto.py:345-357 | the loop over the reference, with the IndexError swallowed and `idx` unchanged, ends with the longest common prefix and its length − 2 |
| Text.CorrectDigitsSwallowingSpec | Python_Scripts/new_approaches/dec/archimedes_netz_lto.py:337-358 | `correct_digits` returns the longest common prefix and its length − 2 (−2 when the first characters differ), also when the computed value is shorter |
| Text.ScanComputedIsAgreement | Python_Scripts/ddecimal_archimedes_original.py:104-122 | the loop over the computed value ends with the longest common prefix and its length − 2, and stops on IndexError exactly when the whole reference agrees with a longer computed value |
| Text.Pi100Shape | Python_Scripts/new_approaches/dec/archimedes_netz_dec.py:55-59 | the built-in reference is "3." followed by 100 digits, 102 characters |
| Text.Reference | Python_Scripts/ddecimal_archimedes_original.py:97-102 | `refpi == ''` selects the built-in reference, any other reference is used as given |
| Text.CorrectDigitsCatchingSpec | Python_Scripts/ddecimal_archimedes_original.py:92-122 | the IndexError-catching `correct_digits` returns the longest common prefix with the (defaulted) reference and its length − 2 |
| Text.IndexErrorIffReferenceUsedUp | Python_Scripts/ddecimal_archimedes_original.py:106-119 | the scan raises IndexError exactly when the reference is a proper prefix of the computed value |
| Text.CatchingStopsOnlyOnExhaustedReference | Python/decimal_archimedes_original.py:89-100 | the bare `except` fires exactly when the defaulted reference is used up by a longer agreeing value |
| Text.CorrectDigitsGuarded | Python_Scripts/new_approaches/dec/archimedes_netz_dec.py:52-70 | `(None, None)` exactly when the reference is shorter than the computed value; otherwise the longest common prefix with the (defaulted) reference and its length − 2 |
| Prediction.RoundUp | Python_Scripts/new_approaches/dec/archimedes_netz_lto.py:137-138 | `quantize(D('1'), ROUND_UP)` gives the integer next away from zero, less than one away |
| Prediction.Truncate | Python_Scripts/new_approaches/dec/archimedes_netz_lto.py:144 | `int()` gives the integer next toward zero, less than one away |
| Prediction.InitValues | Python_Scripts/new_approaches/dec/archimedes_netz_lto.py:126-144 | for non-negative places and offset: precision ≥ places + offset and 0 ≤ iteration ≤ precision |
| Prediction.InitValuesClosedForm | Python_Scripts/new_approaches/dec/archimedes_netz_lto.py:132-144 | precision = ⌈102·places/100⌉ + offset and iteration = ⌈56·places/100⌉ + ⌊offset/2⌋ |
| Prediction.InitValuesMonotonic | Python_Scripts/new_approaches/dec/archimedes_netz_lto.py:132-144 | more places never predict a lower precision or fewer iterations, for any offset |
| Prediction.HundredPlaces | Python_Scripts/new_approaches/dec/archimedes_netz_lto.py:150 | `init_values(100, offset=4)` over exact rationals is (106, 58) |
| Recurrence.HarmonicGeometric | Python_Scripts/new_approaches/dec/archimedes_netz_lto.py:524-526 | an ordered bracket 0 < b0 ≤ a0 gives b0 ≤ b1 ≤ a1 ≤ a0 (nesting); a1 is the harmonic mean of a0, b0 and b1 the geometric mean of b0, a1 |
| Recurrence.GeometricHarmonic | Python_Scripts/new_approaches/dec/gregory.py:44-45 | Gregory's reversed pass: b1 is the geometric mean of a0, b0 and a1 the harmonic mean of a0 and the new b1; an ordered bracket stays ordered and nests |
| Recurrence.Pass | Python_Scripts/new_approaches/dec/gregory.py:42-45 | either pass order keeps an ordered bracket ordered and nested, and can only fail with a Decimal trap |
| Recurrence.Steps | Python_Scripts/modern_approaches/archimedes_snellius_dec.py:31-42 | reference: n passes from an ordered start never fail and end ordered inside the start bracket |
| Recurrence.Run | Python_Scripts/new_approaches/dec/archimedes_netz_lto.py:515-529 | the loop is exactly `iteration` passes (pass 0 copies), ends ordered inside the start bracket, and a negative count leaves `a1` unbound |
| Recurrence.LoopIsSteps | Python_Scripts/modern_approaches/archimedes_snellius_dec.py:31-42 | from pass 1 on the loop performs one pass per index |
| Recurrence.Refine | Python_Scripts/modern_approaches/archimedes_recurrence_modified_dec.py:45-46 | Dörrie's b3 = 3a1b1/(2a1+b1) and a3 = ∛(a1·b1²) satisfy b1 ≤ b3 ≤ a3 ≤ a1 on an ordered bracket |
| Recurrence.RefineValue | Python_Scripts/new_approaches/dec/archimedes_netz_dec.py:96-97 | past its two traps the refinement is the pair (cube root, quotient) |
| Recurrence.RefinedOrder | Python_Scripts/new_approaches/dec/archimedes_netz_dec.py:95-97 | b ≤ 3ab/(2a+b) ≤ ∛(ab²) ≤ a for 0 < b ≤ a |
| Recurrence.HarmonicBound | Python_Scripts/new_approaches/dec/archimedes_netz_dec.py:96 | `D(3*a1*b1)/D(2*a1 + b1)` is defined exactly when 2a + b ≠ 0, then h·(2a+b) = 3ab; its faults are the two division traps |
| Recurrence.CubeRootBound | Python_Scripts/new_approaches/dec/archimedes_netz_dec.py:97 | `D(a1*b1**2)**(D(1)/D(3))` is defined exactly when a·b² ≥ 0, then a non-negative cube root of a·b²; otherwise InvalidOperation |
| Recurrence.DoerrieIdentity | Python_Scripts/new_approaches/dec/archimedes_netz_dec.py:96-97 | (2a+b)³ − 27a²b = (a−b)²(8a+b) |
| Recurrence.RefinedRun | Python_Scripts/modern_approaches/archimedes_recurrence_modified_dec.py:32-46 | the refined loop ends on the bracket of `iteration` passes and its refinement; a negative count leaves `a3` unbound |
| Recurrence.RefinedLoopIsSteps | Python_Scripts/new_approaches/dec/archimedes_netz_dec.py:83-97 | from any pass index, the refined loop is the reference passes followed by one refinement, never unbound |
| Recurrence.PerimeterStart | Python_Scripts/new_approaches/dec/archimedes_netz_lto.py:512-513 | for r > 0: 0 < b0 = 3r < a0 = 2√3·r < 4r |
| Recurrence.GregoryStart | Python_Scripts/new_approaches/dec/gregory.py:33-34 | for r > 0: 0 < b0 < a0, and a0 = 4·b0 (b0 = (3/4)√3·r and a0 = 3√3·r, for r = 1 the areas of the inscribed and the circumscribed equilateral triangle) |
| Means.WeightedMean | Python_Scripts/new_approaches/dec/archimedes_netz_lto.py:400-401 | defined exactly for r ≠ 0; for r > 0 and b1 ≤ a1 it lies in [b1/r, a1/r] |
| Means.ArithmeticMean | Python_Scripts/new_approaches/dec/archimedes_netz_lto.py:418 | defined exactly for r ≠ 0; for r > 0 and b1 ≤ a1 it lies in [b1/r, a1/r] |
| Means.SnelliusMean | Python_Scripts/new_approaches/dec/archimedes_netz_lto.py:435 | defined exactly for r ≠ 0; for r > 0 and b1 ≤ a1 it lies in [b1/r, a1/r] |
| Means.DoerrieMean | Python_Scripts/new_approaches/dec/archimedes_netz_lto.py:455 | for r > 0 and 0 < b1 ≤ a1 it is defined and lies in [b1/r, a1/r]; otherwise it can only fail with a Decimal trap |
| Means.NetzMean | Python_Scripts/new_approaches/dec/archimedes_netz_lto.py:480 | for r > 0 and 0 < b1 ≤ a1 it is defined and lies in [b1/r, a1/r]; otherwise it can only fail with a Decimal trap |
| Means.DoerrieOrder | Python_Scripts/new_approaches/dec/archimedes_netz_lto.py:455 | from the contracts of the quotient and the cube root: on 0 < b1 ≤ a1 and r > 0 Dörrie's closing is defined and in [b1/r, a1/r]; any fault is a division trap |
| Means.NetzOrder | Python_Scripts/new_approaches/dec/archimedes_netz_lto.py:480 | the same for Netz's closing `(12a1b1/(2a1+b1) + ∛(a1b1²))/(5r)` |
| Means.DoerrieIsArithmeticOfRefined | Python_Scripts/new_approaches/dec/archimedes_netz_lto.py:442-455 | Dörrie's mean is the arithmetic mean of the refined bracket, fault for fault |
| Means.NetzIsWeightedOfRefined | Python_Scripts/new_approaches/dec/archimedes_netz_dec.py:99 | `(a3 + 4·b3)/(5r)` of the refined script is the Netz mean of the unrefined bracket, fault for fault |
| Means.ArchimedesConstant | Python_Scripts/new_approaches/dec/archimedes_netz_lto.py:487-500 | methods 0–4 select the five means and give a value in [b1/r, a1/r] on a bracket; exactly the other numbers leave `ac` unbound |
| Means.MeansBetween | Python_Scripts/new_approaches/dec/archimedes_netz_lto.py:390-482 | on 0 < b1 ≤ a1 with r > 0, all five means are defined and lie in [b1/r, a1/r] |
| Means.CalculatePi | Python_Scripts/new_approaches/dec/archimedes_netz_lto.py:505-537 | for r > 0, a count ≥ 0 and a valid method, the result lies between the hexagon bounds 3 and 2√3; an unknown method or a negative count is unbound |
| Means.ClosingInHexagon | Python_Scripts/new_approaches/dec/archimedes_netz_lto.py:512-531 | a bracket nested in the hexagon start closes to a value between 3 and 2√3 |
| Means.ScaledMean | Python_Scripts/modern_approaches/archimedes_snellius_dec.py:44 | `D((1/r)*x)/k` equals x/(k·r) for r, k ≠ 0, and r = 0 is always DivisionByZero |
| Means.SnelliusScript | Python_Scripts/modern_approaches/archimedes_snellius_dec.py:22-44 | for r ≠ 0 the script equals `calculate_pi` with the Snellius method, and for r > 0 it lies between 3 and 2√3; a negative count is unbound (DivisionByZero when r = 0, since `D(1)/D(r)` is evaluated first) |
| Means.RefinedScript | Python_Scripts/modern_approaches/archimedes_recurrence_modified_dec.py:22-48 | for r > 0 the refined script equals `calculate_pi` with the Netz method; a negative count is unbound (DivisionByZero when r = 0, since `D(1)/D(r)` is evaluated first) |
| Means.ReciprocalFirst | Python_Scripts/new_approaches/dec/archimedes_netz_dec.py:99 | with the operand unbound, the closing `D((D(1)/D(r))*…)` traps DivisionByZero for r = 0 before the unbound read, and otherwise reports the read |
| Means.ScriptsAtTheirCounts | Python_Scripts/modern_approaches/archimedes_snellius_dec.py:15-44 | the Snellius (83 passes), refined (54) and Gregory (166) scripts with r = 1 are defined and lie between their start bounds; the first two equal `calculate_pi` with the matching mean |
| Means.GregoryScript | Python_Scripts/new_approaches/dec/gregory.py:30-51 | for r > 0 the result lies between the start values (3/4)√3 and 3√3, the areas of the inscribed and the circumscribed equilateral triangle of the unit circle |
| Means.GregoryFirstPass | Python_Scripts/new_approaches/dec/gregory.py:33-48 | one pass turns the triangle areas 3√3·r and (3/4)√3·r into 2√3·r and (3/2)√3·r, for r = 1 the areas of the circumscribed and the inscribed regular hexagon |
| Means.ClosingInGregoryStart | Python_Scripts/new_approaches/dec/gregory.py:51 | a bracket nested in Gregory's start closes to a value between (3/4)√3 and 3√3 |
| Aitken.AX | Python_Scripts/new_approaches/dec/archimedes_aitken_script_dec.py:74 | defined exactly when x0 + x2 − 2x1 ≠ 0, and then equal to x2 − (x2−x1)²/(x2 − 2x1 + x0) |
| Aitken.DeltaSquaredForm | MISC/cubic_root.py:447 | the quotient form of AX equals the Δ² form used by Steffensen's update |
| Aitken.AXExactOnGeometric | Python_Scripts/new_approaches/dec/archimedes_aitken_script_dec.py:10-12 | on three consecutive terms of L + c·qᵏ (c ≠ 0, q ∉ {0, 1}) AX returns the limit L |
| Aitken.AXOfArithmetic | Python_Scripts/new_approaches/dec/archimedes_aitken_script_dec.py:93-101 | a constant window traps InvalidOperation and a proper arithmetic window DivisionByZero, the two caught exceptions |
| Aitken.Accelerate | Python_Scripts/new_approaches/dec/archimedes_aitken_script_dec.py:91-101 | with the handler it never fails and falls back to (a1, b1) on a trap; without it (snippet) it fails exactly when an AX traps; otherwise it is the pair of the two AX values |
| Aitken.AitkenPass | Python_Scripts/new_approaches/dec/archimedes_aitken_script_dec.py:76-107 | one pass advances the bracket and keeps the windows; passes 0 and 1 use the plain bounds; from pass 2 on the AX of the last three iterates, or the fallback to the plain bounds only with the handler; faults are Decimal traps |
| Aitken.ExtendedWindow | Python_Scripts/new_approaches/dec/archimedes_aitken_script_dec.py:88-89 | after the appends of pass i the lists hold min(i+1, 3) consecutive iterates, ending with the new bounds |
| Aitken.AitkenLoop | Python_Scripts/new_approaches/dec/archimedes_aitken_snippet_dec.py:29-49 | every pass keeps the lists windows of consecutive iterates; the bracket stays ordered and nested in the start; faults are Decimal traps, and with the handler nothing fails |
| Aitken.AitkenLoopLast | Python_Scripts/new_approaches/dec/archimedes_aitken_script_dec.py:76 | running to stop + 1 is running to stop, then pass `stop` |
| Aitken.AitkenStart | Python_Scripts/new_approaches/dec/archimedes_aitken_script_dec.py:68-69 | 0 < b0 < a0: the hexagon start (3 and 2√3) is a strictly ordered bracket |
| Aitken.ArchimedesAitken | Python_Scripts/new_approaches/dec/archimedes_aitken_script_dec.py:63-111 | unbound exactly for a negative count; the catching script never fails otherwise |
| Aitken.ScriptAtItsCount | Python_Scripts/new_approaches/dec/archimedes_aitken_script_dec.py:31-111 | the script as it stands, with its handler and 84 passes, is defined |
| Aitken.Closing | Python_Scripts/new_approaches/dec/archimedes_aitken_script_dec.py:109 | `(b2 + a2)/2` of the last accelerated pair; an unbound pair is UnboundLocal |
| Aitken.AitkenFinal | Python_Scripts/new_approaches/dec/archimedes_aitken_script_dec.py:105-109 | the result is the closing mean of the pair computed by the last pass |
| Aitken.AitkenEarly | Python_Scripts/new_approaches/dec/archimedes_aitken_snippet_dec.py:47-50 | for iteration 0 and 1 the result is the plain mean of the current bounds |
| Polygons.HalfAngle | Python_Scripts/ddecimal_archimedes_original.py:69-73 | defined exactly when AB + AC ≠ 0, else InvalidOperation when BC = 0 and DivisionByZero otherwise; AB is unchanged, AD² + BD² = AB², 0 < AD ≤ AB for AB > 0, and BD·(AB+AC) = BC·AD |
| Polygons.BisectorRatio | Python_Scripts/ddecimal_archimedes_original.py:69 | `BC²/(AB+AC)²` is defined exactly when AB + AC ≠ 0, with InvalidOperation for 0/0 and DivisionByZero otherwise, and is a non-negative q with q·(AB+AC)² = BC² |
| Polygons.Bisected | Python_Scripts/ddecimal_archimedes_original.py:69-70 | past the ratio, AD = AB/√(q+1) and BD = √(AB² − AD²) cannot trap; AD² + BD² = AB², 0 < AD ≤ AB, and BD·(AB+AC) = BC·AD when q is the ratio |
| Polygons.HalfAngleOf | Python/decimal_archimedes_original.py:59-62 | on a right triangle over AB with 0 < AC < AB the pass is defined and gives the triangle of the bisected angle at A |
| Polygons.ThalesAgain | Python/decimal_archimedes_original.py:59-64 | the triangle of the bisected angle of a right triangle over AB is right-angled over AB again, and 2·BD > BC |
| Polygons.HalfAngleInscribed | Python/decimal_archimedes_original.py:59-64 | from a right triangle over AB, the pass gives one again with 2·BD > BC |
| Polygons.Sides | Python_Scripts/ddecimal_archimedes_original.py:60 | the side count 6·2ⁱ of pass i is at least 6 |
| Polygons.Chain | Python_Scripts/ddecimal_archimedes_original.py:58-73 | reference: k half-angle passes keep AB and can only fail with a Decimal trap |
| Polygons.ChainInscribed | Python_Scripts/ddecimal_archimedes_original.py:58-73 | the right triangle over AB survives any number of passes |
| Polygons.HexagonTriangle | Python_Scripts/ddecimal_archimedes_original.py:131-133 | the start triangle (AB = 2, AC = √3, BC = 1) is a right triangle over AB = 2 with 0 < AC < AB and BC > 0 |
| Polygons.GuardedLoop | Python_Scripts/ddecimal_archimedes_original.py:58-85 | the accepted values extend the earlier ones, stay strictly increasing, and grow by at most one per pass |
| Polygons.InnerPolygonGuarded | Python/decimal_archimedes_original.py:44-78 | the result is never below the first value BC·6/2; only a negative count is unbound |
| Polygons.PerimeterGrows | Python_Scripts/ddecimal_archimedes_original.py:75-77 | from a right triangle the next half perimeter is strictly larger |
| Polygons.GuardedExact | Python_Scripts/ddecimal_archimedes_original.py:76-85 | from a right triangle every pass is accepted, and the last value is the half perimeter after the reference passes |
| Polygons.GuardNeverFires | Python/decimal_archimedes_original.py:68-74 | over exact reals the guard never restores `oldac`: the result is the half perimeter of the 6·2^iteration-gon |
| Polygons.GuardedLoopTrace | Python_Scripts/ddecimal_archimedes_original.py:58-85 | a defined run returns the earlier values followed by the values of passes i, i+1, … in order, and if it left before the last pass, the next pass computed a value not above the last accepted one: the loop stops at the first non-increase and that value is dropped |
| Polygons.GuardedLoopIgnoresLater | Python_Scripts/ddecimal_archimedes_original.py:77-83 | once the guard has stopped the loop, any larger iteration count gives the same result: the passes after the `break` are never run |
| Polygons.InnerPolygonGuardedIsLastAccepted | Python/decimal_archimedes_original.py:68-78 | the returned `ac` is the last value the guard accepted (`ac = oldac` on a non-increase), over a trace that is the pass values up to the first non-increase |
| Polygons.OuterHalfPerimeter | Python_Scripts/outer_from_inner_dec.py:62 | (BD/AD)·n is defined exactly when AD ≠ 0, times AD it is BD·n, and it is at least BD·n/2 for 0 < AD ≤ 2 |
| Polygons.InnerOuterMean | Python_Scripts/inner_outer_new_dec.py:70-72 | `ac` is the mean of ac0 and ac1 and lies between them for 0 < AD ≤ 2 |
| Polygons.InnerOuterPass | Python_Scripts/inner_outer_new_dec.py:55-72 | pass 0 keeps the triangle and gives the mean of its hexagon half perimeter and the hexagon's outer one; later passes take the half-angle triangle and its InnerOuterMean, defined exactly when both are; faults are Decimal traps |
| Polygons.InnerOuterLoop | Python_Scripts/inner_outer_new_dec.py:53-72 | a run of at least one pass binds `ac`; faults are Decimal traps |
| Polygons.InnerOuterPolygon | Python_Scripts/inner_outer_new_dec.py:49-74 | unbound exactly for a negative count |
| Polygons.InnerOuterLoopIsChain | Python_Scripts/inner_outer_new_dec.py:62-72 | from pass 1 on, the loop ends with the mean of the triangle after the reference passes |
| Polygons.InnerOuterExact | Python_Scripts/inner_outer_new_dec.py:49-74 | the result is the mean for the 6·2^iteration-gon, between its inner and outer half perimeter when AB = 2 |
| Polygons.OuterFromInnerLoop | Python_Scripts/outer_from_inner_dec.py:47-62 | a run of at least one pass binds `ac`; faults are Decimal traps |
| Polygons.OuterFromInnerPolygon | Python_Scripts/outer_from_inner_dec.py:43-64 | unbound exactly for a negative count |
| Polygons.OuterFromInnerLoopIsChain | Python_Scripts/outer_from_inner_dec.py:54-62 | from pass 1 on, the loop ends with n·BD/AD of the triangle after the reference passes |
| Polygons.OuterFromInnerExact | Python_Scripts/outer_from_inner_dec.py:43-64 | the result is n·BC/AC after `iteration` passes, never below the inner half perimeter when AB = 2 |
| Polygons.Bisect | Python_Scripts/outer_inner_new_dec.py:61-65 | defined exactly when OA + OC ≠ 0, else InvalidOperation when AC·OA = 0 and DivisionByZero otherwise; OA is unchanged, AD·(OA+OC) = AC·OA and OD² = OA² + AD² |
| Polygons.BisectCircumscribed | Python_Scripts/outer_inner_new_dec.py:61-62 | from a right triangle OAC: again one, with 0 < AD < AC and OA < OD < OC |
| Polygons.BisectChain | Python_Scripts/outer_inner_new_dec.py:51-65 | reference: k passes keep OA and can only fail with a Decimal trap |
| Polygons.BisectChainCircumscribed | Python_Scripts/outer_inner_new_dec.py:51-65 | the right triangle survives any number of passes, and the half edge never grows |
| Polygons.OuterLoop | Python_Scripts/outer_inner_new_dec.py:51-65 | faults of the loop are Decimal traps |
| Polygons.OuterLoopIsChain | Python_Scripts/outer_inner_new_dec.py:59-65 | from pass 1 on, the loop is the reference passes |
| Polygons.TwoBoundMean | Python_Scripts/outer_inner_new_dec.py:67 | `(1/r + 1/OD)·(AD/2)·n` is defined exactly when r, OD ≠ 0 and is the mean of n·AD/r and n·AD/OD |
| Polygons.MeanOfReciprocals | Python_Scripts/outer_inner_new_dec.py:67 | the reciprocal form is the mean of the two half perimeters, and lies between them for 0 < r ≤ OD |
| Polygons.TwoBoundMeanBetween | Python_Scripts/outer_inner_new_dec.py:67 | for 0 < r ≤ OD the mean lies between n·AD/OD and n·AD/r |
| Polygons.OuterPolygon | Python_Scripts/outer_inner_new_dec.py:45-69 | a negative count is unbound (or DivisionByZero when OA = 0, evaluated first); otherwise never unbound |
| Polygons.OuterPolygonIsChain | Python_Scripts/outer_inner_new_dec.py:45-69 | the result is the mean of the triangle after `iteration` reference passes |
| Polygons.ChainAboveInradius | Python_Scripts/outer_inner_new_dec.py:61-62 | after any number of passes 0 < AD and OA < OD |
| Polygons.OuterPolygonBetween | Python_Scripts/outer_inner_new_dec.py:49-67 | from a right triangle the script never traps, and closes over a triangle with 0 < AD and OA < OD |
| Polygons.OuterHexagon | Python_Scripts/outer_inner_new_dec.py:77-79 | the start triangle is right-angled at A with OA = 1 and positive sides |
| Edges.EdgeStep | Python_Scripts/new_approaches/archimedes_edges_dec.py:34-35 | defined exactly when −2 ≤ sn ≤ 2, failing otherwise with InvalidOperation; 0 ≤ s2n ≤ S2n and s2n < 1.5 |
| Edges.EdgeStepValues | Python_Scripts/new_approaches/archimedes_edges_dec.py:34-35 | s2n² = 2 − √(4 − sn²) and S2n·√(1 − (s2n/2)²) = s2n |
| Edges.EdgeStepHalfChord | Python_Scripts/new_approaches/archimedes_edges_dec.py:34 | the half-chord identity s2n²·(4 − s2n²) = sn² |
| Edges.EdgeStepShrinks | Python_Scripts/new_approaches/archimedes_edges_dec.py:34-37 | for 0 < sn < 2 the step is defined and 0 < s2n < sn, so 0 < sn < 2 is preserved |
| Edges.EdgeStepIsHalfAngle | Python_Scripts/new_approaches/archimedes_edges_dec.py:34 | on diameter 2, the new inner side equals the BD of the triangle scripts' half-angle pass |
| Edges.HalfAngleChord | Python_Scripts/ddecimal_archimedes_original.py:69-70 | on diameter 2 the half-angle pass gives BD = √(2 − AC) |
| Edges.EdgePass | Python_Scripts/new_approaches/archimedes_edges_dec.py:29-35 | pass 0 copies the sides, every later pass doubles from the inner side |
| Edges.Doubling | Python_Scripts/new_approaches/archimedes_edges_dec.py:25-38 | reference: k passes fail, with InvalidOperation, exactly when k > 0 and the start's inner side lies outside [−2, 2]; after a pass 0 ≤ s ≤ S and s < 1.5 |
| Edges.EdgesLoopIsDoubling | Python_Scripts/new_approaches/archimedes_edges_dec.py:25-38 | from pass 1 on, the loop is the reference doubling |
| Edges.EdgesStart | Python_Scripts/new_approaches/archimedes_edges_dec.py:18-19 | for r > 0: 0 < sn (the hexagon's inner side r) < Sn (its outer side) |
| Edges.EdgeMean | Python_Scripts/new_approaches/archimedes_edges_dec.py:40 | `(S2n + s2n)·n/4` is the mean of the half perimeters n·S2n/2 and n·s2n/2, between them when s2n ≤ S2n |
| Edges.EdgesScript | Python_Scripts/new_approaches/archimedes_edges_dec.py:15-40 | unbound exactly for a negative count; any other fault is InvalidOperation |
| Edges.EdgesScriptIsDoubling | Python_Scripts/new_approaches/archimedes_edges_dec.py:22-40 | the script is the mean over the reference doubling with n = 6·2^iteration, and defined exactly when iteration = 0 or −2 ≤ r ≤ 2 |
| Edges.EdgesScriptBetween | Python_Scripts/new_approaches/archimedes_edges_dec.py:37-40 | for r > 0 a run that does not trap closes over sides with s ≤ S, and its result is their EdgeMean |
| Edges.DoublingOrdered | Python_Scripts/new_approaches/archimedes_edges_dec.py:35-38 | from a positive radius the inner side never exceeds the outer one |
| Edges.DoublingIsChain | Python_Scripts/new_approaches/archimedes_edges_dec.py:34-37 | on diameter 2 the inner sides after k passes are the BD chords of k half-angle passes |
| CubicRoot.LeadingDigits | MISC/cubic_root.py:61 | the characters before the first '.', or the whole string if there is none |
| CubicRoot.Epsilon | MISC/cubic_root.py:64-66 | eps = 10^−(prec − cln): positive, eps·10^(prec − cln) = 1, and at least 1 exactly when cln ≥ prec |
| CubicRoot.Tolerance | MISC/cubic_root.py:61-66 | the tolerance is positive, and at least 1 exactly when the leading characters use up the precision |
| CubicRoot.NewtonStep | MISC/cubic_root.py:69 | defined exactly for x ≠ 0; returns x unchanged exactly when x³ = a |
| CubicRoot.HalleyStep | MISC/cubic_root.py:98 | defined exactly for 2x³ + a ≠ 0; returns x unchanged exactly when x = 0 or x³ = a |
| CubicRoot.HeronStep | MISC/cubic_root.py:319 | defined exactly for x ≠ 0; returns x unchanged exactly when x³ = a |
| CubicRoot.HouseholderStep | MISC/cubic_root.py:348 | defined exactly for x ≠ 0; returns x unchanged exactly when x³ = a or a = 4x³ |
| CubicRoot.HouseholderFixedPoints | MISC/cubic_root.py:348 | the two correction terms cancel exactly when x³ = a or a = 4x³ |
| CubicRoot.NewtonIsHeron | MISC/cubic_root.py:69 | for x ≠ 0 the Newton update (2x + a/x²)/3 equals Heron's x − (x³−a)/(3x²) |
| CubicRoot.BabylonianStep | MISC/cubic_root.py:298-299 | defined exactly when 2y + w ≠ 0; y' = (2y + w)/3 ≠ 0 and w'·y'² = x |
| CubicRoot.BabylonianFixedPoint | MISC/cubic_root.py:298-299 | a cube root c of x is a fixed point of the pair update |
| CubicRoot.Iterate | MISC/cubic_root.py:76-78 | on exit the last two iterates are one update apart and pass the exit test |
| CubicRoot.IterateFixedPoint | MISC/cubic_root.py:76-78 | a fixed point of the update is returned at once |
| CubicRoot.OnePoint | MISC/cubic_root.py:68-82 | a result is an update that moved less than the tolerance; a failing first update is reported |
| CubicRoot.CubicRootV0 | MISC/cubic_root.py:58-82 | a result is a Newton update that moved less than eps; a = 0 is InvalidOperation (0/0) |
| CubicRoot.CubicRootV0OfOne | MISC/cubic_root.py:68-78 | `cubic_root_v0(1)` returns 1 |
| CubicRoot.CubicRootV1 | MISC/cubic_root.py:87-111 | a result is a Halley update that moved less than eps; a = 0 is InvalidOperation |
| CubicRoot.V2Start | MISC/cubic_root.py:130 | the start value is never 0, and is (n − 1)/3 unless n = 1 |
| CubicRoot.CubicRootV2 | MISC/cubic_root.py:116-144 | a result is a Newton update that moved at most eps (the loop test is `>`); a failure comes only from a pass of the loop |
| CubicRoot.CubicRootV7 | MISC/cubic_root.py:308-332 | a result is a Heron update that moved less than eps; a = 0 is InvalidOperation |
| CubicRoot.CubicRootV8 | MISC/cubic_root.py:337-361 | a result is a Householder update that moved less than eps; a = 0 is InvalidOperation |
| CubicRoot.BabylonianLoop | MISC/cubic_root.py:297-299 | a result is either the unchanged y with \|w − y\| < eps, or a y with \|x/y² − y\| < eps |
| CubicRoot.CubicRootV6 | MISC/cubic_root.py:276-303 | the Babylonian result is x itself when \|1 − x\| < eps, or a y with \|x/y² − y\| < eps |
| CubicRoot.Diff | MISC/cubic_root.py:152-156 | `diff` is \|num − mid³\| |
| CubicRoot.BinarySearchStep | MISC/cubic_root.py:175-185 | the width halves, low³ < num ≤ high³ is kept, and the new bracket lies inside the old |
| CubicRoot.BracketMidpoint | MISC/cubic_root.py:175 | under low³ < num ≤ high³: low < mid < high |
| CubicRoot.BinarySearchLoop | MISC/cubic_root.py:173-185 | the loop exits only with \|mid³ − num\| ≤ eps, and then low < mid < high |
| CubicRoot.BinarySearchStart | MISC/cubic_root.py:165-166 | for num > 0: low³ < num ≤ high³ initially |
| CubicRoot.CubicRootV3 | MISC/cubic_root.py:149-189 | a result has \|x³ − num\| ≤ eps and, for num > 0, lies strictly between 0 and the start's upper end; no exception |
| CubicRoot.BisectionStep | MISC/cubic_root.py:220-228 | the width halves and 0 ≤ low < high with low³ ≤ num ≤ high³ is kept |
| CubicRoot.BisectionLoop | MISC/cubic_root.py:218-231 | the loop exits only with 0 ≤ x³ − num ≤ eps, and then strictly inside the bracket |
| CubicRoot.BisectionStart | MISC/cubic_root.py:210-211 | for num ≥ 0 the start bracket encloses the root |
| CubicRoot.CubicRootV4 | MISC/cubic_root.py:194-235 | a result is a one-sided upper approximation 0 ≤ x³ − num ≤ eps, for num ≥ 0 strictly between 0 and the start's upper end; no exception |
| CubicRoot.HalvingStep | MISC/cubic_root.py:262-267 | the width halves and low³ ≤ num < high³ is kept |
| CubicRoot.HalvingLoop | MISC/cubic_root.py:258-267 | the loop exits only with \|mid³ − num\| < eps, and then strictly inside the bracket |
| CubicRoot.HalvingStart | MISC/cubic_root.py:255-256 | for num ≥ 0: low³ ≤ num < high³ initially |
| CubicRoot.CubicRootV5 | MISC/cubic_root.py:240-271 | a result has \|x³ − num\| < eps and, for num ≥ 0, lies strictly between 0 and the start's upper end; no exception |
| CubicRoot.FalsiStart | MISC/cubic_root.py:380-386 | for num > 0 with 8·num² > 1 the start values straddle the root: a < b, fa < 0 < fb, a³ < num < b³, side in {−1, 0, 1} |
| CubicRoot.StartValueSigns | MISC/cubic_root.py:382-386 | f(−2n) = −n(8n² + 1) < 0 and f(2n) = n(8n² − 1), positive exactly above √(1/8) |
| CubicRoot.FalsiStartWithoutBracket | MISC/cubic_root.py:382-386 | for 0 < num ≤ √(1/8) both start values are ≤ 0: no valid bracket |
| CubicRoot.FalsiPointInside | MISC/cubic_root.py:394 | on a sign change the secant point is defined and a < c < b |
| CubicRoot.FalsiUpdateKeepsBracket | MISC/cubic_root.py:397-414 | both moves, with the Illinois halvings, keep fa < 0 < fb, a < b and side ∈ {−1, 0, 1}; the else-break happens exactly when fc = 0 |
| CubicRoot.FalsiPass | MISC/cubic_root.py:394-414 | one pass of the loop body keeps the bracket, and settles exactly on an exact root |
| CubicRoot.FalsiLoop | MISC/cubic_root.py:393-414 | from a valid bracket no exception; a result is an exact root or lies in a bracket narrower than eps·\|b + a\| |
| CubicRoot.CubicRootV9 | MISC/cubic_root.py:366-418 | for 8·num² > 1 no exception, and a result is an exact root or inside a narrow bracket |
| CubicRoot.CubicRootV9OfZero | MISC/cubic_root.py:394 | num = 0 makes `fa − fb` zero: 0/0 is InvalidOperation on the first pass |
| CubicRoot.SteffensenUpdate | MISC/cubic_root.py:445-447 | the update fails exactly at an exact cube root p0, and then with the 0/0 InvalidOperation |
| CubicRoot.SteffensenLoop | MISC/cubic_root.py:442-454 | a result is an exact root (the caught 0/0) or an update that moved less than eps; the only failure is an unbound `p` |
| CubicRoot.CubicRootV10 | MISC/cubic_root.py:423-456 | as the loop; for a = 1/8 the start 1/2 is a root, so `p` is unbound at the end |

## Left out

- The IEEE-double scripts are not part of this model. Their behaviour, such as the number of places reached or the overflow near 1021 passes, is a floating-point effect, and the exact-real recurrences they run are those of their Decimal counterparts.
- Decimal rounding, the context precision, rounding modes, `localcontext` guard digits and the final unary `+` are not modelled: every value is an exact real.
- The exponent-range signals of the default Decimal context are not modelled: Overflow (which the default context traps), Underflow, Subnormal, Clamped, and the untrapped Inexact and Rounded. Exact reals have neither an exponent limit nor rounding. So a run the model reports as defined could still raise Overflow in Decimal if a value left the exponent range.
- `x ** (D(1)/D(3))` is modelled as the exact cube root, although Decimal uses a rounded exponent.
- The square and cube roots are a `Roots` parameter with their defining equations, because they have no closed form over the rationals.
- How many correct places a run reaches, and the places/iterations tables in the doc comments, are not modelled. They depend on the rounding that the exact model leaves out.
- Termination of the `while True` loops of the cube-root collection is not claimed, since under finite precision they can stall. Each loop carries a `fuel` bound, and `OutOfFuel` is an outcome of the model only.
- `str()` of a Decimal is not modelled. The printed input of a cube root (`repr`) and the strings handed to `correct_digits` are inputs.
- I/O and driver code are not part of this model: `print_pi`, `print_iteration`, cursor control, every `main()`, `print`, timing, `input()`, KeyboardInterrupt handling, and the `eval` dispatch over the cube-root variants.
- The module-level constants (ITERATION, PRECISION, `r = 1`) are parameters or `const`s, so the scripts are modelled for any radius and count.
- Prediction.InitValues: the factors 1.02 and 0.56 are the exact rationals 102/100 and 56/100, not the binary doubles the script multiplies. For example, `0.56*100` is `56.00000000000001` as a double, so the script predicts 59 passes for 100 places where the exact formula gives 58.
- The literal reference strings (`PI_HEREDOC`, `PI100`) are data. Only the 100-place reference `Text.Pi100` is modelled, because the `correct_digits` default depends on it.
- The UnboundLocal fault stands for both UnboundLocalError inside a function and NameError at module level.
- Polygons.OuterPolygonBetween: the position of the result between the two half perimeters is stated by Polygons.TwoBoundMeanBetween about the closing mean, not inside this lemma.
- Edges.EdgesScriptBetween: the position of the result between the inner and outer half perimeters comes from Edges.EdgeMean's contract, not from this lemma.
