# Extended Euclid and binary exponentiation in Dafny

This project models two small integer routines and proves their properties.

- **Extended Euclidean algorithm** (`math/extended_euclid_algorithm.cpp`).
  - Given `a, b`, it returns `gcd` and Bézout coefficients `x, y` with `a*x + b*y == gcd`.
  - `extended_euclid_recursive` descends on `(b, a % b)` and back-substitutes the coefficients on the way up.
  - `extended_euclid_iterative` carries two coefficient pairs through a `while (b != 0)` loop.
- **Binary exponentiation** (`math/binary_exponent.cpp`).
  - `base^exponent` by repeated squaring.
  - `binary_exponent_recursive` halves the exponent.
  - `binary_exponent_iterative` scans the exponent's bits with an accumulator and a running square.

The project has three modules, one file each:

- `CppArith` (`cpp_arith.dfy`) defines C++ integer division on `long long`.
  - `CDiv` truncates toward zero.
  - `CRem` takes the sign of the dividend.
  - Dafny's own `/` and `%` are Euclidean. Wherever the source writes `/` or `%` on an operand that may be negative, the model uses these two functions, so both algorithms are modelled on all integers, negative ones included. The one exception is the loop of `binary_exponent_iterative`: its exponent is positive there, so `exponent % 2` and `exponent >>= 1` are modelled with Dafny's `%` and `/`, which agree with C++ on positive operands (`CDivNonNegative`).
- `ExtendedEuclid` (`extended_euclid.dfy`).
  - The recursive version is the function `ExtendedEuclidRecursive`, returning a `Bezout(gcd, x, y)` triple in place of the C++ reference out-parameters.
  - The iterative version is the method `ExtendedEuclidIterative`. Its loop updates the same locals the C++ loop updates, through `temp`.
  - The method is proved to return the recursive triple. Its ghost out-parameter `quotients` is proved to be the recursion's quotient sequence (`Quotients`).
- `BinaryExponent` (`binary_exponent.dfy`).
  - The recursive version is a function proved equal to the reference `Pow`.
  - The iterative version is a method with the source's loop. It is proved to return `Pow(base, exponent)` and to iterate `BitLength(exponent)` times.

Behaviour of the code that its comments leave open:

- **Truncation, not floor.** The comment at `math/extended_euclid_algorithm.cpp:35` writes the back-substitution with `⌊a/b⌋`. The code uses C++ `/`, which truncates, and the model follows the code. Bézout's identity holds either way, and on non-negative inputs the two agree (`AgreesWithTextbook`).
- **Negative exponents.** On a negative exponent `binary_exponent_recursive` terminates and returns `base^|exponent|`, because C++ `exponent / 2` truncates toward zero and the recursion reaches `0`. The iterative version never enters its loop and returns `1` (`BinaryExponentRecursive`, `BinaryExponentIterative`, `NegativeExponent`).
- **Sign of `gcd`.** It is not normalised. For `(-30, 20)` the result is `(-10, 1, 1)` (`ExampleNegative`).

The self-test inputs yield `(10, 1, -1)` for `(30, 20)`, `(1, -5, 22)` for `(101, 23)` and `(1, 13, -21)` for `(55, 34)` (`Example30And20`, `Example101And23`, `Example55And34`).

## Model

| member | source | states |
|---|---|---|
| CppArith.CDiv | math/extended_euclid_algorithm.cpp:60 | C++ `a / b`, truncating toward zero. It has no `ensures` of its own; `CRemProperties` and `CDivUnique` state what it computes. |
| CppArith.CRem | math/extended_euclid_algorithm.cpp:57 | C++ `a % b`, with the sign of the dividend. It has no `ensures` of its own; `CRemProperties` and `CDivUnique` state what it computes. |
| CppArith.CRemProperties | math/extended_euclid_algorithm.cpp:57-60 | C++ `/` and `%` satisfy `(a / b) * b + a % b == a`, `Abs(a % b) < Abs(b)`, and the remainder is zero or has the sign of `a`. The second fact is why `Abs(b)` strictly decreases in the descent and in the loop, so both terminate. |
| CppArith.CDivUnique | math/extended_euclid_algorithm.cpp:95 | Any `q, r` with `a == q * b + r`, `Abs(r) < Abs(b)` and `r` zero or of the sign of `a` are `CDiv(a, b)` and `CRem(a, b)`. So the model's operators are exactly the C++ ones. |
| CppArith.CDivCRemAbs | math/binary_exponent.cpp:38-39 | For a positive divisor, the magnitude of the truncating quotient and remainder is the Euclidean division of the magnitudes. This gives `Abs(exponent / 2) == Abs(exponent) / 2` in the recursive power. |
| CppArith.CDivNonNegative | math/extended_euclid_algorithm.cpp:57-60 | On a non-negative dividend and a positive divisor, C++ and mathematical division agree. |
| ExtendedEuclid.ExtendedEuclidRecursive | math/extended_euclid_algorithm.cpp:47-61 | `extended_euclid_recursive`, returning the triple `(gcd, x, y)`. Its contract is carried by lemmas about it, not by its own `ensures`: `BezoutIdentity`, `GcdDividesInputs`, `CommonDivisorDividesGcd`, `GcdIsGreatest`, `GcdZeroIff`, `GcdNonNegative` and `AgreesWithTextbook`. |
| ExtendedEuclid.BackSubstitute | math/extended_euclid_algorithm.cpp:59-60 | The back-substitution `x = y1, y = x1 - (a / b) * y1`. It has no `ensures` of its own; `BackSubstitution` proves the step keeps Bézout's identity. |
| ExtendedEuclid.BaseCase | math/extended_euclid_algorithm.cpp:49-53 | For `b == 0` the triple is `(a, 1, 0)`. |
| ExtendedEuclid.BackSubstitution | math/extended_euclid_algorithm.cpp:59-60 | If `b * x1 + (a % b) * y1 == g`, then `x = y1, y = x1 - (a / b) * y1` satisfy `a * x + b * y == g`. |
| ExtendedEuclid.BezoutIdentity | math/extended_euclid_algorithm.cpp:47-61 | For all integers `a, b`, the recursive triple satisfies `a * x + b * y == gcd`. |
| ExtendedEuclid.GcdZeroIff | math/extended_euclid_algorithm.cpp:47-61 | `gcd == 0` exactly when `a == 0 && b == 0`, in both directions. |
| ExtendedEuclid.GcdNonNegative | math/extended_euclid_algorithm.cpp:47-61 | On non-negative inputs `gcd >= 0`. |
| ExtendedEuclid.GcdDividesInputs | math/extended_euclid_algorithm.cpp:22-29 | The computed `gcd` divides both `a` and `b`, for all integers. The proof follows `gcd(a, b) = gcd(b, a % b)`. |
| ExtendedEuclid.CommonDivisorDividesGcd | math/extended_euclid_algorithm.cpp:6-9 | Every common divisor of `a` and `b` divides the computed `gcd`. |
| ExtendedEuclid.GcdIsGreatest | math/extended_euclid_algorithm.cpp:1-9 | For inputs not both zero, no common divisor exceeds `Abs(gcd)` in magnitude. So `Abs(gcd)` is the greatest common divisor. |
| ExtendedEuclid.AgreesWithTextbook | math/extended_euclid_algorithm.cpp:31-37 | On non-negative inputs, the C++ descent equals the textbook extended Euclid with floor division and mathematical remainder. |
| ExtendedEuclid.ResumeStep | math/extended_euclid_algorithm.cpp:94-106 | One loop step changes `(a, b)` to `(b, a - q*b)` and the pairs to `(x1, y1)`, `(x0 - q*x1, y0 - q*y1)`. It leaves unchanged the triple the pairs make of the remaining descent. |
| ExtendedEuclid.LoopStep | math/extended_euclid_algorithm.cpp:92-106 | One iteration preserves the loop invariant. Each working value stays `x*A + y*B` of the original inputs with its coefficient pair. The answer still to come stays the recursive one. The quotients used so far are a prefix of the recursion's. |
| ExtendedEuclid.ExtendedEuclidIterative | math/extended_euclid_algorithm.cpp:90-111 | The loop returns a triple with `a * x + b * y == gcd`. It is the triple of `ExtendedEuclidRecursive`, and the quotient sequence is the recursion's. |
| ExtendedEuclid.ModularInverse | math/extended_euclid_algorithm.cpp:11-13 | For `M > 0` and `gcd(A, M) == 1`, `A * x ≡ 1 (mod M)` under mathematical residue. |
| ExtendedEuclid.InverseFromBezout | math/extended_euclid_algorithm.cpp:11-13 | `A * x + M * y == 1` with `M > 0` gives `(A * x) mod M == 1 mod M`. |
| ExtendedEuclid.ModularInverseAsDocumented | math/extended_euclid_algorithm.cpp:11-13 | For `(101, 23)`, `gcd == 1`, but C++ `(101 * x) % 23` is `-22`, not `1`. |
| ExtendedEuclid.ModularInverseNegativeA | math/extended_euclid_algorithm.cpp:11-13 | `(-1, 3)` yields `(-1, 1, 0)`: the inputs are coprime, but `gcd` is `-1` and `-1 * x` is `2`, not `1`, modulo `3`. |
| ExtendedEuclid.Example30And20 | math/extended_euclid_algorithm.cpp:122-127 | `(30, 20)` yields `(10, 1, -1)`. |
| ExtendedEuclid.Example101And23 | math/extended_euclid_algorithm.cpp:135-140 | `(101, 23)` yields `(1, -5, 22)`. |
| ExtendedEuclid.Example55And34 | math/extended_euclid_algorithm.cpp:148-153 | `(55, 34)` yields `(1, 13, -21)`. |
| ExtendedEuclid.ExampleNegative | math/extended_euclid_algorithm.cpp:47-61 | `(-30, 20)` yields `(-10, 1, 1)`, with `gcd` negative and not normalised. |
| BinaryExponent.PowAdd | math/binary_exponent.cpp:16-25 | `base^(m+n) == base^m * base^n`. |
| BinaryExponent.PowSquare | math/binary_exponent.cpp:55 | Squaring the base doubles the exponent: `(b*b)^n == b^(2n) == b^n * b^n`. |
| BinaryExponent.PowHalving | math/binary_exponent.cpp:38-43 | `base^e` is `half*half*base` for odd `e` and `half*half` for even `e`, where `half = base^(e/2)`. |
| BinaryExponent.BinaryExponentRecursive | math/binary_exponent.cpp:34-44 | The result is `Pow(base, Abs(exponent))`. That is `Pow(base, exponent)` for `exponent >= 0`, and `1` for exponent `0`. |
| BinaryExponent.BitLengthIsLogarithm | math/binary_exponent.cpp:5-10 | For `e > 0`, `e < 2^BitLength(e) <= 2e`, i.e. `BitLength(e) == ⌊log2 e⌋ + 1`. |
| BinaryExponent.IterationStep | math/binary_exponent.cpp:52-56 | One iteration keeps `res * b^e` unchanged. |
| BinaryExponent.BinaryExponentIterative | math/binary_exponent.cpp:49-59 | For `exponent >= 0` the result is `Pow(base, exponent)` and equals the recursive result. For `exponent <= 0` it is `1`. The loop iterates `BitLength(exponent)` times. |
| BinaryExponent.TestValues | math/binary_exponent.cpp:64-106 | The five self-test expectations: `2^10`, `3^7`, `4^12`, `5^15` and `6^20`. |
| BinaryExponent.NegativeExponent | math/binary_exponent.cpp:34-44 | On a negative exponent the recursion returns `base^Abs(exponent)`: `(2, -3)` yields `8`. |

## Left out

- `long long` overflow is not modelled, and integers are unbounded. In C++ signed overflow is undefined behaviour rather than wrap-around.
  - The iterative power squares `base` once more after the last bit. For `6^20` that final square is about `7.9e24`, beyond 64 bits, although the result fits.
  - So no contract here says anything about the absence of intermediate overflow.
- `test()` and `main()` of both files only print to the console. Their inputs and the values they print are stated as lemmas (`Example*`, `TestValues`). The printing is not modelled.
- `ExtendedEuclidRecursive`: its properties are stated as separate lemmas about it rather than as `ensures` of the function, so that evaluating the function on concrete inputs stays cheap.
- `BinaryExponentIterative`: `exponent >>= 1` is modelled as division by `2`. That is exact, because the loop body executes only while `exponent > 0`.

## Findings

| source | as written | input that shows it | evidently intended | confidence | as-written member | corrected member |
|---|---|---|---|---|---|---|
| math/extended_euclid_algorithm.cpp:11-13 | The comment says the `x` returned for `(A, M)` is the inverse `B` with `(A × B) % M == 1`. | `(A, M) = (101, 23)`: `gcd == 1` and `x == -5`, but C++ `(101 * -5) % 23 == -22`. | `x` is an inverse of `A` modulo `M` up to congruence. It must be reduced into `[0, M)` before `% M == 1` holds in C++. A negative `A` fails a second way: `(-1, 3)` yields `gcd == -1` and `x == 1`, an inverse of `-A` (`ModularInverseNegativeA`); there `x` must also be negated. | medium, not executed | ExtendedEuclid.ModularInverseAsDocumented | ExtendedEuclid.ModularInverse |
