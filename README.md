# BitOps: Java's logical right shift and left shift on `int`, in Dafny

The class `com.ambrosebs.fast_attr.BitOps` has two static helpers on Java
`int` values: `unsignedShiftRightInt(x, n)`, which returns `x >>> n`, and
`bitShiftLeftInt(x, n)`, which returns `x << n`. This project models both
and proves what they do to the 32-bit pattern of `x`.

The carrier is `JavaInt.int32`, a newtype over the integers from -2^31 to
2^31 - 1. Two conversions are stated explicitly: `Unsigned` reads a
pattern as a number in [0, 2^32), and `Wrap` keeps the low 32 bits of any
integer. Every wrap-around in the model goes through these two.

Each Java operator the two helpers depend on is defined the way the Java
Language Specification (JLS) gives its value:

- `x << n` is `x * 2^s` narrowed to 32 bits (JLS 15.19).
- `x >> n` is `floor(x / 2^s)` (JLS 15.19).
- `x >>> n` is `x >> n` when x is non-negative, and `(x >> n) + (2 << ~n)` when x is negative (JLS 15.19).
- `~a` is `(-a) - 1` (JLS 15.15.5).
- `a + b` is the exact sum narrowed to 32 bits (JLS 15.18.2).
- `a & b` is bit-by-bit conjunction (JLS 15.22.1).

Here `s`, the shift distance, is `n & 0x1f`: the low five bits of the count.

The lemmas then show what these definitions mean for bits:

- `>>>` moves the pattern down by s places and fills the top with zeros.
- `<<` moves it up by s places, fills the bottom with zeros and drops what passes bit 31.
- Both depend only on `n & 0x1f`, including for negative n.

Modules:

- `Arith` (`arith.dfy`): powers of two, and facts about division and remainder by them.
- `JavaInt` (`java_int.dfy`): the `int` type, the conversions, and the operators `+`, `~`, `&` and `>>`; also the shift distance.
- `BitOps` (`bit_ops.dfy`): the two helpers of the source class, and their properties.

Java masks an `int` shift count to its low five bits (JLS 15.19). The
model does the same: `n` is always reduced to `n & 0x1f`, which
`JavaInt.LowFiveBits` proves equals `n` modulo 32.

## Model

| member | source | states |
|---|---|---|
| `BitOps.UnsignedShiftRightInt` | java/com/ambrosebs/fast_attr/BitOps.java:5-7 | `x >>> n`, defined by the two cases of JLS 15.19. Its unsigned value is the unsigned value of x divided by 2^s and rounded down, where s = `n & 0x1f`. |
| `BitOps.BitShiftLeftInt` | java/com/ambrosebs/fast_attr/BitOps.java:8-10 | `x << n`, defined as x * 2^s narrowed to an int. Its unsigned value is (u(x) * 2^s) mod 2^32. |
| `BitOps.ShiftRightOfNonNegative` | java/com/ambrosebs/fast_attr/BitOps.java:6 | For x >= 0, `x >> n` already equals the unsigned quotient u(x) / 2^s. |
| `BitOps.ShiftRightOfNegative` | java/com/ambrosebs/fast_attr/BitOps.java:6 | For x < 0, `(x >> n) + (2 << ~n)` has unsigned value u(x) / 2^s. This covers s = 0, where `2 << ~n` wraps to 0. |
| `BitOps.ShiftCountMasked` | java/com/ambrosebs/fast_attr/BitOps.java:5-10 | Shifting by n and by `n & 0x1f` gives the same int, for both functions and every n, including negative n. |
| `BitOps.SameDistanceSameShift` | java/com/ambrosebs/fast_attr/BitOps.java:5-10 | Two counts with the same distance give the same result for both functions. |
| `BitOps.ShiftByZero` | java/com/ambrosebs/fast_attr/BitOps.java:5-10 | Shifting by 0 returns x unchanged, for both functions. |
| `BitOps.UnsignedShiftRightBit` | java/com/ambrosebs/fast_attr/BitOps.java:6 | Bit i of `x >>> n` is bit i + s of x when i + s < 32, and 0 otherwise. |
| `BitOps.UnsignedShiftRightTopBitsZero` | java/com/ambrosebs/fast_attr/BitOps.java:6 | The top s bits of `x >>> n` are zero. Its unsigned value is below 2^(32-s). For s >= 1 the result is non-negative. |
| `BitOps.UnsignedShiftRightVersusShiftRight` | java/com/ambrosebs/fast_attr/BitOps.java:6 | `x >>> n == x >> n` if and only if x >= 0 or s = 0. |
| `BitOps.UnsignedShiftRightAllOnes` | java/com/ambrosebs/fast_attr/BitOps.java:6 | For n in [1, 31], `-1 >>> n` is 2^(32-n) - 1. |
| `BitOps.UnsignedShiftRightExamples` | java/com/ambrosebs/fast_attr/BitOps.java:6 | `-1 >>> 1` is 0x7FFFFFFF, and `8 >>> 2` is 2. |
| `BitOps.BitShiftLeftBit` | java/com/ambrosebs/fast_attr/BitOps.java:9 | Bit i of `x << n` is bit i - s of x when i >= s, and 0 below s. Bits shifted past 31 are gone. |
| `BitOps.BitShiftLeftLowBitsZero` | java/com/ambrosebs/fast_attr/BitOps.java:9 | The low s bits of `x << n` are zero, so its unsigned value is a multiple of 2^s. |
| `BitOps.BitShiftLeftExamples` | java/com/ambrosebs/fast_attr/BitOps.java:9 | `1 << 31` is -2147483648, which wraps into the sign bit. `3 << 2` is 12. |
| `BitOps.RightAfterLeft` | java/com/ambrosebs/fast_attr/BitOps.java:5-10 | `(x << n) >>> n` equals `x & (2^(32-s) - 1)`: the top s bits are cleared and the rest are kept. |
| `BitOps.LeftAfterRight` | java/com/ambrosebs/fast_attr/BitOps.java:5-10 | `(x >>> n) << n` has unsigned value u(x) - u(x) mod 2^s: the low s bits are cleared and the rest are kept. |
| `JavaInt.LowFiveBits` | java/com/ambrosebs/fast_attr/BitOps.java:5-10 | `n & 0x1f` equals the shift distance, which is n modulo 32, for every int n, including negative n. |
| `JavaInt.ShiftRight` | java/com/ambrosebs/fast_attr/BitOps.java:6 | `x >> n` is the floor of x / 2^s: r * 2^s <= x < (r + 1) * 2^s. It is negative exactly when x is. |
| `JavaInt.Unsigned` | java/com/ambrosebs/fast_attr/BitOps.java:5 | The unsigned reading of an int lies in [0, 2^32) and is congruent to it modulo 2^32. |
| `JavaInt.Wrap` | java/com/ambrosebs/fast_attr/BitOps.java:9 | Narrowing to an int keeps the value modulo 2^32. |
| `JavaInt.WrapUnsigned` | java/com/ambrosebs/fast_attr/BitOps.java:5 | Reading an int as unsigned and narrowing it back gives the same int. |
| `JavaInt.UnsignedInjective` | java/com/ambrosebs/fast_attr/BitOps.java:5 | Two ints with the same unsigned reading are equal. |
| `JavaInt.SignBit` | java/com/ambrosebs/fast_attr/BitOps.java:9 | Bit 31 is set exactly when the int is negative. |
| `JavaInt.Add` | java/com/ambrosebs/fast_attr/BitOps.java:6 | `a + b` on ints is congruent to the exact sum modulo 2^32. |
| `JavaInt.AddUnsigned` | java/com/ambrosebs/fast_attr/BitOps.java:6 | The pattern of `a + b` is (a + u(b)) mod 2^32. |
| `JavaInt.Not` | java/com/ambrosebs/fast_attr/BitOps.java:6 | `~a` inverts every bit: u(~a) = 2^32 - 1 - u(a). |
| `JavaInt.ShiftDistance` | java/com/ambrosebs/fast_attr/BitOps.java:6 | The distance a shift by n moves, n modulo 32, is below 32; `JavaInt.LowFiveBits` ties it to `n & 0x1f`. Both helpers shift through it. |
| `JavaInt.Bit` | java/com/ambrosebs/fast_attr/BitOps.java:9 | Bit i of an int's pattern is 0 or 1; `JavaInt.BitAbove` makes every bit from 32 up 0, and `JavaInt.SignBit` makes bit 31 the sign. |
| `JavaInt.BitAbove` | java/com/ambrosebs/fast_attr/BitOps.java:6 | An int has no bits at positions 32 and above, so a right shift fills the top with zeros. |
| `JavaInt.And` | java/com/ambrosebs/fast_attr/BitOps.java:6 | `a & b` is negative exactly when a and b both are; `JavaInt.AndBit` and `JavaInt.AndLowMask` give its meaning bit by bit. |
| `JavaInt.AndBit` | java/com/ambrosebs/fast_attr/BitOps.java:5-10 | Bit i of `a & b` is set exactly when bit i of a and bit i of b are both set. |
| `JavaInt.AndLowMask` | java/com/ambrosebs/fast_attr/BitOps.java:5-10 | AND with a mask of j low one-bits keeps x modulo 2^j. |

## Left out

- The package and class wrapper and the `static public` modifiers: they carry no behaviour.
- Concurrency and thread safety: both functions are pure and stateless, so there is nothing to model.
- Other parts of the repository, such as a hash array mapped trie that might call these helpers: only the class BitOps is modelled.
- Dafny's `bv32` type is not the carrier. The pattern is a bounded integer with explicit 32-bit conversions, so that quotient, remainder and sign, in which the JLS gives the shifts' values, stay in integer arithmetic; bits are read arithmetically through `JavaInt.Bit`.
